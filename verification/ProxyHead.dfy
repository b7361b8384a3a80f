/** Rewriting an absolute-form request head for forwarding: origin form (section 3.2.1 of RFC 9112)
    and no hop-by-hop header fields (section 7.6.1 of RFC 9110). Text is ASCII. */
module ProxyHead {
  import opened Sequences
  import opened Text
  import opened ProxyRequest

  // ---------- Header lines ----------

  /** The first line of s, its newline included. */
  function FirstLine(s: string): (line: string)
    requires s != ""
    ensures line != "" && line <= s
  {
    var i := IndexOf(s, '\n');
    if i < |s| then s[..i + 1] else s
  }

  /** The lines up to the first of at most two bytes. */
  function HeaderLines(s: string): seq<string>
    decreases |s|
  {
    if s == "" || |FirstLine(s)| <= 2 then []
    else [FirstLine(s)] + HeaderLines(s[|FirstLine(s)|..])
  }

  predicate IsName(name: string) {
    name != "" && forall k :: 0 <= k < |name| ==> name[k] > ' ' && name[k] != 0x7f as char
  }

  predicate HasName(line: string) {
    0 < IndexOf(line, ':') < |line| && IsName(line[..IndexOf(line, ':')])
  }

  function FieldName(line: string): string {
    Lower(line[..IndexOf(line, ':')])
  }

  predicate IsConnection(name: string) { name == "connection" || name == "proxy-connection" }

  predicate IsHopByHop(name: string) {
    IsConnection(name) || name == "keep-alive" || name == "transfer-encoding" || name == "te" || name == "trailer" ||
    name == "upgrade" || name == "authorization" || name == "proxy-authorization" || name == "cookie"
  }

  function TrimLineEnd(s: string): string {
    if s != "" && (s[|s| - 1] == '\r' || s[|s| - 1] == '\n') then TrimLineEnd(s[..|s| - 1]) else s
  }

  predicate IsSpace(c: char) { c == ' ' || 0x09 as char <= c <= 0x0d as char }

  function TrimSpace(s: string): string {
    if s != "" && IsSpace(s[0]) then TrimSpace(s[1..])
    else if s != "" && IsSpace(s[|s| - 1]) then TrimSpace(s[..|s| - 1])
    else s
  }

  /** The pieces between commas: one more than there are commas. */
  function SplitCommas(s: string): seq<string>
    decreases |s|
  {
    var i := IndexOf(s, ',');
    if i == |s| then [s] else [s[..i]] + SplitCommas(s[i + 1..])
  }

  /** The field names a Connection or Proxy-Connection line nominates, before trimming. */
  function Options(line: string): seq<string>
    requires HasName(line)
  {
    if IsConnection(FieldName(line)) then SplitCommas(TrimLineEnd(line[IndexOf(line, ':') + 1..])) else []
  }

  predicate IsField(line: string) {
    HasName(line) && AllNames(Options(line))
  }

  predicate AllNames(options: seq<string>) {
    forall k :: 0 <= k < |options| ==> IsName(TrimSpace(options[k]))
  }

  predicate Nominates(line: string, name: string) {
    HasName(line) && exists k :: 0 <= k < |Options(line)| && name == Lower(TrimSpace(Options(line)[k]))
  }

  /** Some line, wherever it stands, nominates the field. */
  predicate Nominated(lines: seq<string>, name: string) {
    exists k :: 0 <= k < |lines| && Nominates(lines[k], name)
  }

  /** The line must not be forwarded. */
  predicate Removed(all: seq<string>, line: string) {
    IsHopByHop(FieldName(line)) || Nominated(all, FieldName(line))
  }

  function Kept(lines: seq<string>, all: seq<string>): seq<string> {
    if lines == [] then []
    else (if Removed(all, lines[0]) then [] else [lines[0]]) + Kept(lines[1..], all)
  }

  // ---------- The first line ----------

  datatype Start = BadStart | Start(verb: string, path: string, version: string)

  function PathOf(target: string): string
    requires |target| >= 7
  {
    var p := 7 + IndexOf(target[7..], '/');
    if p < |target| then target[p..] else "/"
  }

  function TrimReturn(s: string): string {
    if s != "" && s[|s| - 1] == '\r' then s[..|s| - 1] else s
  }

  /** The parts of a first line, without its newline, that are forwarded. */
  function StartOfLine(line: string): Start {
    var a := IndexOf(line, ' ');
    if a == |line| then BadStart
    else
      var rest := line[a + 1..];
      var b := IndexOf(rest, ' ');
      if b == |rest| || b < 7 || rest[..7] != "http://" || |TrimReturn(rest[b + 1..])| < 8 then BadStart
      else Start(line[..a], PathOf(rest[..b]), rest[b + 1..][..8])
  }

  function StartOf(head: string): Start {
    var eol := IndexOf(head, '\n');
    if eol == |head| then BadStart else StartOfLine(head[..eol])
  }

  function Body(head: string): string {
    var eol := IndexOf(head, '\n');
    if eol == |head| then "" else head[eol + 1..]
  }

  const CLOSE := "Connection: close\r\n"

  predicate AllFields(lines: seq<string>) {
    forall k :: 0 <= k < |lines| ==> IsField(lines[k])
  }

  predicate Rewritable(head: string) {
    StartOf(head).Start? && AllFields(HeaderLines(Body(head)))
  }

  function ForwardedBody(lines: seq<string>): string {
    Concat(Kept(lines, lines)) + (CLOSE + "\r\n")
  }

  function Rewritten(head: string): string
    requires StartOf(head).Start?
  {
    var start := StartOf(head);
    LineText(start.verb, start.path, start.version + "\r\n" + ForwardedBody(HeaderLines(Body(head))))
  }

  // ---------- The rewriter ----------

  method CheckName(name: string) returns (ok: bool)
    ensures ok == IsName(name)
    ensures ok <==> name != "" && forall k :: 0 <= k < |name| ==> name[k] as int > 32 && name[k] as int != 127
  {
    if name == "" {
      return false;
    }
    var index := 0;
    while index < |name|
      invariant 0 <= index <= |name|
      invariant forall k :: 0 <= k < index ==> name[k] > ' ' && name[k] != 0x7f as char
    {
      if name[index] <= ' ' || name[index] == 0x7f as char {
        return false;
      }
      index := index + 1;
    }
    return true;
  }

  /** Adds the names a Connection line nominates, unless one of them is not a name. */
  method Nominate(line: string, before: set<string>) returns (nominated: set<string>, ok: bool)
    requires HasName(line)
    ensures ok == IsField(line)
    ensures ok ==> forall n :: n in nominated <==> n in before || Nominates(line, n)
  {
    nominated := before;
    if !IsConnection(FieldName(line)) {
      return nominated, true;
    }
    var options := SplitCommas(TrimLineEnd(line[IndexOf(line, ':') + 1..]));
    assert options == Options(line);
    NothingAdded(before, options);
    hide Added, Lower, TrimSpace, IsName, Options, HasName, AllNames, Nominates, IsConnection, FieldName;
    var i := 0;
    while i < |options|
      invariant 0 <= i <= |options| && Added(nominated, before, options, i)
    {
      var option := TrimSpace(options[i]);
      var valid := CheckName(option);
      if !valid {
        OneIsNoName(options, i);
        return before, false;
      }
      AddedOne(nominated, before, options, i);
      nominated := nominated + {Lower(option)};
      i := i + 1;
    }
    AllAdded(nominated, before, options, line);
    return nominated, true;
  }

  lemma OneIsNoName(options: seq<string>, i: nat)
    requires i < |options| && !IsName(TrimSpace(options[i]))
    ensures !AllNames(options)
  {
    hide IsName, TrimSpace;
  }

  /** The set holds what it held before and the names of the first i options, which are names. */
  ghost predicate Added(nominated: set<string>, before: set<string>, options: seq<string>, i: nat) {
    i <= |options| && AllNames(options[..i]) && forall n :: n in nominated <==> n in before || NamedBy(options[..i], n)
  }

  predicate NamedBy(options: seq<string>, name: string) {
    exists k :: 0 <= k < |options| && name == Lower(TrimSpace(options[k]))
  }

  lemma NothingAdded(before: set<string>, options: seq<string>)
    ensures Added(before, before, options, 0)
  {}

  lemma AddedOne(nominated: set<string>, before: set<string>, options: seq<string>, i: nat)
    requires i < |options| && Added(nominated, before, options, i) && IsName(TrimSpace(options[i]))
    ensures Added(nominated + {Lower(TrimSpace(options[i]))}, before, options, i + 1)
  {
    hide Lower, TrimSpace, IsName;
    var some, more := options[..i], options[..i + 1];
    assert more == some + [options[i]];
    forall n ensures NamedBy(more, n) <==> NamedBy(some, n) || n == Lower(TrimSpace(options[i])) {
      assert more[i] == options[i];
      assert forall k :: 0 <= k < i ==> more[k] == some[k];
    }
  }

  lemma AllAdded(nominated: set<string>, before: set<string>, options: seq<string>, line: string)
    requires Added(nominated, before, options, |options|) && HasName(line) && options == Options(line)
    ensures IsField(line) && forall n :: n in nominated <==> n in before || Nominates(line, n)
  {
    hide Lower, TrimSpace, Options, HasName, IsName;
    assert options[..|options|] == options;
  }

  /** The set holds just the names the lines nominate. */
  ghost predicate AreNominated(nominated: set<string>, lines: seq<string>) {
    forall n :: n in nominated <==> Nominated(lines, n)
  }

  lemma NoneYet()
    ensures AreNominated({}, []) && AllFields([])
  {}

  lemma OneMore(lines: seq<string>, line: string, before: set<string>, after: set<string>)
    requires AreNominated(before, lines) && AllFields(lines) && IsField(line)
    requires forall n :: n in after <==> n in before || Nominates(line, n)
    ensures AreNominated(after, lines + [line]) && AllFields(lines + [line])
  {
    hide Nominates, IsField;
    var more := lines + [line];
    assert more[|lines|] == line;
    assert forall k :: 0 <= k < |lines| ==> more[k] == lines[k];
    forall n ensures n in after <==> Nominated(more, n) {}
  }

  method ReadField(line: string, before: set<string>) returns (nominated: set<string>, ok: bool)
    ensures ok == IsField(line)
    ensures ok ==> forall n :: n in nominated <==> n in before || Nominates(line, n)
  {
    hide IsName, Options, IsConnection;
    var colon := IndexOf(line, ':');
    if colon == 0 || colon == |line| {
      return before, false;
    }
    var valid := CheckName(line[..colon]);
    if !valid {
      return before, false;
    }
    nominated, ok := Nominate(line, before);
  }

  /** Reads every header line before any is written, so that a late Connection line can nominate an
      earlier field. */
  method ReadHeaders(body: string) returns (headers: seq<string>, nominated: set<string>, ok: bool)
    ensures ok == AllFields(HeaderLines(body))
    ensures ok ==> headers == HeaderLines(body) && AreNominated(nominated, headers)
  {
    var remaining := body;
    headers, nominated := [], {};
    ghost var all := HeaderLines(body);
    assert Split([], HeaderLines(remaining), all);
    NoneYet();
    hide HeaderLines, IsField, Nominates, Split, AllFields, AreNominated, FirstLine;
    while |remaining| > 0
      invariant Split(headers, HeaderLines(remaining), all)
      invariant AllFields(headers) && AreNominated(nominated, headers)
      decreases |remaining|
    {
      var line := TakeLine(remaining);
      FirstHeader(remaining);
      if |line| <= 2 {
        break;
      }
      var rest := remaining[|line|..];
      Grow(headers, [line], HeaderLines(rest), all);
      var before := nominated;
      var good;
      nominated, good := ReadField(line, before);
      if !good {
        NotAField(headers, line, HeaderLines(rest), all);
        return [], {}, false;
      }
      OneMore(headers, line, before, nominated);
      headers := headers + [line];
      remaining := rest;
    }
    NoMoreHeaders(remaining);
    Whole(headers, all);
    return headers, nominated, true;
  }

  method TakeLine(remaining: string) returns (line: string)
    requires remaining != ""
    ensures line == FirstLine(remaining)
  {
    hide IndexOf;
    var next := IndexOf(remaining, '\n');
    line := remaining;
    if next < |remaining| {
      line := remaining[..next + 1];
    }
  }

  lemma FirstHeader(s: string)
    requires s != ""
    ensures HeaderLines(s) == if |FirstLine(s)| <= 2 then [] else [FirstLine(s)] + HeaderLines(s[|FirstLine(s)|..])
  {}

  lemma NoMoreHeaders(s: string)
    requires s == "" || |FirstLine(s)| <= 2
    ensures HeaderLines(s) == []
  {}

  lemma NotAField(headers: seq<string>, line: string, rest: seq<string>, all: seq<string>)
    requires Split(headers + [line], rest, all) && !IsField(line)
    ensures !AllFields(all)
  {
    hide IsField;
    assert all[|headers|] == line;
  }

  lemma {:induction false} KeptAppend(lines: seq<string>, line: string, all: seq<string>)
    ensures Kept(lines + [line], all) == Kept(lines, all) + (if Removed(all, line) then [] else [line])
  {
    hide Removed, Kept;
    KeptNone(all);
    KeptFirst(lines + [line], all);
    if lines == [] {
      assert lines + [line] == [line] && [line][1..] == [];
    } else {
      assert (lines + [line])[1..] == lines[1..] + [line] && (lines + [line])[0] == lines[0];
      KeptFirst(lines, all);
      KeptAppend(lines[1..], line, all);
    }
  }

  lemma KeptFirst(lines: seq<string>, all: seq<string>)
    requires lines != []
    ensures Kept(lines, all) == (if Removed(all, lines[0]) then [] else [lines[0]]) + Kept(lines[1..], all)
  {
    hide Removed;
  }

  lemma KeptNone(all: seq<string>)
    ensures Kept([], all) == []
  {}

  method WriteKept(headers: seq<string>, nominated: set<string>) returns (text: string)
    requires AreNominated(nominated, headers)
    ensures text == Concat(Kept(headers, headers))
  {
    hide Nominated, IsHopByHop, FieldName;
    text := "";
    var i := 0;
    assert headers[..0] == [];
    assert Concat(Kept([], headers)) == "";
    while i < |headers|
      invariant 0 <= i <= |headers| && text == Concat(Kept(headers[..i], headers))
    {
      var line := headers[i];
      assert headers[..i + 1] == headers[..i] + [line];
      KeptAppend(headers[..i], line, headers);
      var name := FieldName(line);
      if !IsHopByHop(name) && name !in nominated {
        ConcatAppend(Kept(headers[..i], headers), [line]);
        text := text + line;
      } else {
        assert Kept(headers[..i], headers) + [] == Kept(headers[..i], headers);
      }
      i := i + 1;
    }
    assert headers[..i] == headers;
  }

  method RewriteHead(head: string) returns (text: string, ok: bool)
    ensures ok == Rewritable(head)
    ensures text == if ok then Rewritten(head) else ""
  {
    hide HeaderLines, AllFields, AreNominated, Kept, Concat, StartOfLine;
    var eol := IndexOf(head, '\n');
    if eol == |head| {
      return "", false;
    }
    var start := ReadStart(head[..eol]);
    if start.BadStart? {
      return "", false;
    }
    var headers, nominated, good := ReadHeaders(head[eol + 1..]);
    if !good {
      return "", false;
    }
    var kept := WriteKept(headers, nominated);
    var body := kept + (CLOSE + "\r\n");
    return LineText(start.verb, start.path, start.version + "\r\n" + body), true;
  }

  method ReadStart(line: string) returns (start: Start)
    ensures start == StartOfLine(line)
  {
    hide PathOf, TrimReturn, IndexOf;
    var firstSpace := IndexOf(line, ' ');
    if firstSpace == |line| {
      return BadStart;
    }
    var rest := line[firstSpace + 1..];
    var second := IndexOf(rest, ' ');
    if second == |rest| {
      return BadStart;
    }
    var target := rest[..second];
    if |target| < 7 || target[..7] != "http://" {
      assert |target| >= 7 ==> target[..7] == rest[..7];
      return BadStart;
    }
    assert target[..7] == rest[..7];
    var path := ForwardedPath(target);
    var version := TrimReturn(rest[second + 1..]);
    if |version| < 8 {
      return BadStart;
    }
    TrimReturnKeeps(rest[second + 1..]);
    return Start(line[..firstSpace], path, version[..8]);
  }

  method ForwardedPath(target: string) returns (path: string)
    requires |target| >= 7
    ensures path == PathOf(target)
  {
    hide PathOf;
    var pathStart := 7;
    while pathStart < |target| && target[pathStart] != '/'
      invariant 7 <= pathStart <= |target|
      invariant forall k :: 7 <= k < pathStart ==> target[k] != '/'
    {
      pathStart := pathStart + 1;
    }
    PathStartsAt(target, pathStart);
    path := "/";
    if pathStart < |target| {
      path := target[pathStart..];
    }
  }

  lemma TrimReturnKeeps(s: string)
    requires |TrimReturn(s)| >= 8
    ensures |s| >= 8 && TrimReturn(s)[..8] == s[..8]
  {}

  lemma PathStartsAt(target: string, p: nat)
    requires 7 <= p <= |target| && (p < |target| ==> target[p] == '/')
    requires forall k :: 7 <= k < p ==> target[k] != '/'
    ensures PathOf(target) == if p < |target| then target[p..] else "/"
  {
    var rest := target[7..];
    var i := IndexOf(rest, '/');
    assert forall k :: 0 <= k < |rest| ==> rest[k] == target[k + 7];
    assert p < |target| ==> rest[p - 7] == '/';
    assert i == p - 7;
  }
}

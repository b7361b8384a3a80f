/** What forwarding a rewritten head promises: which header lines reach the other side, that the
    request arrives in origin form, and that the target loses nothing. */
module ProxyLaws {
  import opened Sequences
  import opened Text
  import opened ProxyRequest
  import opened ProxyHead

  // ---------- Exactly the lines that may be forwarded ----------

  /** The kept lines are the lines not removed, verbatim, each once and in order: at gives where
      each of them stands. */
  lemma {:induction false} KeptPositions(lines: seq<string>, all: seq<string>) returns (at: seq<nat>)
    ensures |at| == |Kept(lines, all)|
    ensures forall k :: 0 <= k < |at| ==> at[k] < |lines| && Kept(lines, all)[k] == lines[at[k]] && !Removed(all, lines[at[k]])
    ensures forall j, k :: 0 <= j < k < |at| ==> at[j] < at[k]
    ensures forall j :: 0 <= j < |lines| && !Removed(all, lines[j]) ==> j in at
    decreases |lines|
  {
    hide Removed;
    at := [];
    if lines != [] {
      var n := |lines| - 1;
      var init := lines[..n];
      assert lines == init + [lines[n]];
      KeptAppend(init, lines[n], all);
      at := KeptPositions(init, all);
      if !Removed(all, lines[n]) {
        at := at + [n];
        assert at[|at| - 1] == n;
      }
    }
  }

  // ---------- What a Connection line nominates ----------

  function JoinCommas(parts: seq<string>): string
    requires parts != []
  {
    if |parts| == 1 then parts[0] else parts[0] + "," + JoinCommas(parts[1..])
  }

  /** The options are the comma-free pieces of the value: joining them gives it back. */
  lemma {:induction false} OptionsSplitExactly(s: string)
    ensures SplitCommas(s) != [] && JoinCommas(SplitCommas(s)) == s
    ensures forall k :: 0 <= k < |SplitCommas(s)| ==> ',' !in SplitCommas(s)[k]
    decreases |s|
  {
    hide SplitCommas, IndexOf, JoinCommas;
    var i := IndexOf(s, ',');
    SplitStep(s);
    if i < |s| {
      OptionsSplitExactly(s[i + 1..]);
      JoinFirst(s[..i], SplitCommas(s[i + 1..]));
      assert s == s[..i] + "," + s[i + 1..];
    } else {
      JoinOne(s);
    }
  }

  lemma SplitStep(s: string)
    ensures var i := IndexOf(s, ','); SplitCommas(s) == if i < |s| then [s[..i]] + SplitCommas(s[i + 1..]) else [s]
    ensures ',' !in s[..IndexOf(s, ',')] && (IndexOf(s, ',') == |s| ==> ',' !in s)
  {
    SplitUnfolds(s);
    NoneBefore(s, IndexOf(s, ','), ',');
    hide SplitCommas, IndexOf;
    assert IndexOf(s, ',') == |s| ==> s[..IndexOf(s, ',')] == s;
  }

  lemma SplitUnfolds(s: string)
    ensures var i := IndexOf(s, ','); SplitCommas(s) == if i < |s| then [s[..i]] + SplitCommas(s[i + 1..]) else [s]
  {
    hide IndexOf;
  }

  lemma NoneBefore(s: string, i: nat, c: char)
    requires i <= |s| && forall k :: 0 <= k < i ==> s[k] != c
    ensures c !in s[..i]
  {}

  lemma JoinOne(s: string)
    ensures JoinCommas([s]) == s
  {}

  lemma JoinFirst(part: string, rest: seq<string>)
    requires rest != []
    ensures JoinCommas([part] + rest) == part + "," + JoinCommas(rest)
  {
    assert ([part] + rest)[1..] == rest;
  }

  lemma TrimFirst(s: string)
    requires s != "" && IsSpace(s[0])
    ensures TrimSpace(s) == TrimSpace(s[1..])
  {}

  lemma TrimLast(s: string)
    requires s != "" && !IsSpace(s[0]) && IsSpace(s[|s| - 1])
    ensures TrimSpace(s) == TrimSpace(s[..|s| - 1])
  {}

  /** Trimming drops exactly the white space at both ends. */
  lemma {:induction false} TrimsEnds(s: string) returns (i: nat, j: nat)
    ensures i <= j <= |s| && TrimSpace(s) == s[i..j]
    ensures forall k :: 0 <= k < i || j <= k < |s| ==> IsSpace(s[k])
    ensures i < j ==> !IsSpace(s[i]) && !IsSpace(s[j - 1])
    decreases |s|
  {
    hide IsSpace, TrimSpace;
    i, j := 0, |s|;
    if s != "" && IsSpace(s[0]) {
      TrimFirst(s);
      i, j := TrimsEnds(s[1..]);
      i, j := i + 1, j + 1;
      assert s[1..][i - 1..j - 1] == s[i..j];
      assert forall k :: 1 <= k < |s| ==> s[k] == s[1..][k - 1];
    } else if s != "" && IsSpace(s[|s| - 1]) {
      TrimLast(s);
      i, j := TrimsEnds(s[..|s| - 1]);
      assert forall k :: 0 <= k < |s| - 1 ==> s[k] == s[..|s| - 1][k];
      assert s[..|s| - 1][i..j] == s[i..j];
    } else {
      TrimNone(s);
    }
  }

  lemma TrimNone(s: string)
    requires s != "" ==> !IsSpace(s[0]) && !IsSpace(s[|s| - 1])
    ensures TrimSpace(s) == s == s[0..|s|]
  {}

  // ---------- Splitting the output again ----------

  predicate IsLine(line: string) {
    |line| > 2 && '\n' !in line[..|line| - 1]
  }

  predicate Ended(line: string) {
    line != "" && line[|line| - 1] == '\n'
  }

  /** Lines of which only the last can lack its newline. */
  predicate AreLines(lines: seq<string>) {
    (forall k :: 0 <= k < |lines| ==> IsLine(lines[k])) && (forall k :: 0 <= k < |lines| - 1 ==> Ended(lines[k]))
  }

  lemma FirstLineShape(s: string)
    requires s != "" && |FirstLine(s)| > 2
    ensures IsLine(FirstLine(s)) && (FirstLine(s) != s ==> Ended(FirstLine(s)))
  {}

  lemma {:induction false} HeaderLinesShape(s: string)
    ensures AreLines(HeaderLines(s))
    decreases |s|
  {
    hide IsLine, Ended;
    if s != "" && |FirstLine(s)| > 2 {
      var line := FirstLine(s);
      FirstLineShape(s);
      HeaderLinesShape(s[|line|..]);
      assert line == s ==> s[|line|..] == "";
    }
  }

  lemma KeptShape(lines: seq<string>, all: seq<string>)
    requires AreLines(lines)
    ensures AreLines(Kept(lines, all))
  {
    hide IsLine, Ended, Kept;
    var at := KeptPositions(lines, all);
    forall k | 0 <= k < |at| - 1 ensures Ended(Kept(lines, all)[k]) {
      assert at[k] < at[k + 1];
      assert Kept(lines, all)[k] == lines[at[k]];
    }
  }

  lemma LineBack(line: string, tail: string)
    requires IsLine(line) && Ended(line)
    ensures HeaderLines(line + tail) == [line] + HeaderLines(tail)
  {
    var init := line[..|line| - 1];
    IndexOfFirst(init, '\n', tail);
    assert line == init + ['\n'];
    assert line + tail == init + ['\n'] + tail;
    assert (line + tail)[..|line|] == line && (line + tail)[|line|..] == tail;
  }

  lemma {:induction false} LinesBack(lines: seq<string>, tail: string)
    requires forall k :: 0 <= k < |lines| ==> IsLine(lines[k]) && Ended(lines[k])
    ensures HeaderLines(Concat(lines) + tail) == lines + HeaderLines(tail)
  {
    hide IsLine, Ended, HeaderLines;
    if lines == [] {
      assert Concat(lines) + tail == tail;
    } else {
      LinesBack(lines[1..], tail);
      LineBack(lines[0], Concat(lines[1..]) + tail);
      assert Concat(lines) + tail == lines[0] + (Concat(lines[1..]) + tail);
      assert lines == [lines[0]] + lines[1..];
    }
  }

  lemma CloseBack()
    ensures HeaderLines(CLOSE + "\r\n") == [CLOSE]
  {
    CloseIsALine();
    LineBack(CLOSE, "\r\n");
    assert HeaderLines("\r\n") == [];
  }

  lemma CloseIsALine()
    ensures IsLine(CLOSE) && Ended(CLOSE)
  {
    assert CLOSE[..|CLOSE| - 1] == "Connection: close\r";
  }

  /** An unterminated line swallows the line written after it. */
  lemma Glued(line: string)
    requires IsLine(line) && !Ended(line)
    ensures HeaderLines(line + (CLOSE + "\r\n")) == [line + CLOSE]
  {
    var both := line + CLOSE;
    GluedIsALine(line);
    assert HeaderLines("\r\n") == [];
    hide HeaderLines, IsLine, Ended;
    LineBack(both, "\r\n");
    assert line + (CLOSE + "\r\n") == both + "\r\n";
  }

  lemma GluedIsALine(line: string)
    requires IsLine(line) && !Ended(line)
    ensures IsLine(line + CLOSE) && Ended(line + CLOSE)
  {
    CloseIsALine();
    var both := line + CLOSE;
    var init := line + "Connection: close\r";
    assert line == line[..|line| - 1] + [line[|line| - 1]];
    assert both[..|both| - 1] == init && '\n' !in init;
  }

  /** The lines of a forwarded body: all kept ones and Connection: close when each kept line has its
      newline; otherwise the last kept one has swallowed Connection: close. */
  function Arriving(kept: seq<string>): seq<string> {
    if kept == [] || Ended(kept[|kept| - 1]) then kept + [CLOSE]
    else kept[..|kept| - 1] + [kept[|kept| - 1] + CLOSE]
  }

  lemma BodyArrives(kept: seq<string>)
    requires AreLines(kept)
    ensures HeaderLines(Concat(kept) + (CLOSE + "\r\n")) == Arriving(kept)
  {
    hide IsLine, Ended, HeaderLines;
    CloseBack();
    if kept == [] || Ended(kept[|kept| - 1]) {
      LinesBack(kept, CLOSE + "\r\n");
    } else {
      var n := |kept| - 1;
      assert kept == kept[..n] + [kept[n]];
      LastGlues(kept[..n], kept[n], CLOSE + "\r\n");
      Glued(kept[n]);
    }
  }

  lemma LastGlues(init: seq<string>, last: string, closing: string)
    requires forall k :: 0 <= k < |init| ==> IsLine(init[k]) && Ended(init[k])
    ensures HeaderLines(Concat(init + [last]) + closing) == init + HeaderLines(last + closing)
  {
    hide IsLine, Ended, HeaderLines;
    ConcatAppend(init, [last]);
    ConcatOne(last);
    hide Concat;
    LinesBack(init, last + closing);
    assert Concat(init + [last]) == Concat(init) + last;
    assert Concat(init) + last + closing == Concat(init) + (last + closing);
  }

  // ---------- The first line of the output ----------

  predicate OneLine(start: Start) {
    start.Start? && '\n' !in start.verb && '\n' !in start.path && '\n' !in start.version && |start.version| == 8
  }

  lemma StartPieces(line: string) returns (a: nat, rest: string, b: nat, v: string)
    requires StartOfLine(line).Start?
    ensures a == IndexOf(line, ' ') < |line| && rest == line[a + 1..]
    ensures b == IndexOf(rest, ' ') && 7 <= b < |rest| && rest[..7] == "http://"
    ensures v == rest[b + 1..] && |v| >= 8 && |TrimReturn(v)| >= 8
    ensures StartOfLine(line) == Start(line[..a], PathOf(rest[..b]), v[..8])
  {
    hide IndexOf, PathOf, TrimReturn;
    a := IndexOf(line, ' ');
    rest := line[a + 1..];
    b := IndexOf(rest, ' ');
    v := rest[b + 1..];
    TrimReturnKeeps(v);
  }

  lemma StartIsOneLine(line: string)
    requires StartOfLine(line).Start? && '\n' !in line
    ensures OneLine(StartOfLine(line))
  {
    var a, rest, b, v := StartPieces(line);
    hide StartOfLine, IndexOf, TrimReturn;
    PiecesWithout(line, a, '\n');
    PiecesWithout(rest, b, '\n');
    PathWithout(rest[..b], '\n');
    hide PathOf;
    StartWithout(v, 8, '\n');
  }

  lemma StartWithout(s: string, n: nat, c: char)
    requires c !in s
    ensures n <= |s| ==> c !in s[..n]
  {}

  lemma PiecesWithout(s: string, i: nat, c: char)
    requires i < |s| && c !in s
    ensures c !in s[..i] && c !in s[i + 1..]
  {}

  lemma PathWithout(target: string, c: char)
    requires |target| >= 7 && c !in target && c != '/'
    ensures c !in PathOf(target)
  {
    hide IndexOf;
  }

  lemma BodyOfRewritten(head: string)
    requires StartOf(head).Start?
    ensures Body(Rewritten(head)) == ForwardedBody(HeaderLines(Body(head)))
  {
    hide StartOfLine, HeaderLines, ForwardedBody, OneLine;
    var start := StartOf(head);
    var eol := IndexOf(head, '\n');
    StartIsOneLine(head[..eol]);
    FirstLineEnds(start, ForwardedBody(HeaderLines(Body(head))));
  }

  lemma FirstLineEnds(start: Start, body: string)
    requires OneLine(start)
    ensures Body(LineText(start.verb, start.path, start.version + "\r\n" + body)) == body
  {
    var first := start.verb + " " + start.path + " " + start.version + "\r";
    var text := LineText(start.verb, start.path, start.version + "\r\n" + body);
    assert text == first + ['\n'] + body;
    assert '\n' !in first;
    IndexOfFirst(first, '\n', body);
    assert text[|first| + 1..] == body;
  }

  /** Splitting the rewritten head again gives the kept lines and one Connection: close, exactly
      when the last kept line has its newline. */
  lemma ForwardedLines(head: string)
    requires Rewritable(head)
    ensures HeaderLines(Body(Rewritten(head))) == Arriving(Kept(HeaderLines(Body(head)), HeaderLines(Body(head))))
    ensures HeaderLines(Body(Rewritten(head))) == Kept(HeaderLines(Body(head)), HeaderLines(Body(head))) + [CLOSE] <==> LastEnded(Kept(HeaderLines(Body(head)), HeaderLines(Body(head))))
  {
    hide HeaderLines, Kept, Rewritten, Concat, IsLine, StartOf, Ended, AllFields;
    var lines := HeaderLines(Body(head));
    var kept := Kept(lines, lines);
    BodyOfRewritten(head);
    HeaderLinesShape(Body(head));
    KeptShape(lines, lines);
    BodyArrives(kept);
    assert kept != [] && !Ended(kept[|kept| - 1]) ==> |Arriving(kept)| == |kept|;
  }

  predicate LastEnded(lines: seq<string>) {
    lines == [] || Ended(lines[|lines| - 1])
  }

  lemma GluedName(line: string)
    requires HasName(line)
    ensures FieldName(line + CLOSE) == FieldName(line)
  {
    var i := IndexOf(line, ':');
    assert line == line[..i] + [':'] + line[i + 1..];
    assert line + CLOSE == line[..i] + [':'] + (line[i + 1..] + CLOSE);
    IndexOfFirst(line[..i], ':', line[i + 1..] + CLOSE);
    assert (line + CLOSE)[..i] == line[..i];
  }

  /** No line that reaches the other side bears a hop-by-hop name or one that any Connection line
      of the original nominated, wherever that line stood; but for Connection: close. */
  lemma NeverForwarded(head: string, line: string)
    requires Rewritable(head) && line in HeaderLines(Body(Rewritten(head)))
    ensures line == CLOSE || !Removed(HeaderLines(Body(head)), line)
  {
    hide HeaderLines, Kept, Rewritten, Rewritable, IsField, Nominated, IsHopByHop, Ended, FieldName;
    var lines := HeaderLines(Body(head));
    var kept := Kept(lines, lines);
    ForwardedLines(head);
    var at := KeptPositions(lines, lines);
    assert line in Arriving(kept);
    if line in kept {
      var k :| 0 <= k < |kept| && kept[k] == line;
      assert lines[at[k]] == line;
    } else if line != CLOSE {
      var last := kept[|kept| - 1];
      assert line == last + CLOSE;
      FieldsOf(head, at[|kept| - 1]);
      GluedName(last);
    }
  }

  lemma FieldsOf(head: string, k: nat)
    requires Rewritable(head) && k < |HeaderLines(Body(head))|
    ensures HasName(HeaderLines(Body(head))[k])
  {
    hide HeaderLines, HasName, Options, StartOf;
  }

  // ---------- From absolute form to origin form ----------

  lemma FoundEarly(s: string, e: nat, c: char)
    requires e <= |s| && IndexOf(s[..e], c) < e
    ensures IndexOf(s, c) == IndexOf(s[..e], c)
  {
    var i := IndexOf(s[..e], c);
    assert forall k :: 0 <= k <= i ==> s[..e][k] == s[k];
  }

  lemma SlashAfter(authority: string, path: string)
    requires '/' !in authority && (path == "" || path[0] == '/')
    ensures PathOf("http://" + (authority + path)) == if path == "" then "/" else path
  {
    var target := "http://" + (authority + path);
    assert target[7..] == authority + path;
    if path == "" {
      NoIndex(authority, '/');
      assert authority + path == authority;
    } else {
      assert path == ['/'] + path[1..];
      assert authority + path == authority + ['/'] + path[1..];
      IndexOfFirst(authority, '/', path[1..]);
      assert target[7 + |authority|..] == path;
    }
  }

  /** The first line ends inside the version, as it does in every request of one line. */
  predicate EndsInVersion(m: string, path: string, v: string) {
    '\n' !in m && '\n' !in path && '\n' in v
  }

  lemma VersionEnds(v: string)
    requires IsVersion(v) && '\n' in v
    ensures 8 <= IndexOf(v, '\n') < |v| && |TrimReturn(v[..IndexOf(v, '\n')])| >= 8
  {
    var i := IndexOf(v, '\n');
    if i == |v| { NoNewline(v); }
    assert v[..7] == "HTTP/1.";
    assert forall k :: 0 <= k < 7 ==> v[k] == v[..7][k];
    assert i >= 8;
    assert |v| > 8;
    assert i > 8 || v[..i][7] != '\r';
  }

  lemma NoNewline(v: string)
    requires IndexOf(v, '\n') == |v|
    ensures '\n' !in v
  {}

  lemma AuthorityHasNoSlash(h: string, q: string, port: nat)
    requires IsHost(h) && PortPart(q, port)
    ensures '/' !in h + q && '\n' !in h + q
  {
    HostHasNo(h, '/');
    HostHasNo(h, '\n');
    if q != "" {
      PortHasOnlyDigits(q[1..], '/');
      PortHasOnlyDigits(q[1..], '\n');
      assert q == [':'] + q[1..];
    }
  }

  lemma StartOfAbsolute(head: string, m: string, h: string, q: string, path: string, v: string, port: nat)
    requires AbsoluteLine(head, m, h, q, path, v, port) && EndsInVersion(m, path, v)
    ensures StartOf(head) == Start(m, if path == "" then "/" else path, v[..8])
  {
    hide IndexOf, IsVersion, IsHost, PortPart, PathOf, TrimReturn;
    VersionEnds(v);
    AuthorityHasNoSlash(h, q, port);
    var target := "http://" + (h + (q + path));
    var e := IndexOf(v, '\n');
    var first := LineText(m, target, v[..e]);
    assert h + (q + path) == (h + q) + path;
    SlashAfter(h + q, path);
    TargetHasNoSpace(h, q, path, port);
    assert '\n' !in target;
    FirstLineIs(head, m, target, v);
    StartOfParts(first, m, target, v[..e]);
    assert v[..e][..8] == v[..8];
  }

  lemma FirstLineIs(head: string, m: string, target: string, v: string)
    requires head == LineText(m, target, v) && '\n' !in m && '\n' !in target && IndexOf(v, '\n') < |v|
    ensures IndexOf(head, '\n') < |head| && head[..IndexOf(head, '\n')] == LineText(m, target, v[..IndexOf(v, '\n')])
  {
    hide IndexOf, LineText;
    var e := IndexOf(v, '\n');
    var start, rest := v[..e], v[e + 1..];
    CutWhere(v, e, '\n');
    TextAppend(m, target, start, ['\n'] + rest);
    TextWithout(m, target, start);
    CutAt(head, LineText(m, target, start), rest);
  }

  lemma CutWhere(v: string, e: nat, c: char)
    requires e < |v| && v[e] == c && forall k :: 0 <= k < e ==> v[k] != c
    ensures v == v[..e] + ([c] + v[e + 1..]) && c !in v[..e]
  {
    assert forall k :: 0 <= k < e ==> v[..e][k] == v[k];
  }

  lemma CutAt(s: string, first: string, rest: string)
    requires s == first + (['\n'] + rest) && '\n' !in first
    ensures IndexOf(s, '\n') == |first| < |s| && s[..|first|] == first
  {
    assert s == first + ['\n'] + rest;
    IndexOfFirst(first, '\n', rest);
  }

  lemma TextAppend(m: string, target: string, v: string, tail: string)
    ensures LineText(m, target, v + tail) == LineText(m, target, v) + tail
  {}

  lemma TextWithout(m: string, target: string, v: string)
    requires '\n' !in m && '\n' !in target && '\n' !in v
    ensures '\n' !in LineText(m, target, v)
  {}

  lemma StartOfParts(line: string, m: string, target: string, v: string)
    requires line == LineText(m, target, v) && ' ' !in m && ' ' !in target
    requires |target| >= 7 && target[..7] == "http://" && |TrimReturn(v)| >= 8
    ensures StartOfLine(line) == Start(m, PathOf(target), v[..8])
  {
    hide PathOf, TrimReturn;
    var rest := target + " " + v;
    IndexOfFirst(m, ' ', rest);
    IndexOfFirst(target, ' ', v);
    assert line == m + [' '] + rest;
    assert line[..|m|] == m && line[|m| + 1..] == rest;
    assert rest[..|target|] == target && rest[|target| + 1..] == v;
    assert rest[..7] == target[..7];
    TrimReturnKeeps(v);
  }

  lemma StartEndsInVersion(head: string, m: string, h: string, q: string, path: string, v: string, port: nat)
    requires AbsoluteLine(head, m, h, q, path, v, port) && StartOf(head).Start?
    ensures EndsInVersion(m, path, v)
  {
    hide IndexOf, IsVersion, IsHost, PortPart, PathOf, TrimReturn, StartOfLine;
    var target := "http://" + (h + (q + path));
    TargetHasNoSpace(h, q, path, port);
    SpacesOf(head, m, target, v);
    SpacesInFirstLine(head);
    hide LineText, StartOf;
    BeforeNewline(head, m, target, v);
    assert forall k :: 0 <= k < |path| ==> path[k] == target[7 + |h| + |q| + k];
  }

  /** A readable first line holds both of its spaces. */
  lemma SpacesInFirstLine(head: string)
    requires StartOf(head).Start?
    ensures IndexOf(head, ' ') < |head|
    ensures IndexOf(head, ' ') + 1 + IndexOf(head[IndexOf(head, ' ') + 1..], ' ') < IndexOf(head, '\n') < |head|
  {
    hide IndexOf, StartOf, StartOfLine;
    var eol := IndexOf(head, '\n');
    StartIsInFirstLine(head);
    TwoSpaces(head[..eol]);
    FoundEarly(head, eol, ' ');
    var a := IndexOf(head, ' ') + 1;
    SliceOfSlice(head, a, eol);
    FoundEarly(head[a..], eol - a, ' ');
  }

  lemma StartIsInFirstLine(head: string)
    requires StartOf(head).Start?
    ensures IndexOf(head, '\n') < |head| && StartOfLine(head[..IndexOf(head, '\n')]).Start?
  {
    hide IndexOf, StartOfLine;
  }

  lemma TwoSpaces(line: string)
    requires StartOfLine(line).Start?
    ensures IndexOf(line, ' ') < |line|
    ensures IndexOf(line[IndexOf(line, ' ') + 1..], ' ') < |line| - IndexOf(line, ' ') - 1
  {
    hide PathOf, TrimReturn, IndexOf;
  }

  lemma SliceOfSlice(s: string, a: nat, e: nat)
    requires a <= e <= |s|
    ensures s[..e][a..] == s[a..][..e - a]
  {}

  lemma SpacesOf(head: string, m: string, target: string, v: string)
    requires head == LineText(m, target, v) && ' ' !in m && ' ' !in target
    ensures IndexOf(head, ' ') == |m| && head[|m| + 1..] == target + " " + v
    ensures IndexOf(head[|m| + 1..], ' ') == |target|
  {
    var rest := target + " " + v;
    IndexOfFirst(m, ' ', rest);
    IndexOfFirst(target, ' ', v);
    assert head == m + [' '] + rest;
    assert head[|m| + 1..] == rest && rest == target + [' '] + v;
  }

  lemma BeforeNewline(head: string, m: string, target: string, v: string)
    requires head == LineText(m, target, v) && |m| + 1 + |target| < IndexOf(head, '\n') < |head|
    ensures '\n' !in m && '\n' !in target && '\n' in v
  {
    var eol := IndexOf(head, '\n');
    assert forall k :: 0 <= k < |m| ==> m[k] == head[k];
    assert forall k :: 0 <= k < |target| ==> target[k] == head[|m| + 1 + k];
    assert head[eol] == v[eol - |m| - |target| - 2];
  }

  /** An absolute-form head that is rewritten arrives as an origin-form request, for no host. */
  lemma AbsoluteBecomesOrigin(head: string)
    requires Classify(head).Absolute? && Rewritable(head)
    ensures Classify(Rewritten(head)) == Api
  {
    hide Classify, StartOf, ForwardedBody, AllFields, HeaderLines, IsHost, PortPart;
    var m, h, q, path, v := SplitAbsolute(head);
    var port := Classify(head).port;
    StartEndsInVersion(head, m, h, q, path, v, port);
    StartOfAbsolute(head, m, h, q, path, v, port);
    var body := ForwardedBody(HeaderLines(Body(head)));
    var version := v[..8] + "\r\n" + body;
    ForwardedVersion(v, body);
    hide IsVersion;
    var forwarded := if path == "" then "/" else path;
    assert Parts(Rewritten(head), m, forwarded, version);
    ClassifyParts(Rewritten(head), m, forwarded, version);
  }

  lemma ForwardedVersion(v: string, body: string)
    requires IsVersion(v)
    ensures IsVersion(v[..8] + "\r\n" + body)
  {
    var version := v[..8] + "\r\n" + body;
    assert version[..7] == v[..7] && version[7] == v[7] && version[8] == '\r';
  }

  /** The target of a rewritten head splits without loss into http://, the text of the classified
      host, the text of its port, and the forwarded path; and a head classified as absolute-form
      fails at its first line exactly when that line does not end inside the version. */
  lemma TargetSplits(head: string) returns (m: string, h: string, q: string, path: string, v: string)
    requires Classify(head).Absolute?
    ensures AbsoluteLine(head, m, h, q, path, v, Classify(head).port) && HostOf(h) == Classify(head).host
    ensures StartOf(head).Start? <==> EndsInVersion(m, path, v)
    ensures StartOf(head).Start? ==> StartOf(head) == Start(m, if path == "" then "/" else path, v[..8])
    ensures StartOf(head).Start? ==>
      var forwarded := if path == "" then "/" else path;
      Rewritten(head) == m + " " + (forwarded + " " + (v[..8] + "\r\n" + ForwardedBody(HeaderLines(Body(head)))))
  {
    hide Classify, StartOf, ForwardedBody, HeaderLines, IsHost, PortPart, IsVersion;
    m, h, q, path, v := SplitAbsolute(head);
    var port := Classify(head).port;
    if StartOf(head).Start? {
      StartEndsInVersion(head, m, h, q, path, v, port);
    }
    if EndsInVersion(m, path, v) {
      StartOfAbsolute(head, m, h, q, path, v, port);
    }
  }

  // ---------- Where the promises end ----------

  function SampleTarget(): string {
    "http://" + ("h" + ("" + "/"))
  }

  function SampleHead(version: string): string {
    LineText("GET", SampleTarget(), version)
  }

  /** A version with a newline and one header line behind it that lacks its own. */
  function VersionAndField(): string {
    "HTTP/1.1" + (['\n'] + "A: b")
  }

  lemma SampleVersions()
    ensures IsVersion("HTTP/1.1") && IsVersion(VersionAndField())
    ensures EndsInVersion("GET", "/", VersionAndField())
  {
    var v := VersionAndField();
    assert v[..7] == "HTTP/1." && v[8] == '\n';
  }

  lemma SampleHost()
    ensures IsHost("h") && HostOf("h") == "h" && ':' !in "h"
  {
    PlainHost("h");
    assert Lower("h") == "h";
  }

  lemma SampleIsAbsolute(version: string)
    requires IsVersion(version)
    ensures AbsoluteLine(SampleHead(version), "GET", "h", "", "/", version, DEFAULT_PORT)
  {
    hide IsVersion, IsHost, HostOf, LineText;
    SampleHost();
  }

  lemma SampleClassified(version: string)
    requires IsVersion(version)
    ensures Classify(SampleHead(version)) == Absolute("h", DEFAULT_PORT)
  {
    hide AbsoluteLine, IsVersion, SampleHead, Classify, HostOf, IsHost;
    SampleHost();
    SampleIsAbsolute(version);
    AbsoluteMeans(SampleHead(version), "GET", "h", "", "/", version, DEFAULT_PORT);
  }

  lemma SampleHasNoNewline()
    ensures '\n' !in SampleHead("HTTP/1.1")
  {
    assert '\n' !in SampleTarget();
    hide SampleTarget, LineText;
    TextWithout("GET", SampleTarget(), "HTTP/1.1");
  }

  lemma NoNewlineNoStart(head: string)
    requires '\n' !in head
    ensures StartOf(head) == BadStart
  {
    hide StartOfLine;
    NoIndex(head, '\n');
  }

  /** A head that is all first line, without a newline, is classified and not rewritten. */
  lemma UnendedIsNotRewritten() returns (head: string)
    ensures Classify(head) == Absolute("h", DEFAULT_PORT) && StartOf(head) == BadStart && !Rewritable(head)
  {
    hide SampleHead, StartOf, Classify, AllFields, IsVersion, VersionAndField;
    head := SampleHead("HTTP/1.1");
    SampleVersions();
    SampleClassified("HTTP/1.1");
    SampleHasNoNewline();
    NoNewlineNoStart(head);
  }

  lemma SampleField()
    ensures HeaderLines("A: b") == ["A: b"] && IsField("A: b") && !IsHopByHop(FieldName("A: b"))
    ensures !IsConnection(FieldName("A: b")) && !Ended("A: b")
  {
    var line := "A: b";
    NoIndex(line, '\n');
    assert FirstLine(line) == line && line[|line|..] == "";
    assert line == "A" + [':'] + " b";
    IndexOfFirst("A", ':', " b");
    assert FieldName(line) == "a";
  }

  lemma SampleKept()
    ensures Kept(["A: b"], ["A: b"]) == ["A: b"]
  {
    var lines := ["A: b"];
    SampleField();
    hide HeaderLines, IsField, FieldName, IsHopByHop, IsConnection;
    assert forall n :: !Nominates("A: b", n);
    assert !Removed(lines, lines[0]);
    assert lines[1..] == [];
    assert [lines[0]] + [] == lines;
  }

  lemma SampleBody()
    ensures Body(SampleHead(VersionAndField())) == "A: b"
  {
    var first, head := SampleHead("HTTP/1.1"), SampleHead(VersionAndField());
    TextAppend("GET", SampleTarget(), "HTTP/1.1", ['\n'] + "A: b");
    SampleHasNoNewline();
    assert head == first + (['\n'] + "A: b");
    hide SampleHead, Body;
    BodyAfter(first, "A: b");
  }

  lemma BodyAfter(first: string, body: string)
    requires '\n' !in first
    ensures Body(first + (['\n'] + body)) == body
  {
    hide IndexOf;
    var head := first + (['\n'] + body);
    CutAt(head, first, body);
    assert head[|first| + 1..] == body;
  }

  lemma SampleStart()
    ensures StartOf(SampleHead(VersionAndField())).Start?
  {
    hide SampleHead, IsVersion, AbsoluteLine, StartOf, VersionAndField, EndsInVersion;
    SampleVersions();
    SampleIsAbsolute(VersionAndField());
    StartOfAbsolute(SampleHead(VersionAndField()), "GET", "h", "", "/", VersionAndField(), DEFAULT_PORT);
  }

  /** A last line without its newline is forwarded glued to Connection: close. */
  lemma UnendedLineIsGlued() returns (head: string)
    ensures Classify(head) == Absolute("h", DEFAULT_PORT) && Rewritable(head)
    ensures HeaderLines(Body(head)) == ["A: b"]
    ensures HeaderLines(Body(Rewritten(head))) == ["A: b" + CLOSE]
  {
    hide SampleHead, IsVersion, VersionAndField, EndsInVersion, HeaderLines, IsField, StartOf, Body, Rewritten, Kept, Classify,
      FieldName, IsHopByHop, IsConnection, Ended;
    head := SampleHead(VersionAndField());
    SampleVersions();
    SampleClassified(VersionAndField());
    SampleStart();
    SampleBody();
    SampleField();
    SampleKept();
    assert AllFields(["A: b"]);
    ForwardedLines(head);
    assert ["A: b"][..0] + ["A: b" + CLOSE] == ["A: b" + CLOSE];
  }
}

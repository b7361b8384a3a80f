/** Which header fields reach the other side, told from the characters of a head alone: a field is a
    name, a colon and a value, and only its name decides. */
module ProxyFields {
  import opened Sequences
  import opened Text
  import opened ProxyRequest
  import opened ProxyHead
  import opened ProxyLaws

  // ---------- Fields and options in characters ----------

  /** The text in lower case, for ASCII text. */
  predicate Folds(text: string, lower: string) {
    |text| == |lower| && forall k :: 0 <= k < |text| ==>
      lower[k] as int == if 65 <= text[k] as int <= 90 then text[k] as int + 32 else text[k] as int
  }

  /** A field name: not empty, and without blanks and control characters. */
  predicate NameText(name: string) {
    name != "" && forall k :: 0 <= k < |name| ==> name[k] as int > 32 && name[k] as int != 127
  }

  predicate Blank(s: string) {
    forall k :: 0 <= k < |s| ==> s[k] as int == 32 || 9 <= s[k] as int <= 13
  }

  predicate LineEnds(s: string) {
    forall k :: 0 <= k < |s| ==> s[k] == '\r' || s[k] == '\n'
  }

  /** No blank stands at either end. */
  predicate Bare(s: string) {
    s == "" || (!Blank([s[0]]) && !Blank([s[|s| - 1]]))
  }

  predicate Named(line: string, name: string, value: string) {
    line == name + (":" + value) && ':' !in name && NameText(name)
  }

  /** The line is a field of this name, in whatever letter case. */
  ghost predicate Bears(line: string, lower: string) {
    exists name, value :: Named(line, name, value) && Folds(name, lower)
  }

  ghost predicate IsConnectionField(line: string) {
    Bears(line, "connection") || Bears(line, "proxy-connection")
  }

  /** The parts are the comma-separated list of the value, the line's end apart. */
  predicate Lists(line: string, name: string, value: string, ending: string, parts: seq<string>) {
    && Named(line, name, value + ending) && LineEnds(ending) && (value == "" || !LineEnds([value[|value| - 1]]))
    && parts != [] && JoinCommas(parts) == value && forall k :: 0 <= k < |parts| ==> ',' !in parts[k]
  }

  predicate Trims(part: string, left: string, core: string, right: string) {
    part == left + (core + right) && Blank(left) && Blank(right) && Bare(core)
  }

  /** Among the options that a Connection or Proxy-Connection line lists, one is this name. */
  ghost predicate HasOption(line: string, lower: string) {
    IsConnectionField(line) && exists name, value, ending, parts, k, left, core, right ::
      Lists(line, name, value, ending, parts) && 0 <= k < |parts| && Trims(parts[k], left, core, right) && Folds(core, lower)
  }

  predicate IsHop(lower: string) {
    lower == "connection" || lower == "proxy-connection" || lower == "keep-alive" || lower == "transfer-encoding" ||
    lower == "te" || lower == "trailer" || lower == "upgrade" || lower == "authorization" ||
    lower == "proxy-authorization" || lower == "cookie"
  }

  /** A field of this name may not be forwarded: it is hop-by-hop, a credential, or nominated. */
  ghost predicate Withheld(lines: seq<string>, lower: string) {
    IsHop(lower) || exists k :: 0 <= k < |lines| && HasOption(lines[k], lower)
  }

  // ---------- The scanning functions find just these ----------

  lemma {:induction false} FoldsIff(text: string, lower: string)
    ensures Folds(text, lower) <==> lower == Lower(text)
  {
    if Folds(text, lower) {
      var l := Lower(text);
      assert forall k :: 0 <= k < |text| ==> l[k] == LowerChar(text[k]);
    }
  }

  lemma NameTextIff(name: string)
    ensures IsName(name) <==> NameText(name)
  {}

  lemma SpaceIff(c: char)
    ensures IsSpace(c) <==> Blank([c])
  {
    assert [c][0] == c;
  }

  lemma NamedIs(line: string, name: string, value: string)
    requires Named(line, name, value)
    ensures IndexOf(line, ':') == |name| && HasName(line) && line[..|name|] == name && line[|name| + 1..] == value
    ensures FieldName(line) == Lower(name)
  {
    hide IndexOf, IsName;
    IndexOfFirst(name, ':', value);
    NameTextIff(name);
    assert name != "";
    hide NameText;
    assert line == name + [':'] + value;
    assert line[..|name|] == name && line[|name| + 1..] == value;
  }

  lemma NameStands(line: string) returns (name: string, value: string)
    requires HasName(line)
    ensures Named(line, name, value) && name == line[..IndexOf(line, ':')] && value == line[IndexOf(line, ':') + 1..]
  {
    var i := IndexOf(line, ':');
    name, value := line[..i], line[i + 1..];
    NameTextIff(name);
    hide NameText, IsName;
    assert line == name + (":" + value);
  }

  /** A line has a name just if it is a field, and bears it. */
  lemma BearsIff(line: string, lower: string)
    ensures Bears(line, lower) <==> HasName(line) && FieldName(line) == lower
  {
    if HasName(line) {
      var name, value := NameStands(line);
      NamedIs(line, name, value);
      FoldsIff(name, lower);
      hide HasName, Named, Folds;
    }
    if name, value :| Named(line, name, value) && Folds(name, lower) {
      NamedIs(line, name, value);
      FoldsIff(name, lower);
    }
  }

  lemma {:induction false} TrimLineEndIs(value: string, ending: string)
    requires LineEnds(ending) && (value == "" || !LineEnds([value[|value| - 1]]))
    ensures TrimLineEnd(value + ending) == value
    decreases |ending|
  {
    var s := value + ending;
    if ending == "" {
      assert s == value;
      if value != "" { assert [value[|value| - 1]][0] == value[|value| - 1]; }
    } else {
      assert s[|s| - 1] == ending[|ending| - 1];
      assert s[..|s| - 1] == value + ending[..|ending| - 1];
      TrimLineEndIs(value, ending[..|ending| - 1]);
    }
  }

  lemma {:induction false} LineEndTrimmed(s: string) returns (ending: string)
    ensures s == TrimLineEnd(s) + ending && LineEnds(ending)
    ensures TrimLineEnd(s) == "" || !LineEnds([TrimLineEnd(s)[|TrimLineEnd(s)| - 1]])
    decreases |s|
  {
    ending := "";
    if s != "" && (s[|s| - 1] == '\r' || s[|s| - 1] == '\n') {
      var e := LineEndTrimmed(s[..|s| - 1]);
      ending := e + [s[|s| - 1]];
      assert s == s[..|s| - 1] + [s[|s| - 1]];
    } else if s != "" {
      assert [s[|s| - 1]][0] == s[|s| - 1];
    }
  }

  lemma {:induction false} SplitOfJoin(parts: seq<string>)
    requires parts != [] && forall k :: 0 <= k < |parts| ==> ',' !in parts[k]
    ensures SplitCommas(JoinCommas(parts)) == parts
  {
    hide SplitCommas, IndexOf;
    if |parts| == 1 {
      SplitOne(parts[0]);
      assert parts == [parts[0]];
    } else {
      SplitOfJoin(parts[1..]);
      SplitFirst(parts[0], JoinCommas(parts[1..]));
      assert parts == [parts[0]] + parts[1..];
    }
  }

  lemma SplitOne(part: string)
    requires ',' !in part
    ensures SplitCommas(part) == [part]
  {
    NoIndex(part, ',');
  }

  lemma SplitFirst(part: string, rest: string)
    requires ',' !in part
    ensures SplitCommas(part + "," + rest) == [part] + SplitCommas(rest)
  {
    var s := part + [','] + rest;
    IndexOfFirst(part, ',', rest);
    assert s == part + "," + rest && s[..|part|] == part && s[|part| + 1..] == rest;
    hide IndexOf;
  }

  lemma BareStays(s: string)
    requires Bare(s)
    ensures TrimSpace(s) == s
  {
    if s != "" {
      SpaceIff(s[0]);
      SpaceIff(s[|s| - 1]);
    }
  }

  lemma BlankInside(s: string, k: nat)
    requires k < |s| && Blank(s)
    ensures IsSpace(s[k])
  {}

  lemma {:induction false} TrimRight(core: string, right: string)
    requires Blank(right) && Bare(core)
    ensures TrimSpace(core + right) == core
    decreases |right|
  {
    hide TrimSpace, IsSpace;
    var s := core + right;
    if right == "" {
      assert s == core;
      BareStays(core);
    } else if core == "" {
      assert s == right;
      BlankInside(right, 0);
      TrimFirst(s);
      assert s[1..] == "" + right[1..];
      TrimRight("", right[1..]);
    } else {
      SpaceIff(core[0]);
      BlankInside(right, |right| - 1);
      assert s[0] == core[0] && s[|s| - 1] == right[|right| - 1];
      TrimLast(s);
      assert s[..|s| - 1] == core + right[..|right| - 1];
      TrimRight(core, right[..|right| - 1]);
    }
  }

  lemma {:induction false} TrimSpaceIs(left: string, core: string, right: string)
    requires Blank(left) && Blank(right) && Bare(core)
    ensures TrimSpace(left + (core + right)) == core
    decreases |left|
  {
    hide TrimSpace, IsSpace, Bare;
    var s := left + (core + right);
    if left == "" {
      assert s == core + right;
      TrimRight(core, right);
    } else {
      BlankInside(left, 0);
      assert s[0] == left[0] && s[1..] == left[1..] + (core + right);
      TrimFirst(s);
      TrimSpaceIs(left[1..], core, right);
    }
  }

  lemma SpaceTrimmed(s: string) returns (left: string, right: string)
    ensures Trims(s, left, TrimSpace(s), right)
  {
    hide IsSpace, Blank, Bare, TrimSpace;
    var i, j := TrimsEnds(s);
    left, right := s[..i], s[j..];
    assert s == left + (s[i..j] + right);
    SpacesAreBlank(left);
    SpacesAreBlank(right);
    EndsAreBare(s[i..j]);
  }

  lemma SpacesAreBlank(s: string)
    requires forall k :: 0 <= k < |s| ==> IsSpace(s[k])
    ensures Blank(s)
  {
    hide IsSpace;
    forall k | 0 <= k < |s| ensures s[k] as int == 32 || 9 <= s[k] as int <= 13 { SpaceIff(s[k]); assert [s[k]][0] == s[k]; }
  }

  lemma EndsAreBare(s: string)
    requires s != "" ==> !IsSpace(s[0]) && !IsSpace(s[|s| - 1])
    ensures Bare(s)
  {
    hide IsSpace, Blank;
    if s != "" {
      SpaceIff(s[0]);
      SpaceIff(s[|s| - 1]);
    }
  }

  lemma ConnectionIff(line: string)
    ensures IsConnectionField(line) <==> HasName(line) && IsConnection(FieldName(line))
  {
    hide Bears, HasName, FieldName;
    BearsIff(line, "connection");
    BearsIff(line, "proxy-connection");
  }

  /** The options a line lists are the options that are read off it. */
  lemma ListsIs(line: string, name: string, value: string, ending: string, parts: seq<string>)
    requires Lists(line, name, value, ending, parts)
    ensures HasName(line) && SplitCommas(TrimLineEnd(line[IndexOf(line, ':') + 1..])) == parts
  {
    NamedIs(line, name, value + ending);
    TrimLineEndIs(value, ending);
    SplitOfJoin(parts);
  }

  lemma ListStands(line: string) returns (name: string, value: string, ending: string)
    requires HasName(line)
    ensures Lists(line, name, value, ending, SplitCommas(TrimLineEnd(line[IndexOf(line, ':') + 1..])))
  {
    var rest;
    name, rest := NameStands(line);
    value := TrimLineEnd(rest);
    ending := LineEndTrimmed(rest);
    OptionsSplitExactly(value);
  }

  lemma OptionIff(line: string, lower: string)
    ensures HasOption(line, lower) <==> Nominates(line, lower)
  {
    hide HasOption, Nominates;
    if HasOption(line, lower) { OptionNominates(line, lower); }
    if Nominates(line, lower) { NominationStands(line, lower); }
  }

  lemma OptionNominates(line: string, lower: string)
    requires HasOption(line, lower)
    ensures Nominates(line, lower)
  {
    hide Lists, Trims, Folds, TrimSpace, SplitCommas, TrimLineEnd, IsConnectionField, FieldName, HasName, IsConnection, IndexOf;
    ConnectionIff(line);
    var name, value, ending, parts, k, left, core, right :|
      Lists(line, name, value, ending, parts) && 0 <= k < |parts| && Trims(parts[k], left, core, right) && Folds(core, lower);
    ListsIs(line, name, value, ending, parts);
    PartTrims(parts[k], left, core, right);
    FoldsIff(core, lower);
    assert Options(line)[k] == parts[k];
  }

  lemma PartTrims(part: string, left: string, core: string, right: string)
    requires Trims(part, left, core, right)
    ensures TrimSpace(part) == core
  {
    TrimSpaceIs(left, core, right);
  }

  lemma NominationStands(line: string, lower: string)
    requires Nominates(line, lower)
    ensures HasOption(line, lower)
  {
    hide Lists, Trims, Folds, TrimSpace, SplitCommas, TrimLineEnd, Lower, IsConnectionField, HasName, FieldName;
    ConnectionIff(line);
    var k :| 0 <= k < |Options(line)| && lower == Lower(TrimSpace(Options(line)[k]));
    var name, value, ending := ListStands(line);
    var left, right := SpaceTrimmed(Options(line)[k]);
    FoldsIff(TrimSpace(Options(line)[k]), lower);
  }

  lemma WithheldIff(lines: seq<string>, line: string)
    requires HasName(line)
    ensures Withheld(lines, FieldName(line)) <==> Removed(lines, line)
  {
    hide HasName, FieldName, HasOption, Nominates;
    var lower := FieldName(line);
    forall k | 0 <= k < |lines| ensures HasOption(lines[k], lower) <==> Nominates(lines[k], lower) {
      OptionIff(lines[k], lower);
    }
  }

  // ---------- Exactly the fields that may be forwarded ----------

  /** No line arrives that bears a withheld name, but for Connection: close. */
  lemma NothingWithheldArrives(head: string, line: string, lower: string)
    requires Rewritable(head) && line in HeaderLines(Body(Rewritten(head))) && Bears(line, lower)
    ensures line == "Connection: close\r\n" || !Withheld(HeaderLines(Body(head)), lower)
  {
    hide HeaderLines, Rewritten, Rewritable, Body, Withheld, Bears, HasName, FieldName, Removed;
    NeverForwarded(head, line);
    BearsIff(line, lower);
    WithheldIff(HeaderLines(Body(head)), line);
  }

  /** Every line whose name is not withheld arrives as it stood; only one without its newline, which
      is then the last, arrives with Connection: close behind it on the same line. */
  lemma EverythingElseArrives(head: string, line: string, lower: string)
    requires Rewritable(head) && line in HeaderLines(Body(head)) && Bears(line, lower)
    requires !Withheld(HeaderLines(Body(head)), lower)
    ensures var arriving := HeaderLines(Body(Rewritten(head)));
      if Ended(line) then line in arriving else line + "Connection: close\r\n" in arriving
  {
    hide HeaderLines, Rewritten, Rewritable, Body, Withheld, Bears, HasName, FieldName, Removed, Kept, Ended, IsLine;
    var lines := HeaderLines(Body(head));
    BearsIff(line, lower);
    WithheldIff(lines, line);
    ForwardedLines(head);
    var at := KeptPositions(lines, lines);
    var j :| 0 <= j < |lines| && lines[j] == line;
    assert j in at;
    var k :| 0 <= k < |at| && at[k] == j;
    var kept := Kept(lines, lines);
    HeaderLinesShape(Body(head));
    KeptShape(lines, lines);
    KeptArrives(kept, k);
  }

  lemma KeptArrives(kept: seq<string>, k: nat)
    requires AreLines(kept) && k < |kept|
    ensures if Ended(kept[k]) then kept[k] in Arriving(kept) else kept[k] + "Connection: close\r\n" in Arriving(kept)
  {
    hide Ended, IsLine;
    var n := |kept| - 1;
    if LastEnded(kept) {
      assert (kept + [CLOSE])[k] == kept[k];
    } else {
      var all := Arriving(kept);
      assert all[n] == kept[n] + CLOSE;
      if k < n { assert all[k] == kept[k]; }
    }
  }

  /** Every line of a rewritable head is a field, and so is every option it lists a name; of any other
      head whose first line is readable, some line is not. */
  lemma FieldIff(line: string)
    ensures IsField(line) <==> (exists lower :: Bears(line, lower)) && forall lower :: HasOption(line, lower) ==> NameText(lower)
  {
    BearsIff(line, FieldName(line));
    forall lower ensures HasOption(line, lower) <==> Nominates(line, lower) { OptionIff(line, lower); }
    forall lower | Bears(line, lower) ensures HasName(line) { BearsIff(line, lower); }
    hide Bears, HasOption, HasName, FieldName;
    if HasName(line) {
      OptionNames(line);
      assert (forall lower :: Nominates(line, lower) ==> NameText(lower)) <==> AllNames(Options(line));
    }
  }

  lemma OptionNames(line: string)
    requires HasName(line)
    ensures (forall lower :: Nominates(line, lower) ==> NameText(lower)) <==> AllNames(Options(line))
  {
    hide HasName, FieldName, TrimSpace, SplitCommas, NameText, IsName;
    var options := Options(line);
    forall k | 0 <= k < |options| ensures Nominates(line, Lower(TrimSpace(options[k]))) {}
    forall k | 0 <= k < |options| ensures NameText(Lower(TrimSpace(options[k]))) <==> IsName(TrimSpace(options[k])) {
      LowerName(TrimSpace(options[k]));
    }
    hide Options, Lower;
  }

  lemma LowerName(name: string)
    ensures NameText(Lower(name)) <==> IsName(name)
  {
    var l := Lower(name);
    if NameText(l) {
      forall k | 0 <= k < |name| ensures name[k] > ' ' && name[k] != 127 as char { assert l[k] == LowerChar(name[k]); }
    }
  }

  // ---------- Lines ----------

  /** A body is its header lines, one after another, up to a line of at most two bytes or the end. */
  lemma {:induction false} LinesExact(s: string) returns (rest: string)
    ensures s == Concat(HeaderLines(s)) + rest && AreLines(HeaderLines(s))
    ensures rest != "" ==> |rest| <= 2 || rest[0] == '\n' || rest[1] == '\n'
    decreases |s|
  {
    hide IsLine, Ended, HeaderLines, FirstLine, Concat;
    HeaderLinesShape(s);
    rest := s;
    if s != "" {
      FirstHeader(s);
      var line := FirstLine(s);
      if |line| > 2 {
        rest := LinesExact(s[|line|..]);
        ConcatCons(line, HeaderLines(s[|line|..]));
        assert s == line + s[|line|..];
        assert line + (Concat(HeaderLines(s[|line|..])) + rest) == line + Concat(HeaderLines(s[|line|..])) + rest;
      } else {
        ShortLine(s);
      }
    }
    if s == "" { NoMoreHeaders(s); }
    ConcatNone();
  }

  lemma ConcatCons(line: string, lines: seq<string>)
    ensures Concat([line] + lines) == line + Concat(lines)
  {
    assert ([line] + lines)[1..] == lines;
  }

  lemma ConcatNone()
    ensures Concat<char>([]) == [] && forall s: string :: [] + s == s
  {}

  lemma ShortLine(s: string)
    requires s != "" && |FirstLine(s)| <= 2
    ensures |s| <= 2 || s[0] == '\n' || s[1] == '\n'
  {}

  // ---------- The first line ----------

  /** Without line ends and blanks. */
  predicate Solid(s: string) { '\n' !in s && ' ' !in s }

  /** A head in its parts: method, authority, path, version with what follows it on the line, and
      the header lines. */
  predicate Splits(head: string, m: string, authority: string, path: string, v: string, body: string) {
    && head == m + " " + (("http://" + (authority + path)) + " " + (v + ("\n" + body)))
    && Solid(m) && Solid(authority) && Solid(path) && '\n' !in v
    && '/' !in authority && (path == "" || path[0] == '/')
    && (|v| > 8 || (|v| == 8 && v[7] != '\r'))
  }

  /** The first line of a head can be rewritten just if it has these parts, and then they are what is
      forwarded: the method, the path or a slash for none, and eight bytes of the version. */
  lemma StartIs(head: string, m: string, authority: string, path: string, v: string, body: string)
    requires Splits(head, m, authority, path, v, body)
    ensures StartOf(head) == Start(m, if path == "" then "/" else path, v[..8]) && Body(head) == body
    ensures Rewritten(head) ==
      m + " " + ((if path == "" then "/" else path) + " " + (v[..8] + "\r\n" + ForwardedBody(HeaderLines(body))))
  {
    hide IndexOf, PathOf, HeaderLines, ForwardedBody, StartOfLine, LineText, TrimReturn;
    var target, to := "http://" + (authority + path), if path == "" then "/" else path;
    TargetIsSolid(authority, path);
    VersionRuns(v);
    SlashAfter(authority, path);
    FirstLineStands(head, m, target, v, body);
    StartOfParts(LineText(m, target, v), m, target, v);
    hide Solid;
    TextIs(m, to, v[..8] + "\r\n" + ForwardedBody(HeaderLines(body)));
  }

  lemma FirstLineStands(head: string, m: string, target: string, v: string, body: string)
    requires head == m + " " + (target + " " + (v + ("\n" + body))) && '\n' !in m && '\n' !in target && '\n' !in v
    ensures IndexOf(head, '\n') == |LineText(m, target, v)| < |head| && head[..IndexOf(head, '\n')] == LineText(m, target, v)
    ensures head[|LineText(m, target, v)| + 1..] == body
  {
    hide IndexOf;
    TextAppend(m, target, v, ['\n'] + body);
    TextWithout(m, target, v);
    TextIs(m, target, v + (['\n'] + body));
    hide LineText;
    CutAt(head, LineText(m, target, v), body);
  }

  lemma TextIs(m: string, target: string, v: string)
    ensures LineText(m, target, v) == m + " " + (target + " " + v)
  {}

  lemma TargetIsSolid(authority: string, path: string)
    requires Solid(authority) && Solid(path)
    ensures var target := "http://" + (authority + path); Solid(target) && |target| >= 7 && target[..7] == "http://"
  {}

  /** Cut where a character first stands. */
  lemma CutFirst(s: string, c: char) returns (left: string, right: string)
    requires IndexOf(s, c) < |s|
    ensures s == left + ([c] + right) && c !in left
    ensures left == s[..IndexOf(s, c)] && right == s[IndexOf(s, c) + 1..]
  {
    var i := IndexOf(s, c);
    left, right := s[..i], s[i + 1..];
    assert forall k :: 0 <= k < i ==> left[k] == s[k];
  }

  lemma TargetCut(target: string) returns (authority: string, path: string)
    requires |target| >= 7 && target[..7] == "http://"
    ensures target == "http://" + (authority + path) && '/' !in authority && (path == "" || path[0] == '/')
  {
    var after := target[7..];
    var p := IndexOf(after, '/');
    authority, path := after[..p], after[p..];
    assert after == authority + path;
    assert forall k :: 0 <= k < p ==> authority[k] == after[k];
  }

  lemma StartSplits(head: string) returns (m: string, authority: string, path: string, v: string, body: string)
    requires StartOf(head).Start?
    ensures Splits(head, m, authority, path, v, body)
  {
    hide IndexOf, StartOf, StartOfLine, Splits, Solid;
    StartReads(head);
    var line, after;
    line, body := CutFirst(head, '\n');
    var a, rest, b, version := StartPieces(line);
    VersionRuns(version);
    hide TrimReturn, PathOf;
    m, after := CutFirst(line, ' ');
    var target;
    target, v := CutFirst(rest, ' ');
    FirstSeven(rest, b);
    authority, path := TargetCut(target);
    PartsAreSolid(line, m, target, v, authority, path);
    HeadTogether(head, m, authority, path, v, body);
    PartsSplit(head, m, authority, path, v, body);
  }

  lemma PartsSplit(head: string, m: string, authority: string, path: string, v: string, body: string)
    requires head == m + " " + (("http://" + (authority + path)) + " " + (v + ("\n" + body)))
    requires Solid(m) && Solid(authority) && Solid(path) && '\n' !in v
    requires '/' !in authority && (path == "" || path[0] == '/') && (|v| > 8 || (|v| == 8 && v[7] != '\r'))
    ensures Splits(head, m, authority, path, v, body)
  {
    hide Solid;
  }

  lemma StartReads(head: string)
    requires StartOf(head).Start?
    ensures IndexOf(head, '\n') < |head| && StartOfLine(head[..IndexOf(head, '\n')]).Start?
  {
    hide IndexOf, StartOfLine;
  }

  lemma FirstSeven(s: string, b: nat)
    requires 7 <= b <= |s|
    ensures s[..b][..7] == s[..7]
  {}

  lemma VersionRuns(v: string)
    ensures |TrimReturn(v)| >= 8 <==> |v| > 8 || (|v| == 8 && v[7] != '\r')
  {}

  lemma PartsAreSolid(line: string, m: string, target: string, v: string, authority: string, path: string)
    requires line == m + ([' '] + (target + ([' '] + v))) && '\n' !in line && ' ' !in m && ' ' !in target
    requires target == "http://" + (authority + path)
    ensures Solid(m) && Solid(authority) && Solid(path) && '\n' !in v
  {
    assert forall c :: c in target ==> c in line;
    assert forall c :: c in authority || c in path ==> c in target;
  }

  lemma HeadTogether(head: string, m: string, authority: string, path: string, v: string, body: string)
    requires head == m + ([' '] + (("http://" + (authority + path)) + ([' '] + v))) + (['\n'] + body)
    ensures head == m + " " + (("http://" + (authority + path)) + " " + (v + ("\n" + body)))
  {
    var target := "http://" + (authority + path);
    assert m + ([' '] + (target + ([' '] + v))) + (['\n'] + body) == m + " " + (target + " " + (v + ("\n" + body)));
  }

  lemma StartIff(head: string)
    ensures StartOf(head).Start? <==> exists m, authority, path, v, body :: Splits(head, m, authority, path, v, body)
  {
    hide StartOf, Splits;
    if StartOf(head).Start? {
      var m, authority, path, v, body := StartSplits(head);
    }
    if m, authority, path, v, body :| Splits(head, m, authority, path, v, body) {
      StartIs(head, m, authority, path, v, body);
    }
  }
}

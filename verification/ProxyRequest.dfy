/** Classifying the request line a client sends to the package proxy: authority-form, absolute-form
    or origin-form targets (sections 3.2.1 to 3.2.3 of RFC 9112). Text is ASCII. */
module ProxyRequest {
  import opened Text

  const HOST_MAX := 256
  const DEFAULT_PORT := 80

  datatype Request = Invalid | Api | Connect(host: string, port: nat) | Absolute(host: string, port: nat)

  // ---------- Hosts ----------

  predicate IsHostStop(c: char) {
    c == '/' || c == ' ' || c == '\r' || c == '\n' || c == '@' || c == '\0'
  }

  predicate IsBracket(c: char) { c == '[' || c == ']' }

  function Unbracket(s: string, bracketed: bool): string {
    if s == "" then ""
    else (if bracketed && IsBracket(s[0]) then "" else [LowerChar(s[0])]) + Unbracket(s[1..], bracketed)
  }

  /** The host a host text stands for: lower case, and without brackets when it starts with one. */
  function HostOf(text: string): string {
    Unbracket(text, text != "" && text[0] == '[')
  }

  predicate IsHost(text: string) {
    0 < |text| < HOST_MAX && (forall k :: 0 <= k < |text| ==> !IsHostStop(text[k])) && HostOf(text) != ""
  }

  lemma {:induction false} UnbracketAppend(s: string, c: char, bracketed: bool)
    ensures Unbracket(s + [c], bracketed) == Unbracket(s, bracketed) + (if bracketed && IsBracket(c) then "" else [LowerChar(c)])
  {
    if s == "" {
      assert s + [c] == [c];
    } else {
      assert (s + [c])[1..] == s[1..] + [c];
      UnbracketAppend(s[1..], c, bracketed);
    }
  }

  lemma {:induction false} PlainHost(s: string)
    ensures Unbracket(s, false) == Lower(s)
  {
    if s != "" { PlainHost(s[1..]); }
  }

  /** A host text: 1 to 255 bytes, none of them a slash, a blank, an at sign, a line end or a NUL, and
      not brackets alone. */
  lemma {:induction false} HostIff(text: string)
    ensures IsHost(text) <==> (
      && 1 <= |text| <= 255
      && (forall k :: 0 <= k < |text| ==> text[k] as int !in {0, 10, 13, 32, 47, 64})
      && exists k :: 0 <= k < |text| && (text[0] == '[' ==> text[k] != '[' && text[k] != ']'))
  {
    if text != "" {
      assert forall c :: IsHostStop(c) <==> c as int in {0, 10, 13, 32, 47, 64};
      Unbracketed(text, text[0] == '[');
    }
  }

  lemma {:induction false} Unbracketed(s: string, bracketed: bool)
    ensures Unbracket(s, bracketed) != "" <==> exists k :: 0 <= k < |s| && !(bracketed && IsBracket(s[k]))
  {
    if s != "" {
      Unbracketed(s[1..], bracketed);
      assert forall k :: 1 <= k < |s| ==> s[k] == s[1..][k - 1];
    }
  }

  lemma {:induction false} UnbracketConcat(a: string, b: string)
    requires forall k :: 0 <= k < |a| ==> !IsBracket(a[k])
    ensures Unbracket(a + b, true) == Lower(a) + Unbracket(b, true)
  {
    if a == "" {
      assert a + b == b;
    } else {
      assert (a + b)[0] == a[0] && (a + b)[1..] == a[1..] + b;
      UnbracketConcat(a[1..], b);
    }
  }

  /** A host in brackets stands for what is between them, any other for itself, in lower case. */
  lemma HostIs(text: string)
    ensures text == "" || text[0] != '[' ==> HostOf(text) == Lower(text)
    ensures (forall k :: 0 <= k < |text| ==> text[k] != '[' && text[k] != ']') ==>
      HostOf("[" + text) == Lower(text) && HostOf("[" + (text + "]")) == Lower(text)
  {
    PlainHost(text);
    if forall k :: 0 <= k < |text| ==> text[k] != '[' && text[k] != ']' {
      UnbracketConcat(text, "");
      assert text + "" == text && Unbracket("", true) == "" && Lower(text) + "" == Lower(text);
      UnbracketConcat(text, "]");
      assert Unbracket("]", true) == "";
      hide Unbracket;
      BehindBracket(text);
      BehindBracket(text + "]");
    }
  }

  lemma BehindBracket(text: string)
    ensures HostOf("[" + text) == Unbracket(text, true)
  {
    assert ("[" + text)[0] == '[' && ("[" + text)[1..] == text;
    assert "" + Unbracket(text, true) == Unbracket(text, true);
  }

  /** Brackets inside a text that starts with one are dropped as well, wherever they stand. */
  lemma BracketsAreDropped(left: string, right: string)
    requires left != "" && left[0] == '['
    ensures HostOf(left + ("[" + right)) == HostOf(left) + HostOf("[" + right)
    ensures HostOf(left + ("]" + right)) == HostOf(left) + HostOf("[" + right)
  {
    UnbracketTogether(left, "[" + right);
    UnbracketTogether(left, "]" + right);
    assert ("[" + right)[1..] == right && ("]" + right)[1..] == right;
    assert Unbracket("[" + right, true) == "" + Unbracket(right, true) && Unbracket("]" + right, true) == "" + Unbracket(right, true);
  }

  lemma {:induction false} UnbracketTogether(a: string, b: string)
    ensures Unbracket(a + b, true) == Unbracket(a, true) + Unbracket(b, true)
  {
    if a == "" {
      assert a + b == b;
    } else {
      assert (a + b)[0] == a[0] && (a + b)[1..] == a[1..] + b;
      UnbracketTogether(a[1..], b);
    }
  }

  method CopyHost(value: string) returns (host: string, ok: bool)
    ensures ok == IsHost(value)
    ensures host == if ok then HostOf(value) else ""
  {
    if |value| == 0 || |value| >= HOST_MAX {
      return "", false;
    }
    var bracketed := value[0] == '[';
    var result := "";
    assert value[..0] == "";
    var index := 0;
    while index < |value|
      invariant 0 <= index <= |value| && result == Unbracket(value[..index], bracketed)
      invariant forall k :: 0 <= k < index ==> !IsHostStop(value[k])
    {
      var current := value[index];
      UnbracketAppend(value[..index], current, bracketed);
      assert value[..index + 1] == value[..index] + [current];
      index := index + 1;
      if bracketed && (current == '[' || current == ']') {
        continue;
      }
      if current == '/' || current == ' ' || current == '\r' || current == '\n' || current == '@' || current == '\0' {
        assert IsHostStop(value[index - 1]);
        return "", false;
      }
      result := result + [LowerChar(current)];
    }
    assert value[..index] == value;
    return result, |result| > 0;
  }

  // ---------- Ports ----------

  predicate IsDigit(c: char) { '0' <= c <= '9' }

  predicate Digits(s: string) {
    forall k :: 0 <= k < |s| ==> IsDigit(s[k])
  }

  /** The number a digit string writes in decimal. */
  function Value(s: string): nat
    requires Digits(s)
  {
    if s == "" then 0 else Value(s[..|s| - 1]) * 10 + (s[|s| - 1] - '0') as int
  }

  predicate IsPort(s: string) {
    s != "" && Digits(s) && 1 <= Value(s) <= 65535
  }

  lemma {:induction false} ValueGrows(s: string, i: nat)
    requires Digits(s) && i <= |s|
    ensures Digits(s[..i]) && Value(s[..i]) <= Value(s)
    decreases |s|
  {
    if i < |s| {
      var t := s[..|s| - 1];
      ValueGrows(t, i);
      assert t[..i] == s[..i];
    } else {
      assert s[..i] == s;
    }
  }

  method ParsePort(value: string) returns (port: nat, ok: bool)
    ensures ok == IsPort(value)
    ensures ok <==> value != "" && Digits(value) && 1 <= Value(value) <= 65535
    ensures ok ==> port == Value(value)
  {
    if value == "" {
      return 0, false;
    }
    port := 0;
    assert value[..0] == "";
    var index := 0;
    while index < |value|
      invariant 0 <= index <= |value| && Digits(value[..index]) && port == Value(value[..index]) <= 65535
    {
      if value[index] < '0' || value[index] > '9' {
        assert !IsDigit(value[index]);
        return 0, false;
      }
      var next := value[..index + 1];
      assert next[..index] == value[..index];
      port := port * 10 + (value[index] - '0') as int;
      assert Digits(next) && port == Value(next);
      if port > 65535 {
        if Digits(value) { ValueGrows(value, index + 1); }
        return 0, false;
      }
      index := index + 1;
    }
    assert value[..index] == value;
    return port, port != 0;
  }

  /** A number in decimal, without leading zeros. */
  function Decimal(n: nat): string {
    if n < 10 then ['0' + n as char] else Decimal(n / 10) + ['0' + (n % 10) as char]
  }

  lemma {:induction false} ValueOfDecimal(n: nat)
    ensures Decimal(n) != "" && Digits(Decimal(n)) && Value(Decimal(n)) == n
  {
    if n >= 10 {
      ValueOfDecimal(n / 10);
      var s := Decimal(n);
      assert s[..|s| - 1] == Decimal(n / 10);
    }
  }

  lemma {:induction false} LeadingZero(s: string)
    requires Digits(s)
    ensures Digits("0" + s) && Value("0" + s) == Value(s)
    decreases |s|
  {
    var t := "0" + s;
    if s == "" {
      assert t[..0] == "";
    } else {
      LeadingZero(s[..|s| - 1]);
      assert t[..|t| - 1] == "0" + s[..|s| - 1];
    }
  }

  // ---------- The request line ----------

  predicate IsVersion(v: string) {
    |v| >= 8 && v[..7] == "HTTP/1." && (v[7] == '0' || v[7] == '1') &&
    (|v| > 8 ==> v[8] == '\0' || v[8] == '\r' || v[8] == '\n' || v[8] == ' ')
  }

  /** HTTP/1.0 or HTTP/1.1, and then the end, a line's end, a blank or a NUL. */
  lemma VersionIff(v: string)
    ensures IsVersion(v) <==> exists rest ::
      (v == "HTTP/1.0" + rest || v == "HTTP/1.1" + rest) && (rest == "" || rest[0] as int in {0, 10, 13, 32})
  {
    if IsVersion(v) {
      var rest := v[8..];
      assert v == v[..7] + [v[7]] + rest;
      assert "HTTP/1.0" == "HTTP/1." + ['0'] && "HTTP/1.1" == "HTTP/1." + ['1'];
      assert v == "HTTP/1.0" + rest || v == "HTTP/1.1" + rest;
    }
    if rest :| (v == "HTTP/1.0" + rest || v == "HTTP/1.1" + rest) && (rest == "" || rest[0] as int in {0, 10, 13, 32}) {
      assert v[..7] == "HTTP/1." && (rest != "" ==> v[8] == rest[0]);
    }
  }

  /** How far a host runs at the start of an authority. */
  function HostLength(authority: string): (n: nat)
    ensures n <= |authority| && (n < |authority| ==> authority[n] == '/' || authority[n] == ':')
    ensures forall k :: 0 <= k < n ==> authority[k] != '/' && authority[k] != ':'
  {
    if authority == "" || authority[0] == '/' || authority[0] == ':' then 0 else 1 + HostLength(authority[1..])
  }

  function ClassifyConnect(target: string): Request {
    var colon := LastIndexOf(target, ':');
    if colon <= 0 || !IsPort(target[colon + 1..]) || !IsHost(target[..colon]) then Invalid
    else Connect(HostOf(target[..colon]), Value(target[colon + 1..]))
  }

  function ClassifyAuthority(authority: string): Request {
    var n := HostLength(authority);
    var after := authority[n..];
    if !IsHost(authority[..n]) then Invalid
    else if after == "" || after[0] == '/' then Absolute(HostOf(authority[..n]), DEFAULT_PORT)
    else
      var port := after[1..1 + IndexOf(after[1..], '/')];
      if IsPort(port) then Absolute(HostOf(authority[..n]), Value(port)) else Invalid
  }

  function ClassifyTarget(verb: string, target: string): Request
    requires target != ""
  {
    if verb == "CONNECT" then ClassifyConnect(target)
    else if target[0] == '/' then Api
    else if |target| <= 7 || target[..7] != "http://" then Invalid
    else ClassifyAuthority(target[7..])
  }

  function Classify(line: string): Request {
    var a := IndexOf(line, ' ');
    if a == 0 || a == |line| then Invalid
    else
      var rest := line[a + 1..];
      var b := IndexOf(rest, ' ');
      if b == 0 || b == |rest| || !IsVersion(rest[b + 1..]) then Invalid
      else ClassifyTarget(line[..a], rest[..b])
  }

  method ClassifyAbsolute(authority: string) returns (r: Request)
    ensures r == ClassifyAuthority(authority)
  {
    hide IsPort, IsHost, HostOf, IndexOf, Value;
    var hostLen := 0;
    assert authority[0..] == authority;
    while hostLen < |authority| && authority[hostLen] != '/' && authority[hostLen] != ':'
      invariant 0 <= hostLen <= |authority|
      invariant forall k :: 0 <= k < hostLen ==> authority[k] != '/' && authority[k] != ':'
    {
      hostLen := hostLen + 1;
    }
    HostLengthFound(authority, hostLen);
    hide HostLength, ClassifyAuthority;
    var port := DEFAULT_PORT;
    if hostLen == |authority| || authority[hostLen] == '/' {
      WithoutPort(authority, hostLen);
    }
    if hostLen < |authority| && authority[hostLen] == ':' {
      var portEnd := hostLen + 1;
      while portEnd < |authority| && authority[portEnd] != '/'
        invariant hostLen + 1 <= portEnd <= |authority|
        invariant forall k :: hostLen + 1 <= k < portEnd ==> authority[k] != '/'
      {
        portEnd := portEnd + 1;
      }
      WithPort(authority, hostLen, portEnd);
      var ok;
      port, ok := ParsePort(authority[hostLen + 1..portEnd]);
      if !ok {
        return Invalid;
      }
    }
    var host, ok := CopyHost(authority[..hostLen]);
    if !ok {
      return Invalid;
    }
    return Absolute(host, port);
  }

  lemma HostLengthFound(authority: string, n: nat)
    requires n <= |authority| && (n < |authority| ==> authority[n] == '/' || authority[n] == ':')
    requires forall k :: 0 <= k < n ==> authority[k] != '/' && authority[k] != ':'
    ensures HostLength(authority) == n
  {}

  lemma WithoutPort(authority: string, n: nat)
    requires HostLength(authority) == n && (n == |authority| || authority[n] == '/')
    ensures ClassifyAuthority(authority) == if IsHost(authority[..n]) then Absolute(HostOf(authority[..n]), DEFAULT_PORT) else Invalid
  {
    hide IsHost, HostOf, HostLength;
  }

  lemma WithPort(authority: string, n: nat, end: nat)
    requires HostLength(authority) == n < end <= |authority| && authority[n] == ':'
    requires (forall k :: n + 1 <= k < end ==> authority[k] != '/') && (end < |authority| ==> authority[end] == '/')
    ensures var host, port := authority[..n], authority[n + 1..end];
      ClassifyAuthority(authority) == if IsHost(host) && IsPort(port) then Absolute(HostOf(host), Value(port)) else Invalid
  {
    hide IsHost, HostOf, HostLength, IsPort, Value, IndexOf;
    PortText(authority, n, end);
    assert authority[n..] != "" && authority[n..][0] == ':';
  }

  lemma PortText(authority: string, n: nat, end: nat)
    requires n < end <= |authority| && (forall k :: n + 1 <= k < end ==> authority[k] != '/')
    requires end < |authority| ==> authority[end] == '/'
    ensures authority[n..][1..1 + IndexOf(authority[n..][1..], '/')] == authority[n + 1..end]
  {
    var after := authority[n..][1..];
    assert after == authority[n + 1..];
    var i := IndexOf(after, '/');
    assert i < |after| ==> authority[n + 1 + i] == '/';
    assert end < |authority| ==> after[end - n - 1] == '/';
    assert i == end - n - 1;
  }

  method ClassifyAuthorityForm(target: string) returns (r: Request)
    ensures r == ClassifyConnect(target)
  {
    hide IsPort, IsHost, HostOf;
    var colon := LastIndexOf(target, ':');
    if colon <= 0 {
      return Invalid;
    }
    var port, portOk := ParsePort(target[colon + 1..]);
    if !portOk {
      return Invalid;
    }
    var host, hostOk := CopyHost(target[..colon]);
    if !hostOk {
      return Invalid;
    }
    return Connect(host, port);
  }

  method ClassifyRequestLine(line: string) returns (r: Request)
    ensures r == Classify(line)
  {
    hide IsVersion, ClassifyAuthority, ClassifyConnect;
    var firstSpace := IndexOf(line, ' ');
    if firstSpace == 0 || firstSpace == |line| {
      return Invalid;
    }
    var targetStart := firstSpace + 1;
    var secondRelative := IndexOf(line[targetStart..], ' ');
    if secondRelative == 0 || secondRelative == |line[targetStart..]| {
      return Invalid;
    }
    var secondSpace := targetStart + secondRelative;
    var target, version := line[targetStart..secondSpace], line[secondSpace + 1..];
    assert line[targetStart..][..secondRelative] == target && line[targetStart..][secondRelative + 1..] == version;
    if !IsVersion(version) {
      return Invalid;
    }
    var verb := line[..firstSpace];
    if verb == "CONNECT" {
      r := ClassifyAuthorityForm(target);
      return;
    }
    if target[0] == '/' {
      return Api;
    }
    if |target| <= 7 || target[..7] != "http://" {
      return Invalid;
    }
    r := ClassifyAbsolute(target[7..]);
  }

  // ---------- What the classes mean ----------

  function LineText(verb: string, target: string, version: string): string {
    verb + " " + (target + " " + version)
  }

  /** A line in three parts, the first two without spaces. */
  predicate Parts(line: string, verb: string, target: string, version: string) {
    verb != "" && target != "" && ' ' !in verb && ' ' !in target && line == LineText(verb, target, version)
  }

  lemma ClassifyParts(line: string, verb: string, target: string, version: string)
    requires Parts(line, verb, target, version)
    ensures Classify(line) == if IsVersion(version) then ClassifyTarget(verb, target) else Invalid
  {
    hide IsVersion, ClassifyTarget;
    var rest := target + " " + version;
    IndexOfFirst(verb, ' ', rest);
    IndexOfFirst(target, ' ', version);
    assert line == verb + [' '] + rest;
    assert line[..|verb|] == verb && line[|verb| + 1..] == rest;
    assert rest[..|target|] == target && rest[|target| + 1..] == version;
  }

  lemma SplitParts(line: string) returns (verb: string, target: string, version: string)
    requires Classify(line) != Invalid
    ensures Parts(line, verb, target, version) && IsVersion(version)
  {
    hide IsVersion, ClassifyTarget;
    var a := IndexOf(line, ' ');
    var rest := line[a + 1..];
    var b := IndexOf(rest, ' ');
    verb, target, version := line[..a], rest[..b], rest[b + 1..];
    SplitAtSpace(line, a);
    SplitAtSpace(rest, b);
  }

  lemma SplitAtSpace(s: string, i: nat)
    requires i < |s| && s[i] == ' '
    ensures s == s[..i] + " " + s[i + 1..]
  {}

  /** The authority-form request for a host text and a port text. */
  predicate ConnectLine(line: string, host: string, port: string, version: string) {
    IsHost(host) && IsPort(port) && IsVersion(version) && line == LineText("CONNECT", host + ":" + port, version)
  }

  lemma HostHasNo(host: string, c: char)
    requires IsHost(host) && IsHostStop(c)
    ensures c !in host
  {}

  lemma PortHasOnlyDigits(port: string, c: char)
    requires Digits(port) && !IsDigit(c)
    ensures c !in port
  {}

  lemma ConnectMeans(line: string, host: string, port: string, version: string)
    requires ConnectLine(line, host, port, version)
    ensures Classify(line) == Connect(HostOf(host), Value(port))
  {
    hide IsVersion, HostOf, Classify;
    var target := host + ":" + port;
    HostHasNo(host, ' ');
    PortHasOnlyDigits(port, ' ');
    PortHasOnlyDigits(port, ':');
    ClassifyParts(line, "CONNECT", target, version);
    LastIndexOfLast(host, ':', port);
    assert target[..|host|] == host && target[|host| + 1..] == port;
  }

  ghost predicate IsConnectFor(line: string, host: string, port: nat) {
    exists h, p, v :: ConnectLine(line, h, p, v) && host == HostOf(h) && port == Value(p)
  }

  lemma ConnectIsPrinted(line: string, host: string, port: nat)
    requires Classify(line) == Connect(host, port)
    ensures IsConnectFor(line, host, port)
  {
    hide IsVersion, HostOf;
    var verb, target, version := SplitParts(line);
    ClassifyParts(line, verb, target, version);
    hide Classify, ClassifyAuthority;
    var colon := LastIndexOf(target, ':');
    var h, p := target[..colon], target[colon + 1..];
    assert target == h + ":" + p;
    assert ConnectLine(line, h, p, version);
  }

  /** A line is a CONNECT for a host and a port exactly when it is the authority-form request of
      some legal host text for that host and some digits for that port. */
  lemma ConnectIff(line: string, host: string, port: nat)
    ensures Classify(line) == Connect(host, port) <==> IsConnectFor(line, host, port)
  {
    hide IsVersion, HostOf;
    if Classify(line) == Connect(host, port) {
      ConnectIsPrinted(line, host, port);
    }
    hide Classify;
    if IsConnectFor(line, host, port) {
      var h, p, v :| ConnectLine(line, h, p, v) && host == HostOf(h) && port == Value(p);
      ConnectMeans(line, h, p, v);
    }
  }

  /** The port part of an authority: nothing, or a colon and digits. */
  predicate PortPart(part: string, port: nat) {
    (part == "" && port == 80) || (part != "" && part[0] == ':' && IsPort(part[1..]) && port == Value(part[1..]))
  }

  predicate IsPath(path: string) {
    (path == "" || path[0] == '/') && ' ' !in path
  }

  predicate AbsoluteLine(line: string, verb: string, host: string, portPart: string, path: string, version: string, port: nat) {
    verb != "" && ' ' !in verb && verb != "CONNECT" && IsHost(host) && ':' !in host && PortPart(portPart, port) && IsPath(path) &&
    IsVersion(version) && line == LineText(verb, "http://" + (host + (portPart + path)), version)
  }

  lemma {:induction false} HostLengthIs(host: string, after: string)
    requires '/' !in host && ':' !in host && (after == "" || after[0] == '/' || after[0] == ':')
    ensures HostLength(host + after) == |host|
  {
    if host == "" {
      assert host + after == after;
    } else {
      assert (host + after)[0] == host[0] && (host + after)[1..] == host[1..] + after;
      assert forall c :: c in host[1..] ==> c in host;
      HostLengthIs(host[1..], after);
    }
  }

  /** The digits of a port run up to the path. */
  lemma PortEnds(digits: string, path: string)
    requires IsPort(digits) && IsPath(path)
    ensures IndexOf(digits + path, '/') == |digits|
  {
    hide IndexOf, Value;
    PortHasOnlyDigits(digits, '/');
    if path == "" {
      NoIndex(digits, '/');
      assert digits + path == digits;
    } else {
      assert path == ['/'] + path[1..];
      assert digits + path == digits + ['/'] + path[1..];
      IndexOfFirst(digits, '/', path[1..]);
    }
  }

  lemma AuthorityMeans(host: string, portPart: string, path: string, port: nat)
    requires IsHost(host) && ':' !in host && PortPart(portPart, port) && IsPath(path)
    ensures ClassifyAuthority(host + (portPart + path)) == Absolute(HostOf(host), port)
  {
    hide HostOf, IndexOf;
    var after := portPart + path;
    var authority := host + after;
    HostHasNo(host, '/');
    HostLengthIs(host, after);
    hide HostLength, IsHost;
    assert authority[..|host|] == host && authority[|host|..] == after;
    if portPart != "" {
      var digits := portPart[1..];
      PortEnds(digits, path);
      assert after[0] == ':' && after[1..] == digits + path && after[1..1 + |digits|] == digits;
      hide IsPort, Value;
    } else {
      assert after == path;
    }
  }

  lemma AbsoluteMeans(line: string, verb: string, host: string, portPart: string, path: string, version: string, port: nat)
    requires AbsoluteLine(line, verb, host, portPart, path, version, port)
    ensures Classify(line) == Absolute(HostOf(host), port)
  {
    hide IsVersion, HostOf, Classify, ClassifyAuthority;
    var authority := host + (portPart + path);
    var target := "http://" + authority;
    AuthorityMeans(host, portPart, path, port);
    assert target[..7] == "http://" && target[7..] == authority;
    TargetHasNoSpace(host, portPart, path, port);
    ClassifyParts(line, verb, target, version);
  }

  lemma TargetHasNoSpace(host: string, portPart: string, path: string, port: nat)
    requires IsHost(host) && PortPart(portPart, port) && IsPath(path)
    ensures ' ' !in "http://" + (host + (portPart + path))
  {
    hide HostOf;
    HostHasNo(host, ' ');
    if portPart != "" {
      PortHasOnlyDigits(portPart[1..], ' ');
      assert portPart == [':'] + portPart[1..];
    }
  }

  ghost predicate IsAbsoluteFor(line: string, host: string, port: nat) {
    exists m, h, q, path, v :: AbsoluteLine(line, m, h, q, path, v, port) && host == HostOf(h)
  }

  /** An authority splits without loss into host text, port part and path. */
  lemma SplitAuthority(authority: string) returns (h: string, q: string, path: string)
    requires ClassifyAuthority(authority) != Invalid && ' ' !in authority
    ensures authority == h + (q + path) && IsHost(h) && ':' !in h && IsPath(path)
    ensures ClassifyAuthority(authority).Absolute? && PortPart(q, ClassifyAuthority(authority).port)
    ensures ClassifyAuthority(authority).host == HostOf(h)
  {
    hide HostOf, HostLength, Digits, Value, IndexOf;
    var n := HostLength(authority);
    var after := authority[n..];
    h := authority[..n];
    if after == "" || after[0] == '/' {
      q, path := "", after;
      assert q + path == after;
    } else {
      var e := 1 + IndexOf(after[1..], '/');
      q, path := after[..e], after[e..];
      assert q[1..] == after[1..e];
      assert e < |after| ==> after[e] == '/';
      assert q + path == after;
    }
    assert authority == h + after;
  }

  /** A line is an absolute-form request for a host and a port exactly when it is one printed from
      a legal host text without a colon, an optional port part, and an empty or rooted path. */
  lemma AbsoluteIff(line: string, host: string, port: nat)
    ensures Classify(line) == Absolute(host, port) <==> IsAbsoluteFor(line, host, port)
  {
    hide IsVersion, HostOf, IsHost, IsPort, ClassifyAuthority, ClassifyConnect;
    if Classify(line) == Absolute(host, port) {
      var m, h, q, path, v := SplitAbsolute(line);
    }
    if IsAbsoluteFor(line, host, port) {
      var m, h, q, path, v :| AbsoluteLine(line, m, h, q, path, v, port) && host == HostOf(h);
      AbsoluteMeans(line, m, h, q, path, v, port);
    }
  }

  lemma SplitAbsolute(line: string) returns (m: string, h: string, q: string, path: string, v: string)
    requires Classify(line).Absolute?
    ensures AbsoluteLine(line, m, h, q, path, v, Classify(line).port) && Classify(line).host == HostOf(h)
  {
    hide IsVersion, HostOf, IsHost, IsPort, ClassifyAuthority;
    var target;
    m, target, v := SplitParts(line);
    ClassifyParts(line, m, target, v);
    hide Classify;
    var authority := target[7..];
    assert target == "http://" + authority;
    assert forall k :: 0 <= k < |authority| ==> authority[k] == target[k + 7];
    h, q, path := SplitAuthority(authority);
  }

  /** Everything else that is not refused is an origin-form request to the proxy itself. */
  lemma ApiIff(line: string)
    ensures Classify(line) == Api <==> exists m, t, v :: Parts(line, m, t, v) && m != "CONNECT" && t[0] == '/' && IsVersion(v)
  {
    hide IsVersion, ClassifyAuthority, ClassifyConnect;
    ConnectIsNotApi();
    if Classify(line) == Api {
      var m, t, v := SplitParts(line);
      ClassifyParts(line, m, t, v);
      assert Parts(line, m, t, v);
    }
    if m, t, v :| Parts(line, m, t, v) && m != "CONNECT" && t[0] == '/' && IsVersion(v) {
      ClassifyParts(line, m, t, v);
    }
  }

  lemma ConnectIsNotApi()
    ensures forall t :: ClassifyConnect(t) != Api
    ensures forall t :: ClassifyAuthority(t) != Api
  {}

  // ---------- Printing and parsing ----------

  /** Printing a CONNECT for any host and any port and reading it back gives the host in lower case
      and the port. */
  lemma ConnectRoundTrip(host: string, port: nat)
    requires IsHost(host) && host[0] != '[' && 1 <= port <= 65535
    ensures Classify(LineText("CONNECT", host + ":" + Decimal(port), "HTTP/1.1")) == Connect(Lower(host), port)
  {
    ValueOfDecimal(port);
    PlainHost(host);
    assert IsVersion("HTTP/1.1");
    ConnectMeans(LineText("CONNECT", host + ":" + Decimal(port), "HTTP/1.1"), host, Decimal(port), "HTTP/1.1");
  }

  lemma AbsoluteRoundTrip(verb: string, host: string, port: nat, path: string)
    requires verb != "" && ' ' !in verb && verb != "CONNECT"
    requires IsHost(host) && host[0] != '[' && ':' !in host && 1 <= port <= 65535 && IsPath(path)
    ensures Classify(LineText(verb, "http://" + (host + ((":" + Decimal(port)) + path)), "HTTP/1.1")) == Absolute(Lower(host), port)
  {
    hide Classify;
    ValueOfDecimal(port);
    PlainHost(host);
    var part := ":" + Decimal(port);
    assert part[1..] == Decimal(port);
    assert IsVersion("HTTP/1.1");
    AbsoluteMeans(LineText(verb, "http://" + (host + (part + path)), "HTTP/1.1"), verb, host, part, path, "HTTP/1.1", port);
  }
}

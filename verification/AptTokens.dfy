/** The lexical splitter in front of the learned-toolchain parser: blanks separate tokens and
    shell operators are tokens of their own. Quotes and escapes mean nothing to it. */
module AptTokens {
  import opened Sequences
  import opened Text

  predicate IsBlank(c: char) { c == ' ' || c == '\t' || c == '\r' }

  predicate IsDelim(c: char) { IsBlank(c) || c == '\n' || c == ';' || c == '|' || c == '&' }

  predicate IsOperator(tok: string) {
    tok == "&&" || tok == "||" || tok == "|" || tok == ";" || tok == "&" || tok == "\n"
  }

  /** How far a word runs from the start of s. */
  function WordLength(s: string): (n: nat)
    ensures n <= |s|
    ensures forall k :: 0 <= k < n ==> !IsDelim(s[k])
    ensures n < |s| ==> IsDelim(s[n])
  {
    if s == "" || IsDelim(s[0]) then 0 else 1 + WordLength(s[1..])
  }

  /** The length of the operator s starts with: two for a doubled & or |. */
  function OperatorLength(s: string): (n: nat)
    requires s != "" && IsDelim(s[0]) && !IsBlank(s[0])
    ensures 1 <= n <= |s|
    ensures IsOperator(s[..n])
  {
    if |s| > 1 && s[1] == s[0] && (s[0] == '&' || s[0] == '|') then 2 else 1
  }

  function Tokens(s: string): (toks: seq<string>)
    decreases |s|
  {
    if s == "" then []
    else if IsBlank(s[0]) then Tokens(s[1..])
    else if IsDelim(s[0]) then [s[..OperatorLength(s)]] + Tokens(s[OperatorLength(s)..])
    else [s[..WordLength(s)]] + Tokens(s[WordLength(s)..])
  }

  /** Splits a command by one left-to-right scan. */
  method Tokenize(cmd: string) returns (tokens: seq<string>)
    ensures tokens == Tokens(cmd)
  {
    tokens := [];
    var i := 0;
    ScanStarts(cmd);
    hide Scanned, Tokens, IsDelim, IsBlank;
    while i < |cmd|
      invariant 0 <= i <= |cmd| && Scanned(cmd, i, tokens)
      decreases |cmd| - i
    {
      var start := SkipBlanks(cmd, i);
      ScanNothing(cmd, i, start, tokens);
      i := start;
      if i >= |cmd| {
        break;
      }
      i := ScanWord(cmd, start);
      if i > start {
        ScanToken(cmd, start, i, tokens, cmd[start..i]);
        tokens := tokens + [cmd[start..i]];
      }
      if i >= |cmd| {
        break;
      }
      var token, size := DelimiterAt(cmd, i);
      if token != "" {
        ScanToken(cmd, i, i + size, tokens, token);
        tokens := tokens + [token];
      } else {
        ScanNothing(cmd, i, i + size, tokens);
      }
      i := i + size;
    }
    ScanEnds(cmd, i, tokens);
  }

  /** The tokens of what is scanned are found, and those of the rest complete them. */
  ghost predicate Scanned(cmd: string, i: nat, tokens: seq<string>) {
    i <= |cmd| && tokens + Tokens(cmd[i..]) == Tokens(cmd)
  }

  lemma ScanStarts(cmd: string)
    ensures Scanned(cmd, 0, [])
  {
    assert cmd[0..] == cmd;
  }

  lemma ScanNothing(cmd: string, i: nat, j: nat, tokens: seq<string>)
    requires Scanned(cmd, i, tokens) && j <= |cmd| && Tokens(cmd[i..]) == Tokens(cmd[j..])
    ensures Scanned(cmd, j, tokens)
  {}

  lemma ScanToken(cmd: string, i: nat, j: nat, tokens: seq<string>, token: string)
    requires Scanned(cmd, i, tokens) && j <= |cmd| && Tokens(cmd[i..]) == [token] + Tokens(cmd[j..])
    ensures Scanned(cmd, j, tokens + [token])
  {
    hide Tokens;
    assert tokens + ([token] + Tokens(cmd[j..])) == tokens + [token] + Tokens(cmd[j..]);
  }

  lemma ScanEnds(cmd: string, i: nat, tokens: seq<string>)
    requires Scanned(cmd, i, tokens) && i == |cmd|
    ensures tokens == Tokens(cmd)
  {
    assert cmd[i..] == "";
  }

  method SkipBlanks(cmd: string, from: nat) returns (i: nat)
    requires from <= |cmd|
    ensures from <= i <= |cmd| && (i < |cmd| ==> !IsBlank(cmd[i]))
    ensures Tokens(cmd[i..]) == Tokens(cmd[from..])
  {
    i := from;
    while i < |cmd| && (cmd[i] == ' ' || cmd[i] == '\t' || cmd[i] == '\r')
      invariant from <= i <= |cmd| && Tokens(cmd[i..]) == Tokens(cmd[from..])
    {
      assert cmd[i..][1..] == cmd[i + 1..];
      i := i + 1;
    }
  }

  /** Runs to the end of the word at from, if there is one. */
  method ScanWord(cmd: string, from: nat) returns (i: nat)
    requires from < |cmd| && !IsBlank(cmd[from])
    ensures from <= i <= |cmd| && (i < |cmd| ==> IsDelim(cmd[i]))
    ensures i > from ==> Tokens(cmd[from..]) == [cmd[from..i]] + Tokens(cmd[i..])
  {
    hide Tokens;
    i := from;
    while i < |cmd| && !IsDelim(cmd[i])
      invariant from <= i <= |cmd|
      invariant WordLength(cmd[from..]) == i - from + WordLength(cmd[i..])
    {
      assert cmd[i..][1..] == cmd[i + 1..];
      i := i + 1;
    }
    if i > from {
      WordScanned(cmd, from, i);
    }
  }

  lemma WordScanned(cmd: string, from: nat, i: nat)
    requires from < i <= |cmd| && WordLength(cmd[from..]) == i - from
    ensures Tokens(cmd[from..]) == [cmd[from..i]] + Tokens(cmd[i..])
  {
    var s := cmd[from..];
    assert !IsDelim(s[0]);
    assert s[..i - from] == cmd[from..i] && s[i - from..] == cmd[i..];
  }

  /** What stands at a delimiter: an operator, or a blank to step over. */
  method DelimiterAt(cmd: string, i: nat) returns (token: string, size: nat)
    requires i < |cmd| && IsDelim(cmd[i])
    ensures 1 <= size && i + size <= |cmd|
    ensures token != "" ==> Tokens(cmd[i..]) == [token] + Tokens(cmd[i + size..])
    ensures token == "" ==> Tokens(cmd[i..]) == Tokens(cmd[i + size..])
  {
    var s := cmd[i..];
    if cmd[i] == '&' && i + 1 < |cmd| && cmd[i + 1] == '&' {
      token, size := "&&", 2;
    } else if cmd[i] == '|' && i + 1 < |cmd| && cmd[i + 1] == '|' {
      token, size := "||", 2;
    } else if cmd[i] == '|' {
      token, size := "|", 1;
    } else if cmd[i] == ';' {
      token, size := ";", 1;
    } else if cmd[i] == '&' {
      token, size := "&", 1;
    } else if cmd[i] == '\n' {
      token, size := "\n", 1;
    } else {
      token, size := "", 1;
    }
    assert s[size..] == cmd[i + size..];
    assert token != "" ==> s[..size] == token;
  }

  /** A non-empty word without blanks, newlines and the characters of operators. */
  predicate IsWord(tok: string) {
    tok != "" && forall k :: 0 <= k < |tok| ==>
      tok[k] != ' ' && tok[k] != '\t' && tok[k] != '\r' && tok[k] != '\n' && tok[k] != ';' && tok[k] != '|' && tok[k] != '&'
  }

  /** Every token is a word or one of the six operators. */
  predicate WellFormed(tok: string) {
    IsWord(tok) || tok == "&&" || tok == "||" || tok == "|" || tok == ";" || tok == "&" || tok == "\n"
  }

  lemma WordIff(tok: string)
    ensures IsWord(tok) <==> tok != "" && forall k :: 0 <= k < |tok| ==> !IsDelim(tok[k])
    ensures IsWord(tok) ==> !IsOperator(tok)
  {
    if IsWord(tok) {
      assert !IsDelim(tok[0]);
    }
  }

  lemma {:induction false} TokensWellFormed(s: string)
    ensures forall k :: 0 <= k < |Tokens(s)| ==> WellFormed(Tokens(s)[k])
    decreases |s|
  {
    if s != "" {
      if IsBlank(s[0]) {
        TokensWellFormed(s[1..]);
      } else {
        var n := if IsDelim(s[0]) then OperatorLength(s) else WordLength(s);
        TokensWellFormed(s[n..]);
        assert WellFormed(s[..n]);
      }
    }
  }

  /** The tokens with one space between each two. */
  function Join(toks: seq<string>): string {
    if toks == [] then ""
    else if |toks| == 1 then toks[0]
    else toks[0] + " " + Join(toks[1..])
  }

  lemma {:induction false} WordLengthIs(w: string, rest: string)
    requires forall k :: 0 <= k < |w| ==> !IsDelim(w[k])
    requires rest == "" || IsDelim(rest[0])
    ensures WordLength(w + rest) == |w|
  {
    if w == "" {
      assert w + rest == rest;
    } else {
      assert (w + rest)[1..] == w[1..] + rest;
      WordLengthIs(w[1..], rest);
    }
  }

  lemma TokenThenBlank(tok: string, rest: string)
    requires WellFormed(tok)
    ensures Tokens(tok + " " + rest) == [tok] + Tokens(rest)
  {
    var s := tok + " " + rest;
    var tail := " " + rest;
    assert s == tok + tail && tail[1..] == rest;
    assert Tokens(tail) == Tokens(rest);
    var n := |tok|;
    assert s[..n] == tok && s[n..] == tail;
    if IsOperator(tok) {
      assert OperatorLength(s) == n;
    } else {
      WordLengthIs(tok, tail);
    }
  }

  /** A well-formed token at the end of the input is the only one there. */
  lemma TokenAlone(tok: string)
    requires WellFormed(tok)
    ensures Tokens(tok) == [tok]
  {
    assert tok[..|tok|] == tok && tok[|tok|..] == "";
    if IsOperator(tok) {
      assert OperatorLength(tok) == |tok|;
    } else {
      WordLengthIs(tok, "");
      assert tok + "" == tok;
    }
  }

  /** Joining well-formed tokens with spaces and splitting again gives them back. */
  lemma {:induction false} TokensOfJoin(toks: seq<string>)
    requires forall k :: 0 <= k < |toks| ==> WellFormed(toks[k])
    ensures Tokens(Join(toks)) == toks
  {
    if toks != [] {
      hide Tokens, WellFormed;
      if |toks| == 1 {
        TokenAlone(toks[0]);
      } else {
        TokensOfJoin(toks[1..]);
        TokenThenBlank(toks[0], Join(toks[1..]));
      }
    } else {
      assert Tokens("") == [];
    }
  }

  function WithoutBlanks(s: string): string {
    if s == "" then "" else (if s[0] == ' ' || s[0] == '\t' || s[0] == '\r' then "" else s[..1]) + WithoutBlanks(s[1..])
  }

  lemma {:induction false} WithoutBlanksConcat(a: string, b: string)
    ensures WithoutBlanks(a + b) == WithoutBlanks(a) + WithoutBlanks(b)
  {
    if a == "" {
      assert a + b == b;
    } else {
      assert (a + b)[1..] == a[1..] + b;
      WithoutBlanksConcat(a[1..], b);
    }
  }

  lemma {:induction false} NoBlanks(a: string)
    requires forall k :: 0 <= k < |a| ==> !IsBlank(a[k])
    ensures WithoutBlanks(a) == a
  {
    if a != "" { NoBlanks(a[1..]); }
  }

  /** The tokens of any command, joined, are the command with spaces, tabs and returns removed. */
  lemma {:induction false} TokensLoseOnlyBlanks(s: string)
    ensures Concat(Tokens(s)) == WithoutBlanks(s)
    decreases |s|
  {
    if s != "" {
      if IsBlank(s[0]) {
        TokensLoseOnlyBlanks(s[1..]);
      } else {
        var n := if IsDelim(s[0]) then OperatorLength(s) else WordLength(s);
        TokensLoseOnlyBlanks(s[n..]);
        assert s == s[..n] + s[n..];
        WithoutBlanksConcat(s[..n], s[n..]);
        NoBlanks(s[..n]);
      }
    }
  }

  lemma SemicolonFirst(b: string)
    ensures Tokens(";" + b) == [";"] + Tokens(b)
  {
    var tail := ";" + b;
    assert OperatorLength(tail) == 1 && tail[1..] == b && tail[..1] == ";";
  }

  /** How much of s the splitter reads first, and the token that yields, if any. */
  function FirstStep(s: string): (n: nat)
    requires s != ""
    ensures 1 <= n <= |s|
  {
    if IsBlank(s[0]) then 1 else if IsDelim(s[0]) then OperatorLength(s) else WordLength(s)
  }

  function FirstToken(s: string): seq<string>
    requires s != ""
  {
    if IsBlank(s[0]) then [] else [s[..FirstStep(s)]]
  }

  /** A semicolon between two commands is a token between their tokens. */
  lemma {:induction false} TokensAcrossSemicolon(a: string, b: string)
    ensures Tokens(a + ";" + b) == Tokens(a) + [";"] + Tokens(b)
    decreases |a|
  {
    hide Tokens, FirstStep, FirstToken;
    TailIs(a, b);
    if a == "" {
      SemicolonFirst(b);
      NoTokens();
      assert "" + ";" + b == ";" + b;
      assert [] + [";"] + Tokens(b) == [";"] + Tokens(b);
    } else {
      var rest := a[FirstStep(a)..];
      TokensAcrossSemicolon(rest, b);
      TailIs(rest, b);
      FirstAcross(a, ";" + b);
      Regroup(FirstToken(a), Tokens(rest), [";"], Tokens(b));
    }
  }

  lemma TailIs(a: string, b: string)
    ensures a + ";" + b == a + (";" + b)
  {}

  lemma NoTokens()
    ensures Tokens("") == []
  {}

  lemma Regroup(a: seq<string>, b: seq<string>, c: seq<string>, d: seq<string>)
    ensures a + (b + c + d) == a + b + c + d
  {}

  /** The first step of the split of a is not changed by a semicolon after a. */
  lemma FirstAcross(a: string, tail: string)
    requires a != "" && tail != "" && tail[0] == ';'
    ensures Tokens(a + tail) == FirstToken(a) + Tokens(a[FirstStep(a)..] + tail)
    ensures Tokens(a) == FirstToken(a) + Tokens(a[FirstStep(a)..])
  {
    hide Tokens, FirstStep, FirstToken;
    var s, n := a + tail, FirstStep(a);
    TokensFirst(a);
    TokensFirst(s);
    StepAcross(a, tail);
    assert s[n..] == a[n..] + tail;
  }

  lemma TokensFirst(s: string)
    requires s != ""
    ensures Tokens(s) == FirstToken(s) + Tokens(s[FirstStep(s)..])
  {
    hide WordLength, OperatorLength;
    assert [] + Tokens(s[1..]) == Tokens(s[1..]);
  }

  lemma StepAcross(a: string, tail: string)
    requires a != "" && tail != "" && tail[0] == ';'
    ensures FirstStep(a + tail) == FirstStep(a) && FirstToken(a + tail) == FirstToken(a)
  {
    hide WordLength;
    if !IsDelim(a[0]) { WordAcross(a, tail); }
    assert (a + tail)[0] == a[0];
    assert |a| > 1 ==> (a + tail)[1] == a[1];
    assert |a| == 1 ==> (a + tail)[1] == tail[0];
    var n := FirstStep(a);
    assert FirstStep(a + tail) == n && (a + tail)[..n] == a[..n];
    hide FirstStep;
  }

  lemma {:induction false} WordAcross(a: string, tail: string)
    requires tail != "" && IsDelim(tail[0])
    ensures WordLength(a + tail) == WordLength(a)
  {
    if a == "" {
      assert a + tail == tail;
    } else {
      assert (a + tail)[1..] == a[1..] + tail;
      WordAcross(a[1..], tail);
    }
  }

  predicate OccursAt(s: string, sub: string, i: nat) {
    i + |sub| <= |s| && s[i..i + |sub|] == sub
  }

  ghost predicate Contains(s: string, sub: string) {
    exists i: nat :: OccursAt(s, sub, i)
  }

  lemma OccursLater(s: string, n: nat, sub: string)
    requires n <= |s| && Contains(s[n..], sub)
    ensures Contains(s, sub)
  {
    var i: nat :| OccursAt(s[n..], sub, i);
    assert s[n..][i..i + |sub|] == s[n + i..n + i + |sub|];
    assert OccursAt(s, sub, n + i);
  }

  /** Every token is a substring of the command. */
  lemma {:induction false} TokensAreSubstrings(s: string, tok: string)
    requires tok in Tokens(s)
    ensures Contains(s, tok)
    decreases |s|
  {
    var n := if IsBlank(s[0]) then 1 else if IsDelim(s[0]) then OperatorLength(s) else WordLength(s);
    if !IsBlank(s[0]) && tok == s[..n] {
      assert OccursAt(s, tok, 0);
    } else {
      assert tok in Tokens(s[n..]);
      hide Tokens, WordLength, OperatorLength, IsDelim, IsBlank;
      TokensAreSubstrings(s[n..], tok);
      OccursLater(s, n, tok);
    }
  }
}

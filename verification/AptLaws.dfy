/** What the learned-toolchain parser promises about any command: how results grow with the
    limit, what a result looks like, how commands joined by a semicolon compose, and what sudo in
    front of one changes. */
module AptLaws {
  import opened Sequences
  import opened Text
  import opened AptTokens
  import opened AptParser

  function First(s: seq<string>, n: int): seq<string> {
    if n <= 0 then [] else if |s| <= n then s else s[..n]
  }

  // ---------- The limit ----------

  lemma {:induction false} CollectExtends(found: seq<string>, names: seq<string>, max: nat)
    ensures found <= Collect(found, names, max)
    decreases |names|
  {
    if names != [] && |found| < max {
      CollectExtends(if names[0] in found then found else found + [names[0]], names[1..], max);
    }
  }

  lemma {:induction false} CollectPrefix(found: seq<string>, names: seq<string>, m: nat, n: nat)
    requires |found| <= m <= n
    ensures Collect(found, names, m) == First(Collect(found, names, n), m)
    decreases |names|
  {
    if |found| == m {
      CollectExtends(found, names, n);
    } else if names != [] {
      CollectPrefix(if names[0] in found then found else found + [names[0]], names[1..], m, n);
    }
  }

  /** A smaller limit gives the first names of a larger one. */
  lemma ParsePrefix(cmd: string, m: int, n: int)
    requires m <= n
    ensures Parse(cmd, m) == First(Parse(cmd, n), m)
  {
    if m > 0 {
      CollectPrefix([], Names(Tokens(cmd), 0, Start), m, n);
    }
  }

  // ---------- The shape of a result ----------

  lemma {:induction false} CollectShape(found: seq<string>, names: seq<string>, max: nat)
    requires Distinct(found) && |found| <= max
    ensures Distinct(Collect(found, names, max)) && |Collect(found, names, max)| <= max
    ensures forall x :: x in Collect(found, names, max) ==> x in found || x in names
    decreases |names|
  {
    if names != [] && |found| < max {
      CollectShape(if names[0] in found then found else found + [names[0]], names[1..], max);
    }
  }

  lemma {:induction false} NamesFromTokens(toks: seq<string>, i: nat, mode: Mode, name: string) returns (k: nat)
    requires i <= |toks| && name in Names(toks, i, mode)
    ensures i <= k < |toks| && name == NameOf(toks[k]) && PackageValid(name)
    decreases |toks| - i
  {
    hide PackageValid, NameOf, IsOperator, IsFlag, NextMode;
    if name in Emitted(mode, toks[i]) {
      k := i;
    } else {
      k := NamesFromTokens(toks, i + 1, NextMode(mode, Prev(toks, i), toks[i]), name);
    }
  }

  predicate PrefixOfSome(name: string, toks: seq<string>) {
    exists k :: 0 <= k < |toks| && name <= toks[k]
  }

  /** Names found are valid, shorter than 64, distinct, within the limit, and each starts a token. */
  lemma ParseShape(cmd: string, max: int)
    ensures |Parse(cmd, max)| <= (if max > 0 then max else 0) && Distinct(Parse(cmd, max))
    ensures forall x :: x in Parse(cmd, max) ==> PackageValid(x) && |x| < PACKAGE_NAME_MAX
    ensures forall x :: x in Parse(cmd, max) ==> PrefixOfSome(x, Tokens(cmd))
  {
    if max > 0 {
      var toks := Tokens(cmd);
      var names := Names(toks, 0, Start);
      CollectShape([], names, max);
      forall x | x in Parse(cmd, max)
        ensures PackageValid(x) && |x| < PACKAGE_NAME_MAX && PrefixOfSome(x, toks)
      {
        var k := NamesFromTokens(toks, 0, Start, x);
        assert x <= toks[k];
      }
    }
  }

  // ---------- The prefilter ----------

  predicate Installing(mode: Mode) {
    (mode.Apt? || mode.Value?) && mode.installing
  }

  lemma {:induction false} NamesNeedInstall(toks: seq<string>, i: nat, mode: Mode)
    requires i <= |toks| && Names(toks, i, mode) != []
    ensures mode.Start? || mode.Other? ==> exists k :: i <= k < |toks| && IsApt(toks[k])
    ensures Installing(mode) || exists k :: i <= k < |toks| && toks[k] == "install"
    decreases |toks| - i
  {
    hide IsEnvAssign, IsOperator, OptionTakesArg;
    if Emitted(mode, toks[i]) == [] {
      NamesNeedInstall(toks, i + 1, NextMode(mode, Prev(toks, i), toks[i]));
    }
  }

  lemma ContainsPrefix(s: string, sub: string, longer: string)
    requires Contains(s, longer) && sub <= longer
    ensures Contains(s, sub)
  {
    var i: nat :| OccursAt(s, longer, i);
    assert s[i..i + |sub|] == s[i..i + |longer|][..|sub|];
    assert OccursAt(s, sub, i);
  }

  /** A command that yields any package contains both words the host looks for first. */
  lemma PrefilterSound(cmd: string, max: int)
    requires Parse(cmd, max) != []
    ensures Contains(cmd, "apt") && Contains(cmd, "install")
  {
    var toks := Tokens(cmd);
    assert Names(toks, 0, Start) != [];
    hide Names, Tokens, Collect;
    NamesNeedInstall(toks, 0, Start);
    var a :| 0 <= a < |toks| && IsApt(toks[a]);
    var b :| 0 <= b < |toks| && toks[b] == "install";
    TokensAreSubstrings(cmd, toks[a]);
    TokensAreSubstrings(cmd, toks[b]);
    ContainsPrefix(cmd, "apt", toks[a]);
  }

  // ---------- Steps ----------

  /** A name the parser can return. */
  predicate Learnable(name: string) {
    PackageValid(name) && |name| < PACKAGE_NAME_MAX
  }

  lemma {:induction false} CollectDistinct(found: seq<string>, names: seq<string>, max: nat)
    requires Distinct(found + names) && |found| <= max
    ensures Collect(found, names, max) == First(found + names, max)
    decreases |names|
  {
    var all := found + names;
    if names == [] {
      assert all == found;
    } else if |found| == max {
      assert all[..max] == found;
    } else {
      assert all[|found|] == names[0];
      assert forall j :: 0 <= j < |found| ==> all[j] == found[j];
      assert found + [names[0]] + names[1..] == all;
      CollectDistinct(found + [names[0]], names[1..], max);
    }
  }

  lemma InstallMode(prev: string)
    ensures NextMode(Apt(false), prev, "install") == Apt(true) && Emitted(Apt(false), "install") == []
  {
    hide IsEnvAssign, PackageValid, NameOf;
  }

  lemma NamesStep(toks: seq<string>, i: nat, mode: Mode)
    requires i < |toks|
    ensures Names(toks, i, mode) == Emitted(mode, toks[i]) + Names(toks, i + 1, NextMode(mode, Prev(toks, i), toks[i]))
  {
    hide NextMode, Emitted, Prev;
  }

  // ---------- Composition over a semicolon ----------

  lemma {:induction false} CollectConcat(found: seq<string>, a: seq<string>, b: seq<string>, max: nat)
    ensures Collect(found, a + b, max) == Collect(Collect(found, a, max), b, max)
    decreases |a|
  {
    if a == [] {
      assert a + b == b;
    } else if |found| < max {
      assert (a + b)[0] == a[0] && (a + b)[1..] == a[1..] + b;
      CollectConcat(if a[0] in found then found else found + [a[0]], a[1..], b, max);
    }
  }

  /** What stands before the first token has a say in how it is read only if it is sudo and the
      token a flag, and then only at the start of a command. */
  predicate Detached(before: string, toks: seq<string>, mode: Mode) {
    before == "sudo" ==> toks == [] || !IsFlag(toks[0]) || !mode.Start?
  }

  /** The tokens stand at n in all. */
  ghost predicate StandAt(all: seq<string>, n: nat, toks: seq<string>) {
    0 < n && |all| == n + |toks| && forall k :: 0 <= k < |toks| ==> all[n + k] == toks[k]
  }

  lemma {:induction false} NamesLater(all: seq<string>, n: nat, toks: seq<string>, j: nat, mode: Mode)
    requires StandAt(all, n, toks) && j <= |toks| && (j > 0 || Detached(all[n - 1], toks, mode))
    ensures Names(all, n + j, mode) == Names(toks, j, mode)
    decreases |toks| - j
  {
    hide Names, NextMode, Emitted, Prev, Detached, StandAt;
    StandsWithin(all, n, toks);
    if j == |toks| {
      NamesEnd(all, mode);
      NamesEnd(toks, mode);
    } else {
      Shifted(all, n, toks, j, mode);
      var next := NextMode(mode, Prev(toks, j), toks[j]);
      NamesLater(all, n, toks, j + 1, next);
      NamesStep(toks, j, mode);
      NamesStep(all, n + j, mode);
      assert n + j + 1 == n + (j + 1);
    }
  }

  lemma StandsWithin(all: seq<string>, n: nat, toks: seq<string>)
    requires StandAt(all, n, toks)
    ensures 0 < n && |all| == n + |toks|
  {}

  lemma NamesEnd(toks: seq<string>, mode: Mode)
    ensures Names(toks, |toks|, mode) == []
  {}

  lemma NamesShift(pre: seq<string>, toks: seq<string>, mode: Mode)
    requires pre != [] && Detached(pre[|pre| - 1], toks, mode)
    ensures Names(pre + toks, |pre|, mode) == Names(toks, 0, mode)
  {
    hide Names, Detached;
    var all, n := pre + toks, |pre|;
    assert StandAt(all, n, toks) && all[n - 1] == pre[n - 1];
    NamesLater(all, n, toks, 0, mode);
    assert n + 0 == n;
  }

  lemma Shifted(all: seq<string>, n: nat, toks: seq<string>, j: nat, mode: Mode)
    requires StandAt(all, n, toks) && j < |toks| && (j > 0 || Detached(all[n - 1], toks, mode))
    ensures all[n + j] == toks[j]
    ensures NextMode(mode, Prev(all, n + j), toks[j]) == NextMode(mode, Prev(toks, j), toks[j])
  {
    hide NextMode;
    if j > 0 {
      assert all[n + (j - 1)] == toks[j - 1];
    } else {
      PrevMatters(mode, all[n - 1], toks[0]);
    }
  }

  lemma PrevMatters(mode: Mode, before: string, tok: string)
    requires before == "sudo" ==> !IsFlag(tok) || !mode.Start?
    ensures NextMode(mode, before, tok) == NextMode(mode, "", tok)
  {
    hide IsEnvAssign, IsOperator, OptionTakesArg;
  }

  lemma {:induction false} NamesAcross(a: seq<string>, b: seq<string>, i: nat, mode: Mode)
    requires i <= |a|
    ensures Names(a + [";"] + b, i, mode) == Names(a, i, mode) + Names(b, 0, Start)
    decreases |a| - i
  {
    var toks := a + [";"] + b;
    hide NextMode, Emitted;
    if i == |a| {
      assert toks[i] == ";";
      OperatorRestarts(toks, i, mode);
      NamesShift(a + [";"], b, Start);
    } else {
      assert toks[i] == a[i] && Prev(toks, i) == Prev(a, i);
      NamesAcross(a, b, i + 1, NextMode(mode, Prev(a, i), a[i]));
    }
  }

  /** Reading two commands joined by a semicolon finds the names of the first, then of the second. */
  lemma ParseAcross(a: string, b: string, max: nat)
    requires max > 0
    ensures Parse(a + ";" + b, max) == Collect(Parse(a, max), Names(Tokens(b), 0, Start), max)
  {
    TokensAcrossSemicolon(a, b);
    NamesAcross(Tokens(a), Tokens(b), 0, Start);
    CollectConcat([], Names(Tokens(a), 0, Start), Names(Tokens(b), 0, Start), max);
  }

  // ---------- In front of a command word ----------

  /** A first token that is skipped leaves the rest of the command as it would read alone. */
  lemma SkippedFirst(tok: string, toks: seq<string>)
    requires Skipped("", tok) && Detached(tok, toks, Start)
    ensures Names([tok] + toks, 0, Start) == Names(toks, 0, Start)
  {
    hide Skipped;
    var all := [tok] + toks;
    assert all[0] == tok && Emitted(Start, tok) == [];
    assert Names(all, 0, Start) == Names(all, 1, Start);
    NamesShift([tok], toks, Start);
  }

  /** sudo in front of a command that does not start with a flag changes nothing. */
  lemma SudoIsTransparent(cmd: string, max: int)
    requires Tokens(cmd) == [] || !("-" <= Tokens(cmd)[0])
    ensures Parse("sudo " + cmd, max) == Parse(cmd, max)
  {
    hide Tokens, Names, Collect;
    SudoToken(cmd);
    SkippedFirst("sudo", Tokens(cmd));
  }

  lemma SudoToken(cmd: string)
    ensures Tokens("sudo " + cmd) == ["sudo"] + Tokens(cmd)
  {
    assert WellFormed("sudo");
    hide Tokens, WellFormed;
    TokenThenBlank("sudo", cmd);
    assert "sudo" + " " + cmd == "sudo " + cmd;
  }
}

/** The learned-toolchain parser: which package names a command installs through apt.

    The scan is specified by an automaton that reads one token at a time; the nested loops of
    the parser are proved to compute exactly what it emits. */
module AptParser {
  import opened Text
  import opened AptTokens

  const PACKAGE_NAME_MAX := 64

  predicate IsAlnum(c: char) {
    '0' <= c <= '9' || 'a' <= c <= 'z' || 'A' <= c <= 'Z'
  }

  predicate NameChar(c: char) {
    IsAlnum(c) || c == '.' || c == '_' || c == '+' || c == ':' || c == '-'
  }

  /** The Debian package-name grammar. */
  predicate PackageValid(s: string) {
    s != "" && IsAlnum(s[0]) && forall k :: 0 <= k < |s| ==> NameChar(s[k])
  }

  method CheckPackage(s: string) returns (ok: bool)
    ensures ok == PackageValid(s)
  {
    if s == "" {
      return false;
    }
    if !IsAlnum(s[0]) {
      return false;
    }
    var i := 0;
    while i < |s|
      invariant 0 <= i <= |s|
      invariant forall k :: 0 <= k < i ==> NameChar(s[k])
    {
      var c := s[i];
      if !(IsAlnum(c) || c == '.' || c == '_' || c == '+' || c == ':' || c == '-') {
        return false;
      }
      i := i + 1;
    }
    return true;
  }

  /** A leading VAR=value. */
  predicate IsEnvAssign(tok: string) {
    0 < IndexOf(tok, '=') < |tok| && forall k :: 0 <= k < IndexOf(tok, '=') ==> IsAlnum(tok[k]) || tok[k] == '_'
  }

  method CheckEnvAssign(tok: string) returns (ok: bool)
    ensures ok == IsEnvAssign(tok)
  {
    var eq := IndexOf(tok, '=');
    if eq == 0 || eq == |tok| {
      return false;
    }
    var i := 0;
    while i < eq
      invariant 0 <= i <= eq
      invariant forall k :: 0 <= k < i ==> IsAlnum(tok[k]) || tok[k] == '_'
    {
      if !IsAlnum(tok[i]) && tok[i] != '_' {
        return false;
      }
      i := i + 1;
    }
    return true;
  }

  predicate OptionTakesArg(tok: string) {
    tok == "-t" || tok == "-o" || tok == "-c" || tok == "-a" || tok == "--target-release" ||
    tok == "--default-release" || tok == "--option" || tok == "--config-file" || tok == "--arch"
  }

  predicate IsFlag(tok: string) { tok != "" && tok[0] == '-' }

  predicate IsApt(tok: string) { tok == "apt" || tok == "apt-get" }

  /** The name a package token stands for: up to a version pin, at most 63 bytes. */
  function NameOf(tok: string): (name: string)
    ensures |name| < PACKAGE_NAME_MAX && name <= tok
  {
    var name := tok[..IndexOf(tok, '=')];
    if |name| >= PACKAGE_NAME_MAX then name[..PACKAGE_NAME_MAX - 1] else name
  }

  // ---------- The automaton ----------

  /** At a command word, in some other command, among apt's words, or at an option's value. */
  datatype Mode = Start | Other | Apt(installing: bool) | Value(installing: bool)

  /** The token is skipped in front of a command word. */
  predicate Skipped(prev: string, tok: string) {
    IsEnvAssign(tok) || tok == "sudo" || (prev == "sudo" && IsFlag(tok))
  }

  function NextMode(mode: Mode, prev: string, tok: string): Mode {
    match mode
    case Start =>
      if Skipped(prev, tok) then Start
      else if IsApt(tok) then Apt(false)
      else if IsOperator(tok) then Start
      else Other
    case Other => if IsOperator(tok) then Start else Other
    case Value(installing) => if IsOperator(tok) then Start else Apt(installing)
    case Apt(installing) =>
      if IsOperator(tok) then Start
      else if OptionTakesArg(tok) then Value(installing)
      else if installing then mode
      else if tok == "install" then Apt(true)
      else if IsFlag(tok) then mode
      else Start // some other subcommand: the next token is a command word again
  }

  /** The package name a token contributes in a mode, if any. */
  function Emitted(mode: Mode, tok: string): seq<string> {
    if mode == Apt(true) && !IsOperator(tok) && !IsFlag(tok) && '/' !in tok && PackageValid(NameOf(tok))
    then [NameOf(tok)] else []
  }

  function Prev(toks: seq<string>, i: nat): string
    requires i <= |toks|
  {
    if i > 0 then toks[i - 1] else ""
  }

  /** Every name emitted from token i on, repeats included. */
  function Names(toks: seq<string>, i: nat, mode: Mode): seq<string>
    requires i <= |toks|
    decreases |toks| - i
  {
    if i == |toks| then []
    else Emitted(mode, toks[i]) + Names(toks, i + 1, NextMode(mode, Prev(toks, i), toks[i]))
  }

  /** Adds the names not yet found until max are found. */
  function Collect(found: seq<string>, names: seq<string>, max: nat): (r: seq<string>)
    decreases |names|
  {
    if names == [] || |found| >= max then found
    else Collect(if names[0] in found then found else found + [names[0]], names[1..], max)
  }

  function Parse(cmd: string, max: int): seq<string> {
    if max <= 0 then [] else Collect([], Names(Tokens(cmd), 0, Start), max)
  }

  // ---------- The parser's loops ----------

  /** What is found so far and what the automaton would still emit make up the result. */
  ghost predicate Ahead(toks: seq<string>, i: nat, mode: Mode, found: seq<string>, max: nat, result: seq<string>)
  {
    i <= |toks| && Collect(found, Names(toks, i, mode), max) == result
  }

  lemma Advance(toks: seq<string>, i: nat, mode: Mode, found: seq<string>, max: nat, result: seq<string>)
    requires Ahead(toks, i, mode, found, max, result) && i < |toks| && Emitted(mode, toks[i]) == []
    ensures Ahead(toks, i + 1, NextMode(mode, Prev(toks, i), toks[i]), found, max, result)
  {
    assert Names(toks, i, mode) == Names(toks, i + 1, NextMode(mode, Prev(toks, i), toks[i]));
  }

  lemma Emit(toks: seq<string>, i: nat, mode: Mode, found: seq<string>, max: nat, result: seq<string>, name: string)
    requires Ahead(toks, i, mode, found, max, result) && i < |toks| && Emitted(mode, toks[i]) == [name] && |found| < max
    ensures Ahead(toks, i + 1, NextMode(mode, Prev(toks, i), toks[i]), if name in found then found else found + [name], max, result)
  {
    var names := Names(toks, i, mode);
    assert names[0] == name && names[1..] == Names(toks, i + 1, NextMode(mode, Prev(toks, i), toks[i]));
  }

  lemma AtEnd(toks: seq<string>, i: nat, mode: Mode, found: seq<string>, max: nat, result: seq<string>)
    requires Ahead(toks, i, mode, found, max, result) && (i == |toks| || |found| >= max)
    ensures result == found && Ahead(toks, i, Start, found, max, result)
  {}

  /** Before the first token the whole result is still to come. */
  lemma ParseStarts(cmd: string, toks: seq<string>, max: nat)
    requires toks == Tokens(cmd) && max > 0
    ensures Ahead(toks, 0, Start, [], max, Parse(cmd, max))
  {}

  method ParseApt(cmd: string, max: int) returns (found: seq<string>)
    ensures found == Parse(cmd, max)
  {
    found := [];
    if cmd == "" || max <= 0 {
      assert cmd == "" ==> Tokens(cmd) == [];
      return;
    }
    var tokens := Tokenize(cmd);
    ghost var result := Parse(cmd, max);
    var i := 0;
    ParseStarts(cmd, tokens, max);
    hide Parse, Names, Collect, Tokens, Skipped, IsOperator, Ahead, IsApt, IsEnvAssign, NextMode, Emitted;
    while i < |tokens| && |found| < max
      invariant 0 <= i <= |tokens| && Ahead(tokens, i, Start, found, max, result)
      decreases |tokens| - i
    {
      i := SkipToCommand(tokens, i, found, max, result);
      if i >= |tokens| {
        break;
      }
      if !IsApt(tokens[i]) {
        i := SkipCommand(tokens, i, found, max, result);
        continue;
      }
      AtApt(tokens, i);
      Advance(tokens, i, Start, found, max, result);
      i, found := ReadApt(tokens, i + 1, found, max, result);
    }
    AtEnd(tokens, i, Start, found, max, result);
  }

  lemma AtApt(toks: seq<string>, i: nat)
    requires i < |toks| && IsApt(toks[i]) && !Skipped(Prev(toks, i), toks[i])
    ensures NextMode(Start, Prev(toks, i), toks[i]) == Apt(false) && Emitted(Start, toks[i]) == []
  {}

  /** Skips environment assignments, sudo and sudo's own flags. */
  method SkipToCommand(tokens: seq<string>, from: nat, ghost found: seq<string>, ghost max: nat, ghost result: seq<string>)
    returns (i: nat)
    requires from < |tokens| && Ahead(tokens, from, Start, found, max, result)
    ensures from <= i <= |tokens| && Ahead(tokens, i, Start, found, max, result)
    ensures i < |tokens| ==> !Skipped(Prev(tokens, i), tokens[i])
  {
    hide Ahead;
    i := from;
    while i < |tokens|
      invariant from <= i <= |tokens| && Ahead(tokens, i, Start, found, max, result)
    {
      var env := CheckEnvAssign(tokens[i]);
      if !(env || tokens[i] == "sudo" || (i > 0 && tokens[i - 1] == "sudo" && IsFlag(tokens[i]))) {
        return;
      }
      Advance(tokens, i, Start, found, max, result);
      i := i + 1;
    }
  }

  /** Skips a command that is not apt, and the operator after it. */
  method SkipCommand(tokens: seq<string>, from: nat, ghost found: seq<string>, ghost max: nat, ghost result: seq<string>)
    returns (i: nat)
    requires from < |tokens| && Ahead(tokens, from, Start, found, max, result)
    requires !Skipped(Prev(tokens, from), tokens[from]) && !IsApt(tokens[from])
    ensures from < i <= |tokens| && Ahead(tokens, i, Start, found, max, result)
  {
    hide Ahead, IsEnvAssign;
    i := from;
    ghost var mode := Start;
    while i < |tokens| && !IsOperator(tokens[i])
      invariant from <= i <= |tokens| && mode == (if i == from then Start else Other)
      invariant Ahead(tokens, i, mode, found, max, result)
    {
      Advance(tokens, i, mode, found, max, result);
      mode := Other;
      i := i + 1;
    }
    if i < |tokens| {
      Advance(tokens, i, mode, found, max, result);
      i := i + 1;
    } else {
      AtEnd(tokens, i, mode, found, max, result);
    }
  }

  /** Reads apt's words up to an operator, another subcommand, the end, or max names. */
  method ReadApt(tokens: seq<string>, from: nat, before: seq<string>, max: nat, ghost result: seq<string>)
    returns (i: nat, found: seq<string>)
    requires from <= |tokens| && Ahead(tokens, from, Apt(false), before, max, result)
    ensures from <= i <= |tokens| && Ahead(tokens, i, Start, found, max, result)
  {
    hide Ahead, IsOperator, OptionTakesArg, PackageValid;
    i, found := from, before;
    var seenInstall := false;
    ghost var mode := Apt(false);
    while i < |tokens| && !IsOperator(tokens[i]) && |found| < max
      invariant from <= i <= |tokens| && mode == Apt(seenInstall)
      invariant Ahead(tokens, i, mode, found, max, result)
      decreases |tokens| - i
    {
      var t := tokens[i];
      if IsFlag(t) && OptionTakesArg(t) {
        i := SkipOption(tokens, i, seenInstall, found, max, result);
        continue;
      }
      OptionsAreFlags(t);
      if !seenInstall {
        Advance(tokens, i, mode, found, max, result);
        i := i + 1;
        if t == "install" {
          seenInstall, mode := true, Apt(true);
        } else if !IsFlag(t) {
          mode := Start;
          break;
        }
        continue;
      }
      found := ReadPackage(tokens, i, found, max, result);
      i := i + 1;
    }
    if i < |tokens| && IsOperator(tokens[i]) {
      OperatorRestarts(tokens, i, mode);
      Advance(tokens, i, mode, found, max, result);
      i := i + 1;
    } else if mode != Start {
      AtEnd(tokens, i, mode, found, max, result);
    }
  }

  lemma OperatorRestarts(toks: seq<string>, i: nat, mode: Mode)
    requires i < |toks| && IsOperator(toks[i])
    ensures NextMode(mode, Prev(toks, i), toks[i]) == Start && Emitted(mode, toks[i]) == []
  {}

  lemma OptionsAreFlags(tok: string)
    ensures OptionTakesArg(tok) ==> IsFlag(tok)
  {}

  /** Steps over an option that takes an argument, and the argument unless the command ends there. */
  method SkipOption(tokens: seq<string>, from: nat, seenInstall: bool, ghost found: seq<string>, ghost max: nat, ghost result: seq<string>)
    returns (i: nat)
    requires from < |tokens| && OptionTakesArg(tokens[from]) && !IsOperator(tokens[from])
    requires Ahead(tokens, from, Apt(seenInstall), found, max, result)
    ensures from < i <= |tokens| && Ahead(tokens, i, Apt(seenInstall), found, max, result)
  {
    hide Ahead;
    OptionsAreFlags(tokens[from]);
    Advance(tokens, from, Apt(seenInstall), found, max, result);
    i := from + 1;
    if i < |tokens| && !IsOperator(tokens[i]) {
      Advance(tokens, i, Value(seenInstall), found, max, result);
      i := i + 1;
    } else {
      NoValue(tokens, i, seenInstall, found, max, result);
    }
  }

  /** At an operator or the end, an option still waiting for its value changes nothing. */
  lemma NoValue(toks: seq<string>, i: nat, installing: bool, found: seq<string>, max: nat, result: seq<string>)
    requires Ahead(toks, i, Value(installing), found, max, result)
    requires i == |toks| || IsOperator(toks[i])
    ensures Ahead(toks, i, Apt(installing), found, max, result)
  {
    if i < |toks| {
      OperatorRestarts(toks, i, Value(installing));
      OperatorRestarts(toks, i, Apt(installing));
    }
  }

  /** Takes the package name a token after install stands for, if it is one and is new. */
  method ReadPackage(tokens: seq<string>, i: nat, before: seq<string>, max: nat, ghost result: seq<string>)
    returns (found: seq<string>)
    requires i < |tokens| && !IsOperator(tokens[i]) && !OptionTakesArg(tokens[i]) && |before| < max
    requires Ahead(tokens, i, Apt(true), before, max, result)
    ensures Ahead(tokens, i + 1, Apt(true), found, max, result)
  {
    hide Ahead, IsOperator, OptionTakesArg, PackageValid;
    var t := tokens[i];
    found := before;
    if IsFlag(t) || '/' in t {
      Advance(tokens, i, Apt(true), before, max, result);
      return;
    }
    var name := t;
    var eq := IndexOf(name, '=');
    if eq < |name| {
      name := name[..eq];
    }
    if |name| >= PACKAGE_NAME_MAX {
      name := name[..PACKAGE_NAME_MAX - 1];
    }
    assert name == NameOf(t);
    var valid := CheckPackage(name);
    if !valid {
      Advance(tokens, i, Apt(true), before, max, result);
      return;
    }
    Emit(tokens, i, Apt(true), before, max, result, name);
    if name !in found {
      found := found + [name];
    }
  }
}

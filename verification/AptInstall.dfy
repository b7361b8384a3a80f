/** What the learned-toolchain parser finds in the commands it is for: any install, with flags,
    options and their values, version pins, paths and misspelt names anywhere among its words, and in
    front of it assignments, sudo and other commands. Every word is spelt out here in its characters. */
module AptInstall {
  import opened Text
  import opened AptTokens
  import opened AptParser
  import opened AptLaws

  // ---------- Words ----------

  predicate Alphanumeric(c: char) {
    48 <= c as int <= 57 || 65 <= c as int <= 90 || 97 <= c as int <= 122
  }

  predicate DebianChar(c: char) {
    Alphanumeric(c) || c == '.' || c == '_' || c == '+' || c == ':' || c == '-'
  }

  /** The Debian package-name grammar. */
  predicate DebianName(name: string) {
    name != "" && Alphanumeric(name[0]) && forall k :: 0 <= k < |name| ==> DebianChar(name[k])
  }

  predicate TakesValue(flag: string) {
    flag == "-t" || flag == "-o" || flag == "-c" || flag == "-a" || flag == "--target-release" ||
    flag == "--default-release" || flag == "--option" || flag == "--config-file" || flag == "--arch"
  }

  /** A word after apt's name: a flag on its own, an option with the word that is its value, a
      package name with or without a version pin, a path or address, or a misspelt name. */
  datatype Word =
    | Flag(text: string)
    | Option(flag: string, value: string)
    | Package(name: string, pin: string)
    | Path(text: string)
    | Misspelt(text: string)

  predicate Legal(w: Word) {
    match w
    case Flag(text) => IsWord(text) && text[0] == '-' && !TakesValue(text)
    case Option(flag, value) => TakesValue(flag) && IsWord(value)
    case Package(name, pin) => DebianName(name) && (pin == "" || (pin[0] == '=' && IsWord(pin) && '/' !in pin))
    case Path(text) => IsWord(text) && text[0] != '-' && '/' in text
    case Misspelt(text) =>
      IsWord(text) && text[0] != '-' &&
      (!Alphanumeric(text[0]) || exists k :: 0 < k < |text| && k < 63 && !DebianChar(text[k]) && '=' !in text[..k + 1])
  }

  predicate IsOption(w: Word) { w.Flag? || w.Option? }

  function Spelling(w: Word): seq<string> {
    match w
    case Flag(text) => [text]
    case Option(flag, value) => [flag, value]
    case Package(name, pin) => [name + pin]
    case Path(text) => [text]
    case Misspelt(text) => [text]
  }

  function Spellings(ws: seq<Word>): seq<string> {
    if ws == [] then [] else Spelling(ws[0]) + Spellings(ws[1..])
  }

  /** The name a word adds: a package's, cut to 63 bytes. */
  function Yield(w: Word): seq<string> {
    if w.Package? then [if |w.name| > 63 then w.name[..63] else w.name] else []
  }

  function Yields(ws: seq<Word>): seq<string> {
    if ws == [] then [] else Yield(ws[0]) + Yields(ws[1..])
  }

  /** The list without its repeats: each name where it first stands. */
  function FirstOccurrences(names: seq<string>): seq<string> {
    if names == [] then [] else
      var n := |names| - 1;
      FirstOccurrences(names[..n]) + if names[n] in names[..n] then [] else [names[n]]
  }

  lemma DebianNameIff(name: string)
    ensures PackageValid(name) <==> DebianName(name)
  {
    assert forall c :: IsAlnum(c) <==> Alphanumeric(c);
    assert forall c :: NameChar(c) <==> DebianChar(c);
  }

  // ---------- How the automaton reads them ----------

  /** Inside apt's words the token before makes no difference. */
  lemma ReadOne(tok: string, rest: seq<string>, mode: Mode)
    requires (mode.Apt? || mode.Value?) && !NextMode(mode, "", tok).Start?
    ensures Names([tok] + rest, 0, mode) == Emitted(mode, tok) + Names(rest, 0, NextMode(mode, "", tok))
  {
    var all, next := [tok] + rest, NextMode(mode, "", tok);
    NamesStep(all, 0, mode);
    hide Names, NextMode, Emitted;
    NamesShift([tok], rest, next);
  }

  lemma WordIsNoOperator(tok: string)
    requires IsWord(tok)
    ensures !IsOperator(tok)
  {
    WordIff(tok);
  }

  lemma FlagWord(w: Word, rest: seq<string>, installing: bool)
    requires Legal(w) && w.Flag?
    ensures Names(Spelling(w) + rest, 0, Apt(installing)) == Names(rest, 0, Apt(installing))
  {
    WordIsNoOperator(w.text);
    assert Emitted(Apt(installing), w.text) == [];
    hide Names, Emitted;
    ReadOne(w.text, rest, Apt(installing));
  }

  lemma OptionWord(w: Word, rest: seq<string>, installing: bool)
    requires Legal(w) && w.Option?
    ensures Names(Spelling(w) + rest, 0, Apt(installing)) == Names(rest, 0, Apt(installing))
  {
    WordIsNoOperator(w.value);
    assert Emitted(Apt(installing), w.flag) == [] && Emitted(Value(installing), w.value) == [];
    assert NextMode(Apt(installing), "", w.flag) == Value(installing) && NextMode(Value(installing), "", w.value) == Apt(installing);
    hide Names, Emitted, NextMode;
    ReadOne(w.flag, [w.value] + rest, Apt(installing));
    ReadOne(w.value, rest, Value(installing));
    assert Spelling(w) + rest == [w.flag] + ([w.value] + rest);
  }

  lemma NoEquals(name: string)
    requires DebianName(name)
    ensures '=' !in name
  {}

  lemma PinAt(name: string, pin: string)
    requires '=' !in name && (pin == "" || pin[0] == '=')
    ensures IndexOf(name + pin, '=') == |name|
  {
    hide IndexOf;
    if pin == "" {
      NoIndex(name, '=');
      assert name + pin == name;
    } else {
      IndexOfFirst(name, '=', pin[1..]);
      assert name + pin == name + ['='] + pin[1..];
    }
  }

  lemma PinnedName(name: string, pin: string)
    requires DebianName(name) && (pin == "" || pin[0] == '=')
    ensures IndexOf(name + pin, '=') == |name| && (name + pin)[..|name|] == name
    ensures NameOf(name + pin) == if |name| > 63 then name[..63] else name
  {
    NoEquals(name);
    PinAt(name, pin);
    hide IndexOf, DebianName;
    assert (name + pin)[..|name|] == name;
  }

  lemma PackageToken(w: Word)
    requires Legal(w) && w.Package?
    ensures var tok := w.name + w.pin;
      IsWord(tok) && tok[0] != '-' && '/' !in tok && Emitted(Apt(true), tok) == Yield(w)
  {
    var tok := w.name + w.pin;
    PinnedName(w.name, w.pin);
    assert forall k :: 0 <= k < |tok| ==> tok[k] == if k < |w.name| then w.name[k] else w.pin[k - |w.name|];
    WordIsNoOperator(tok);
    DebianNameIff(Yield(w)[0]);
    hide NameOf, PackageValid;
  }

  lemma PlainToken(tok: string, prev: string)
    requires IsWord(tok) && tok[0] != '-'
    ensures NextMode(Apt(true), prev, tok) == Apt(true)
  {
    WordIsNoOperator(tok);
    OptionsAreFlags(tok);
  }

  lemma PackageWord(w: Word, rest: seq<string>)
    requires Legal(w) && w.Package?
    ensures Names(Spelling(w) + rest, 0, Apt(true)) == Yield(w) + Names(rest, 0, Apt(true))
  {
    var tok := w.name + w.pin;
    PackageToken(w);
    PlainToken(tok, "");
    hide Names, Emitted, NextMode;
    ReadOne(tok, rest, Apt(true));
  }

  lemma MisspeltName(text: string)
    requires Legal(Misspelt(text))
    ensures !PackageValid(NameOf(text))
  {
    DebianNameIff(NameOf(text));
    hide PackageValid;
    var e := IndexOf(text, '=');
    if Alphanumeric(text[0]) {
      var k :| 0 < k < |text| && k < 63 && !DebianChar(text[k]) && '=' !in text[..k + 1];
      assert forall j :: 0 <= j <= k ==> text[..k + 1][j] == text[j];
      assert NameOf(text)[k] == text[k];
    }
  }

  lemma OtherWord(w: Word, rest: seq<string>)
    requires Legal(w) && (w.Path? || w.Misspelt?)
    ensures Names(Spelling(w) + rest, 0, Apt(true)) == Names(rest, 0, Apt(true))
  {
    PlainToken(w.text, "");
    if w.Misspelt? { MisspeltName(w.text); }
    hide NameOf, PackageValid;
    assert Emitted(Apt(true), w.text) == [];
    hide Names, Emitted, NextMode;
    ReadOne(w.text, rest, Apt(true));
  }

  lemma {:induction false} WordsBefore(ws: seq<Word>, rest: seq<string>)
    requires forall k :: 0 <= k < |ws| ==> Legal(ws[k]) && IsOption(ws[k])
    ensures Names(Spellings(ws) + rest, 0, Apt(false)) == Names(rest, 0, Apt(false))
  {
    hide Names, Legal;
    if ws == [] {
      assert Spellings(ws) + rest == rest;
    } else {
      var later := Spellings(ws[1..]) + rest;
      WordsBefore(ws[1..], rest);
      assert Spellings(ws) + rest == Spelling(ws[0]) + later;
      if ws[0].Flag? { FlagWord(ws[0], later, false); } else { OptionWord(ws[0], later, false); }
    }
  }

  lemma {:induction false} WordsAfter(ws: seq<Word>, rest: seq<string>)
    requires forall k :: 0 <= k < |ws| ==> Legal(ws[k])
    ensures Names(Spellings(ws) + rest, 0, Apt(true)) == Yields(ws) + Names(rest, 0, Apt(true))
  {
    hide Names, Legal, Yield;
    if ws == [] {
      assert Spellings(ws) + rest == rest && Yields(ws) + Names(rest, 0, Apt(true)) == Names(rest, 0, Apt(true));
    } else {
      var later := Spellings(ws[1..]) + rest;
      WordsAfter(ws[1..], rest);
      assert Spellings(ws) + rest == Spelling(ws[0]) + later;
      WordAfter(ws[0], later);
      assert Yields(ws) + Names(rest, 0, Apt(true)) == Yield(ws[0]) + (Yields(ws[1..]) + Names(rest, 0, Apt(true)));
    }
  }

  lemma WordAfter(w: Word, rest: seq<string>)
    requires Legal(w)
    ensures Names(Spelling(w) + rest, 0, Apt(true)) == Yield(w) + Names(rest, 0, Apt(true))
  {
    hide Names, Legal;
    match w
    case Flag(_) => FlagWord(w, rest, true);
    case Option(_, _) => OptionWord(w, rest, true);
    case Package(_, _) => PackageWord(w, rest);
    case Path(_) => OtherWord(w, rest);
    case Misspelt(_) => OtherWord(w, rest);
  }

  // ---------- Repeats and the limit ----------

  lemma {:induction false} CollectIs(names: seq<string>, max: nat)
    ensures Collect([], names, max) == First(FirstOccurrences(names), max)
  {
    if names == [] {
    } else {
      var n := |names| - 1;
      var init, x := names[..n], names[n];
      assert names == init + [x];
      CollectIs(init, max);
      CollectConcat([], init, [x], max);
      CollectOne(Collect([], init, max), x, max);
      OccurrencesHold(init, x);
      hide FirstOccurrences, Collect;
      FirstOfMore(FirstOccurrences(init), x, max);
      assert FirstOccurrences(names) == FirstOccurrences(init) + (if x in init then [] else [x]) by { LastOccurrence(init, x); }
    }
  }

  lemma LastOccurrence(init: seq<string>, x: string)
    ensures FirstOccurrences(init + [x]) == FirstOccurrences(init) + if x in init then [] else [x]
  {
    assert (init + [x])[..|init|] == init;
  }

  lemma CollectOne(found: seq<string>, x: string, max: nat)
    ensures Collect(found, [x], max) == if |found| >= max || x in found then found else found + [x]
  {
    assert [x][1..] == [];
  }

  lemma {:induction false} OccurrencesHold(names: seq<string>, x: string)
    ensures x in FirstOccurrences(names) <==> x in names
  {
    if names != [] {
      var n := |names| - 1;
      OccurrencesHold(names[..n], x);
      assert names == names[..n] + [names[n]];
    }
  }

  lemma FirstOfMore(all: seq<string>, x: string, max: nat)
    ensures |First(all, max)| >= max ==> First(all + [x], max) == First(all, max)
    ensures |First(all, max)| < max ==> First(all, max) == all && First(all + [x], max) == all + [x]
  {}

  // ---------- Installing ----------

  lemma AptIsNoAssignment(program: string)
    requires program == "apt" || program == "apt-get"
    ensures !IsEnvAssign(program) && program != "sudo" && !IsOperator(program) && IsWord(program)
  {
    NoIndex(program, '=');
  }

  /** Reading starts at apt's name and goes on among its words. */
  lemma Program(program: string, rest: seq<string>)
    requires program == "apt" || program == "apt-get"
    ensures Names([program] + rest, 0, Start) == Names(rest, 0, Apt(false))
  {
    var all := [program] + rest;
    AptIsNoAssignment(program);
    assert NextMode(Start, "", program) == Apt(false) && Emitted(Start, program) == [];
    NamesStep(all, 0, Start);
    hide Names, NextMode, Emitted;
    NamesShift([program], rest, Apt(false));
    assert [] + Names(rest, 0, Apt(false)) == Names(rest, 0, Apt(false));
  }

  lemma Install(rest: seq<string>)
    ensures Names(["install"] + rest, 0, Apt(false)) == Names(rest, 0, Apt(true))
  {
    InstallMode("");
    hide NextMode, Emitted, Names;
    ReadOne("install", rest, Apt(false));
  }

  function InstallTokens(program: string, before: seq<Word>, after: seq<Word>): seq<string> {
    [program] + (Spellings(before) + (["install"] + Spellings(after)))
  }

  lemma InstallNames(program: string, before: seq<Word>, after: seq<Word>)
    requires program == "apt" || program == "apt-get"
    requires forall k :: 0 <= k < |before| ==> Legal(before[k]) && IsOption(before[k])
    requires forall k :: 0 <= k < |after| ==> Legal(after[k])
    ensures Names(InstallTokens(program, before, after), 0, Start) == Yields(after)
  {
    hide Names, Legal;
    Program(program, Spellings(before) + (["install"] + Spellings(after)));
    WordsBefore(before, ["install"] + Spellings(after));
    Install(Spellings(after));
    WordsAfter(after, []);
    assert Spellings(after) + [] == Spellings(after);
    NamesEnd([], Apt(true));
    assert Yields(after) + [] == Yields(after);
  }

  lemma SpellingIsWords(w: Word)
    requires Legal(w)
    ensures forall k :: 0 <= k < |Spelling(w)| ==> IsWord(Spelling(w)[k])
  {
    hide IsWord;
    if w.Package? {
      PackageToken(w);
    } else if w.Option? {
      OptionIsWord(w.flag);
    }
    hide Emitted, DebianName, TakesValue;
  }

  lemma OptionIsWord(flag: string)
    requires TakesValue(flag)
    ensures IsWord(flag)
  {
    ShortOptions();
    LongOptions();
    hide IsWord;
  }

  lemma ShortOptions()
    ensures IsWord("-t") && IsWord("-o") && IsWord("-c") && IsWord("-a") && IsWord("--arch")
  {}

  lemma LongOptions()
    ensures IsWord("--target-release") && IsWord("--default-release") && IsWord("--option") && IsWord("--config-file")
  {}

  lemma InstallTokensAreFormed(program: string, before: seq<Word>, after: seq<Word>)
    requires program == "apt" || program == "apt-get"
    requires (forall k :: 0 <= k < |before| ==> Legal(before[k])) && forall k :: 0 <= k < |after| ==> Legal(after[k])
    ensures var toks := InstallTokens(program, before, after); forall k :: 0 <= k < |toks| ==> WellFormed(toks[k])
  {
    hide Legal, IsWord, WellFormed, Spellings;
    AptIsNoAssignment(program);
    InstallIsWord();
    SpellingsAreWords(before);
    SpellingsAreWords(after);
    WordsAreWellFormed(Spellings(before));
    WordsAreWellFormed(Spellings(after));
    WordsAreWellFormed([program, "install"]);
    assert [program, "install"][0] == program && [program, "install"][1] == "install";
    FormedTogether(program, Spellings(before), "install", Spellings(after));
  }

  lemma {:induction false} SpellingsAreWords(ws: seq<Word>)
    requires forall k :: 0 <= k < |ws| ==> Legal(ws[k])
    ensures forall k :: 0 <= k < |Spellings(ws)| ==> IsWord(Spellings(ws)[k])
  {
    hide Legal, IsWord;
    if ws != [] {
      SpellingIsWords(ws[0]);
      SpellingsAreWords(ws[1..]);
    }
  }

  /** Installing yields exactly the package names after the word install, each once, in order, and up
      to the limit, whatever options stand in front of it and whatever else among them. */
  lemma InstallYields(program: string, before: seq<Word>, after: seq<Word>, max: int)
    requires program == "apt" || program == "apt-get"
    requires forall k :: 0 <= k < |before| ==> Legal(before[k]) && IsOption(before[k])
    requires forall k :: 0 <= k < |after| ==> Legal(after[k])
    ensures Parse(Join(InstallTokens(program, before, after)), max) == First(FirstOccurrences(Yields(after)), max)
  {
    hide Names, Legal, Join, Tokens, Collect, Yields, FirstOccurrences, WellFormed, InstallTokens;
    var toks := InstallTokens(program, before, after);
    InstallTokensAreFormed(program, before, after);
    TokensOfJoin(toks);
    InstallNames(program, before, after);
    if max > 0 { CollectIs(Yields(after), max); }
  }

  lemma InstallIsWord()
    ensures IsWord("install")
  {}

  // ---------- In front of a command ----------

  /** A word with an equals sign behind a name of letters, digits and underscores. */
  predicate Assigns(tok: string) {
    exists n :: 0 < n < |tok| && tok[n] == '=' && forall k :: 0 <= k < n ==> Alphanumeric(tok[k]) || tok[k] == '_'
  }

  lemma AssignsIff(tok: string)
    ensures IsEnvAssign(tok) <==> Assigns(tok)
  {
    var e := IndexOf(tok, '=');
    if Assigns(tok) {
      var n :| 0 < n < |tok| && tok[n] == '=' && forall k :: 0 <= k < n ==> Alphanumeric(tok[k]) || tok[k] == '_';
      assert e == n;
    }
  }

  /** Nor does an environment assignment in front of any command change a result. */
  lemma AssignmentIsTransparent(assignment: string, cmd: string, max: int)
    requires IsWord(assignment) && Assigns(assignment)
    ensures Parse(assignment + " " + cmd, max) == Parse(cmd, max)
  {
    hide Tokens, Names, Collect, IsWord, Assigns;
    TokenThenBlank(assignment, cmd);
    AssignsIff(assignment);
    assert assignment != "sudo" by { NoIndex("sudo", '='); }
    hide IsEnvAssign;
    SkippedFirst(assignment, Tokens(cmd));
  }

  /** sudo's own flag, right behind it, is passed over with it. */
  lemma SudoFlagIsTransparent(flag: string, cmd: string, max: int)
    requires IsWord(flag) && flag[0] == '-'
    ensures Parse("sudo " + (flag + " " + cmd), max) == Parse(cmd, max)
  {
    hide Tokens, Names, Collect;
    var toks := Tokens(cmd);
    SudoToken(flag + " " + cmd);
    TokenThenBlank(flag, cmd);
    SudoThenFlag(flag, toks);
    assert ["sudo"] + ([flag] + toks) == ["sudo", flag] + toks;
  }

  lemma SudoThenFlag(flag: string, toks: seq<string>)
    requires IsWord(flag) && flag[0] == '-'
    ensures Names(["sudo", flag] + toks, 0, Start) == Names(toks, 0, Start)
  {
    hide IsEnvAssign, Names;
    var all := ["sudo", flag] + toks;
    NamesStep(all, 0, Start);
    NamesStep(all, 1, Start);
    NamesShift(["sudo", flag], toks, Start);
    assert all[1] == flag && Prev(all, 1) == "sudo";
  }

  /** A word that starts some other command: neither an assignment, nor sudo, nor apt. */
  predicate StartsOther(tok: string) {
    IsWord(tok) && !Assigns(tok) && tok != "sudo" && tok != "apt" && tok != "apt-get"
  }

  lemma {:induction false} OtherWords(toks: seq<string>, i: nat)
    requires i <= |toks| && forall k :: 0 <= k < |toks| ==> IsWord(toks[k])
    ensures Names(toks, i, Other) == []
    decreases |toks| - i
  {
    hide IsWord;
    if i < |toks| {
      WordIsNoOperator(toks[i]);
      OtherWords(toks, i + 1);
    }
  }

  /** Nothing is found in another command, whatever its words, apt and install included. */
  lemma OtherCommandYieldsNothing(tok: string, words: seq<string>, max: int)
    requires StartsOther(tok) && forall k :: 0 <= k < |words| ==> IsWord(words[k])
    ensures Parse(Join([tok] + words), max) == []
  {
    var toks := [tok] + words;
    hide Names, Join, Tokens, Collect, IsWord;
    TokensOfJoin(toks);
    OtherWords(toks, 1);
    WordIsNoOperator(tok);
    AssignsIff(tok);
    hide IsEnvAssign, IsOperator;
    NamesStep(toks, 0, Start);
    CollectNothing(max);
  }

  lemma CollectNothing(max: int)
    ensures max > 0 ==> Collect([], [], max) == []
  {}

  /** After another subcommand of apt the next word is read as the start of a command again. */
  lemma OtherSubcommand(program: string, before: seq<Word>, word: string, rest: seq<string>, max: int)
    requires program == "apt" || program == "apt-get"
    requires forall k :: 0 <= k < |before| ==> Legal(before[k]) && IsOption(before[k])
    requires IsWord(word) && word[0] != '-' && word != "install" && word != "sudo"
    requires forall k :: 0 <= k < |rest| ==> WellFormed(rest[k])
    ensures Parse(Join([program] + (Spellings(before) + ([word] + rest))), max) == Parse(Join(rest), max)
  {
    hide Names, Legal, Join, Tokens, Collect, WellFormed, IsWord;
    SubcommandTokens(program, before, word, rest);
    SubcommandNames(program, before, word, rest);
  }

  lemma SubcommandTokens(program: string, before: seq<Word>, word: string, rest: seq<string>)
    requires program == "apt" || program == "apt-get"
    requires (forall k :: 0 <= k < |before| ==> Legal(before[k])) && IsWord(word)
    requires forall k :: 0 <= k < |rest| ==> WellFormed(rest[k])
    ensures var toks := [program] + (Spellings(before) + ([word] + rest)); Tokens(Join(toks)) == toks
    ensures Tokens(Join(rest)) == rest
  {
    hide Legal, Join, Tokens, WellFormed, IsWord;
    AptIsNoAssignment(program);
    SpellingsAreWords(before);
    WordsAreWellFormed(Spellings(before));
    WordsAreWellFormed([program, word]);
    assert [program, word][0] == program && [program, word][1] == word;
    FormedTogether(program, Spellings(before), word, rest);
    TokensOfJoin([program] + (Spellings(before) + ([word] + rest)));
    TokensOfJoin(rest);
  }

  lemma SubcommandNames(program: string, before: seq<Word>, word: string, rest: seq<string>)
    requires program == "apt" || program == "apt-get"
    requires forall k :: 0 <= k < |before| ==> Legal(before[k]) && IsOption(before[k])
    requires IsWord(word) && word[0] != '-' && word != "install" && word != "sudo"
    ensures Names([program] + (Spellings(before) + ([word] + rest)), 0, Start) == Names(rest, 0, Start)
  {
    hide Names, Legal;
    Program(program, Spellings(before) + ([word] + rest));
    WordsBefore(before, [word] + rest);
    SubcommandWord(word, rest);
  }

  lemma WordsAreWellFormed(toks: seq<string>)
    ensures forall k :: 0 <= k < |toks| && IsWord(toks[k]) ==> WellFormed(toks[k])
  {
    hide IsWord;
  }

  lemma FormedTogether(program: string, words: seq<string>, word: string, rest: seq<string>)
    requires WellFormed(program) && WellFormed(word)
    requires (forall k :: 0 <= k < |words| ==> WellFormed(words[k])) && forall k :: 0 <= k < |rest| ==> WellFormed(rest[k])
    ensures var toks := [program] + (words + ([word] + rest)); forall k :: 0 <= k < |toks| ==> WellFormed(toks[k])
  {
    hide WellFormed;
  }

  lemma SubcommandWord(word: string, rest: seq<string>)
    requires IsWord(word) && word[0] != '-' && word != "install" && word != "sudo"
    ensures Names([word] + rest, 0, Apt(false)) == Names(rest, 0, Start)
  {
    var all := [word] + rest;
    WordIsNoOperator(word);
    OptionsAreFlags(word);
    assert NextMode(Apt(false), "", word) == Start && Emitted(Apt(false), word) == [];
    NamesStep(all, 0, Apt(false));
    hide Names, NextMode, Emitted;
    NamesShift([word], rest, Start);
    assert [] + Names(rest, 0, Start) == Names(rest, 0, Start);
  }
}

/** Laws of learning over whole histories: observing commands composes over a semicolon, a
    history leaves the same loaded set in whatever order its names came, and lists keep their
    shape. */
module LearnedLaws {
  import opened Sequences
  import opened AptTokens
  import opened AptParser
  import opened AptLaws
  import AptInstall
  import opened LearnedStore

  // ---------- Collecting in two stages ----------

  function Elements(s: seq<string>): set<string> {
    set x | x in s
  }

  lemma {:induction false} DistinctCount(s: seq<string>)
    requires Distinct(s)
    ensures |Elements(s)| == |s|
  {
    if s == [] {
      assert Elements(s) == {};
    } else {
      DistinctCount(s[1..]);
      assert Elements(s) == Elements(s[1..]) + {s[0]};
      assert s[0] !in s[1..];
    }
  }

  lemma SubsetCount(a: set<string>, b: set<string>)
    requires a <= b
    ensures |a| <= |b| && (|a| == |b| ==> a == b)
  {
    assert b == a + (b - a);
    assert |b - a| == 0 ==> b - a == {};
  }

  /** Collected names either fill the limit or include every name offered. */
  lemma {:induction false} FullOrAll(found: seq<string>, names: seq<string>, max: nat)
    ensures |Collect(found, names, max)| >= max || Elements(names) <= Elements(Collect(found, names, max))
    decreases |names|
  {
    if names != [] && |found| < max {
      var next := if names[0] in found then found else found + [names[0]];
      FullOrAll(next, names[1..], max);
      CollectExtends(next, names[1..], max);
      assert names[0] in next;
      ElementsOfFirst(names);
    }
  }

  lemma FullWhenOffered(list: seq<string>, found: seq<string>, max: nat)
    requires Distinct(found) && |found| >= max
    ensures |Collect(list, found, max)| >= max
  {
    FullOrAll(list, found, max);
    var all := Collect(list, found, max);
    if |all| < max {
      DistinctCount(found);
      SubsetCount(Elements(found), Elements(all));
      ElementsAtMost(all);
      assert false;
    }
  }

  lemma {:induction false} ElementsAtMost(s: seq<string>)
    ensures |Elements(s)| <= |s|
  {
    if s == [] {
      assert Elements(s) == {};
    } else {
      ElementsAtMost(s[1..]);
      assert Elements(s) == Elements(s[1..]) + {s[0]};
    }
  }

  lemma CollectFirst(list: seq<string>, names: seq<string>, max: nat)
    requires names != []
    ensures Collect(list, names, max) == Collect(Collect(list, [names[0]], max), names[1..], max)
  {
    assert [names[0]] + names[1..] == names;
    CollectConcat(list, [names[0]], names[1..], max);
  }

  /** Capping and deduplicating names before they are offered to a capped list changes nothing. */
  lemma {:induction false} CollectAbsorbs(list: seq<string>, found: seq<string>, names: seq<string>, max: nat)
    requires Distinct(found)
    ensures Collect(list, Collect(found, names, max), max) == Collect(Collect(list, found, max), names, max)
    decreases |names|
  {
    if |found| >= max {
      FullWhenOffered(list, found, max);
    } else if names != [] {
      var n := names[0];
      var kept := Collect(list, found, max);
      CollectFirst(kept, names, max);
      if n in found {
        CollectAbsorbs(list, found, names[1..], max);
        FullOrAll(list, found, max);
        assert n in Elements(found);
        assert Collect(kept, [n], max) == kept;
      } else {
        CollectAbsorbs(list, found + [n], names[1..], max);
        CollectConcat(list, found, [n], max);
      }
    }
  }

  // ---------- Observing composes over a semicolon ----------

  lemma {:induction false} AllValid(names: seq<string>)
    requires forall x :: x in names ==> PackageValid(x)
    ensures ValidOnly(names) == names
  {
    if names != [] { AllValid(names[1..]); }
  }

  /** A project's list after a command is observed. */
  function After(list: seq<string>, cmd: string): seq<string> {
    Learn(list, Parse(cmd, LEARN_MAX))
  }

  lemma AfterCollects(list: seq<string>, cmd: string)
    ensures After(list, cmd) == Collect(list, Names(Tokens(cmd), 0, Start), LEARN_MAX)
  {
    ParseShape(cmd, LEARN_MAX);
    AllValid(Parse(cmd, LEARN_MAX));
    var names := Names(Tokens(cmd), 0, Start);
    CollectAbsorbs(list, [], names, LEARN_MAX);
    assert Collect(list, [], LEARN_MAX) == list;
  }

  /** Both limits notwithstanding, learning from a; b is learning from a and then from b. */
  lemma LearnAcross(list: seq<string>, a: string, b: string)
    ensures After(list, a + ";" + b) == After(After(list, a), b)
  {
    hide After, Collect, Names, Tokens;
    AfterCollects(list, a);
    AfterCollects(After(list, a), b);
    AfterCollects(list, a + ";" + b);
    TokensAcrossSemicolon(a, b);
    NamesAcross(Tokens(a), Tokens(b), 0, Start);
    CollectConcat(list, Names(Tokens(a), 0, Start), Names(Tokens(b), 0, Start), LEARN_MAX);
  }

  /** The document a record call would write is within the size a read accepts. */
  predicate FitsStore(file: File, root: string, names: seq<string>, sizeOf: Document -> nat) {
    0 < sizeOf(Contents(file)[root := Learned(file, root, names)]) <= 1024 * 1024
  }

  /** A record call will write nothing, or a document the next call can read. */
  predicate Settled(file: File, root: string, names: seq<string>, sizeOf: Document -> nat) {
    root == "" || Learned(file, root, names) == Known(file, root) || FitsStore(file, root, names, sizeOf)
  }

  predicate Composes(file: File, root: string, a: string, b: string, sizeOf: Document -> nat) {
    Observed(Observed(file, root, a, sizeOf), root, b, sizeOf) == Observed(file, root, a + ";" + b, sizeOf)
  }

  lemma LearnExtends(list: seq<string>, names: seq<string>)
    ensures list <= Learn(list, names)
  {
    CollectExtends(list, ValidOnly(names), LEARN_MAX);
  }

  /** While the document can be read back, observing two commands leaves the same file as
      observing the two joined by a semicolon. */
  lemma ObserveAcross(file: File, root: string, a: string, b: string, sizeOf: Document -> nat)
    requires Settled(file, root, Parse(a, LEARN_MAX), sizeOf)
    ensures Composes(file, root, a, b, sizeOf)
  {
    hide Parse, Learn;
    var list := Known(file, root);
    LearnAcross(list, a, b);
    LearnExtends(list, Parse(a, LEARN_MAX));
    LearnExtends(After(list, a), Parse(b, LEARN_MAX));
    if root != "" && After(list, a) != list {
      var doc := Contents(file);
      var middle := Observed(file, root, a, sizeOf);
      assert Contents(middle) == doc[root := After(list, a)];
      assert doc[root := After(list, a)][root := After(After(list, a), b)] == doc[root := After(After(list, a), b)];
    }
  }

  /** There is a command that teaches a fresh project just this name. */
  lemma Teaches(name: string) returns (cmd: string)
    requires Learnable(name)
    ensures Parse(cmd, LEARN_MAX) == [name] && After([], cmd) == [name]
  {
    var words := [AptInstall.Package(name, "")];
    cmd := Join(AptInstall.InstallTokens("apt", [], words));
    AptInstall.DebianNameIff(name);
    AptInstall.InstallYields("apt", [], words, LEARN_MAX);
    assert AptInstall.Yields(words) == [name] && AptInstall.FirstOccurrences([name]) == [name];
    AllValid([name]);
    CollectDistinct([], [name], LEARN_MAX);
  }

  /** The name differs from the only one a list holds. */
  lemma OtherName(list: seq<string>) returns (name: string)
    ensures Learnable(name) && list != [name]
  {
    name := if list == ["a"] then "b" else "a";
  }

  lemma ObserveSplits(file: File, root: string, a: string, sizeOf: Document -> nat) returns (b: string)
    requires !Settled(file, root, Parse(a, LEARN_MAX), sizeOf)
    ensures !Composes(file, root, a, b, sizeOf)
  {
    hide Parse, Learn, Learnable;
    var list := Known(file, root);
    LearnExtends(list, Parse(a, LEARN_MAX));
    var name := OtherName(After(list, a));
    b := Teaches(name);
    LearnAcross(list, a, b);
    LearnExtends(After(list, a), Parse(b, LEARN_MAX));
    var twice := Observed(Observed(file, root, a, sizeOf), root, b, sizeOf);
    var once := Observed(file, root, a + ";" + b, sizeOf);
    assert twice.doc[root] == [name];
    assert once.doc[root] == After(After(list, a), b);
  }

  /** Every second command composes exactly when the first leaves a readable file, or no change. */
  lemma ObserveAcrossIff(file: File, root: string, a: string, sizeOf: Document -> nat)
    ensures Settled(file, root, Parse(a, LEARN_MAX), sizeOf) <==> forall b :: Composes(file, root, a, b, sizeOf)
  {
    if Settled(file, root, Parse(a, LEARN_MAX), sizeOf) {
      forall b ensures Composes(file, root, a, b, sizeOf) { ObserveAcross(file, root, a, b, sizeOf); }
    } else {
      var b := ObserveSplits(file, root, a, sizeOf);
    }
  }

  /** What a call learned is there for the next call exactly when the document stays within the
      size a read accepts; an oversized document reads as an empty one, for every project. */
  lemma LearnedIsReadBack(file: File, root: string, names: seq<string>, sizeOf: Document -> nat, other: string)
    requires root != "" && Learned(file, root, names) != Known(file, root)
    ensures Known(Recorded(file, root, names, sizeOf), root) == Learned(file, root, names) <==> FitsStore(file, root, names, sizeOf)
    ensures FitsStore(file, root, names, sizeOf) && other != root ==> Known(Recorded(file, root, names, sizeOf), other) == Known(file, other)
    ensures !FitsStore(file, root, names, sizeOf) ==> Known(Recorded(file, root, names, sizeOf), other) == []
  {
    LearnExtends(Known(file, root), names);
  }

  /** A store that never fits: with any encoding at least as long as the roots it holds, the first
      package of a project whose root is longer than the limit is written and not read back, and
      some second command then does not compose with the first. */
  lemma LongRootIsLost(root: string, sizeOf: Document -> nat)
    returns (first: string, second: string)
    requires |root| > MAX_STORE_BYTES && forall d: Document, r :: r in d ==> sizeOf(d) >= |r|
    ensures !Settled(Missing, root, Parse(first, LEARN_MAX), sizeOf)
    ensures Learned(Missing, root, Parse(first, LEARN_MAX)) == ["a"]
    ensures Known(Observed(Missing, root, first, sizeOf), root) == []
    ensures !Composes(Missing, root, first, second, sizeOf)
  {
    hide Parse, Learn, Learnable;
    var name := LearnableA();
    first := Teaches(name);
    var doc := Contents(Missing)[root := Learned(Missing, root, Parse(first, LEARN_MAX))];
    assert root in doc;
    second := ObserveSplits(Missing, root, first, sizeOf);
  }

  lemma LearnableA() returns (name: string)
    ensures name == "a" && Learnable(name)
  {
    name := "a";
  }

  // ---------- Histories ----------

  datatype Offer = Offer(root: string, names: seq<string>)

  function Run(file: File, history: seq<Offer>, sizeOf: Document -> nat): File
    decreases |history|
  {
    if history == [] then file
    else Run(Recorded(file, history[0].root, history[0].names, sizeOf), history[1..], sizeOf)
  }

  /** Every call of the history leaves a file that reads back. */
  predicate AllSettled(file: File, history: seq<Offer>, sizeOf: Document -> nat)
    decreases |history|
  {
    history == [] ||
    (Settled(file, history[0].root, history[0].names, sizeOf) &&
     AllSettled(Recorded(file, history[0].root, history[0].names, sizeOf), history[1..], sizeOf))
  }

  /** Everything offered to one project, in order. */
  function OfferedTo(history: seq<Offer>, root: string): seq<string> {
    if history == [] then []
    else (if history[0].root == root then history[0].names else []) + OfferedTo(history[1..], root)
  }

  lemma {:induction false} ValidOnlyConcat(a: seq<string>, b: seq<string>)
    ensures ValidOnly(a + b) == ValidOnly(a) + ValidOnly(b)
  {
    if a == [] {
      assert a + b == b;
    } else {
      assert (a + b)[1..] == a[1..] + b;
      ValidOnlyConcat(a[1..], b);
    }
  }

  lemma LearnConcat(list: seq<string>, a: seq<string>, b: seq<string>)
    ensures Learn(list, a + b) == Learn(Learn(list, a), b)
  {
    ValidOnlyConcat(a, b);
    CollectConcat(list, ValidOnly(a), ValidOnly(b), LEARN_MAX);
  }

  /** A history leaves each project what that project's own offers, one after another, add up to. */
  lemma {:induction false} RunLearns(file: File, history: seq<Offer>, sizeOf: Document -> nat, root: string)
    requires AllSettled(file, history, sizeOf) && root != ""
    ensures Known(Run(file, history, sizeOf), root) == Learn(Known(file, root), OfferedTo(history, root))
    decreases |history|
  {
    if history != [] {
      var next := Recorded(file, history[0].root, history[0].names, sizeOf);
      RunLearns(next, history[1..], sizeOf, root);
      hide Learn;
      if history[0].root == root {
        LearnConcat(Known(file, root), history[0].names, OfferedTo(history[1..], root));
        assert Known(next, root) == Learned(file, root, history[0].names);
      } else {
        assert Known(next, root) == Known(file, root);
        assert [] + OfferedTo(history[1..], root) == OfferedTo(history[1..], root);
      }
    }
  }

  /** What a project loads from a file. */
  function Loaded(file: File, root: string, max: int): seq<string> {
    SortStrings(First(ValidOnly(Known(file, root)), max))
  }

  // ---------- Order independence ----------

  lemma {:induction false} CollectsAll(found: seq<string>, names: seq<string>, max: nat, all: set<string>)
    requires Distinct(found) && Elements(found) <= all && Elements(names) <= all && |all| <= max
    ensures Distinct(Collect(found, names, max))
    ensures Elements(Collect(found, names, max)) == Elements(found) + Elements(names)
    decreases |names|
  {
    hide Distinct, Elements;
    if names == [] {
      ElementsOfNone();
    } else if |found| >= max {
      DistinctCount(found);
      SubsetCount(Elements(found), all);
    } else {
      ElementsOfFirst(names);
      AddOne(found, names[0]);
      CollectsAll(if names[0] in found then found else found + [names[0]], names[1..], max, all);
    }
  }

  lemma ElementsOfNone()
    ensures Elements([]) == {}
  {}

  lemma ElementsOfFirst(names: seq<string>)
    requires names != []
    ensures Elements(names) == {names[0]} + Elements(names[1..])
  {}

  lemma AddOne(found: seq<string>, name: string)
    requires Distinct(found)
    ensures Elements(if name in found then found else found + [name]) == Elements(found) + {name}
    ensures Distinct(if name in found then found else found + [name])
  {}

  lemma {:induction false} DistinctCounts(s: seq<string>, x: string)
    requires Distinct(s)
    ensures multiset(s)[x] == if x in s then 1 else 0
  {
    if s != [] {
      assert s == [s[0]] + s[1..];
      DistinctCounts(s[1..], x);
    }
  }

  lemma SameElementsSameMultiset(a: seq<string>, b: seq<string>)
    requires Distinct(a) && Distinct(b) && Elements(a) == Elements(b)
    ensures multiset(a) == multiset(b)
  {
    forall x ensures multiset(a)[x] == multiset(b)[x] {
      DistinctCounts(a, x);
      DistinctCounts(b, x);
      assert x in a <==> x in Elements(a);
    }
  }

  lemma {:induction false} SortedUnique(a: seq<string>, b: seq<string>)
    requires Sorted(a) && Sorted(b) && multiset(a) == multiset(b)
    ensures a == b
  {
    if a == [] {
      assert |multiset(b)| == 0;
    } else {
      SameSmallest(a, b);
      SortedTail(a);
      SortedTail(b);
      hide Sorted;
      SortedUnique(a[1..], b[1..]);
    }
  }

  lemma SortedTail(a: seq<string>)
    requires Sorted(a) && a != []
    ensures Sorted(a[1..]) && multiset(a[1..]) == multiset(a) - multiset{a[0]} && a == [a[0]] + a[1..]
  {
    hide LessEq;
    assert a == [a[0]] + a[1..];
  }

  lemma SameSmallest(a: seq<string>, b: seq<string>)
    requires Sorted(a) && Sorted(b) && multiset(a) == multiset(b) && a != []
    ensures b != [] && a[0] == b[0]
  {
    hide LessEq;
    assert |multiset(a)| == |multiset(b)|;
    assert a[0] in multiset(b) && b[0] in multiset(a);
    LessEqTotal(a[0], b[0]);
    LessEqTotal(a[0], a[0]);
  }

  lemma SortForgetsOrder(a: seq<string>, b: seq<string>)
    requires Distinct(a) && Distinct(b) && Elements(a) == Elements(b)
    ensures SortStrings(a) == SortStrings(b)
  {
    SameElementsSameMultiset(a, b);
    SortedUnique(SortStrings(a), SortStrings(b));
  }

  /** Two lists of names from which a fresh project loads the same set, sorted the same way. */
  lemma LearnForgetsOrder(a: seq<string>, b: seq<string>, max: int)
    requires Elements(ValidOnly(a)) == Elements(ValidOnly(b)) && |Elements(ValidOnly(a))| <= LEARN_MAX && |Elements(ValidOnly(a))| <= max
    ensures SortStrings(First(ValidOnly(Learn([], a)), max)) == SortStrings(First(ValidOnly(Learn([], b)), max))
  {
    var all := Elements(ValidOnly(a));
    LearnKeepsAll(a, max, all);
    LearnKeepsAll(b, max, all);
    SortForgetsOrder(Learn([], a), Learn([], b));
  }

  lemma LearnKeepsAll(names: seq<string>, max: int, all: set<string>)
    requires Elements(ValidOnly(names)) == all && |all| <= LEARN_MAX && |all| <= max
    ensures Distinct(Learn([], names)) && Elements(Learn([], names)) == all
    ensures First(ValidOnly(Learn([], names)), max) == Learn([], names)
  {
    CollectsAll([], ValidOnly(names), LEARN_MAX, all);
    var list := Learn([], names);
    assert forall x :: x in list ==> x in all;
    AllValid(list);
    DistinctCount(list);
  }

  /** Two histories that offer a fresh project the same valid names, at most the limit of them,
      load the same, whatever the order, the grouping, the repeats and the other projects. */
  lemma LoadForgetsOrder(file: File, h1: seq<Offer>, h2: seq<Offer>, sizeOf: Document -> nat, root: string, max: int)
    requires AllSettled(file, h1, sizeOf) && AllSettled(file, h2, sizeOf) && root != "" && Known(file, root) == []
    requires Elements(ValidOnly(OfferedTo(h1, root))) == Elements(ValidOnly(OfferedTo(h2, root)))
    requires |Elements(ValidOnly(OfferedTo(h1, root)))| <= LEARN_MAX && |Elements(ValidOnly(OfferedTo(h1, root)))| <= max
    ensures Loaded(Run(file, h1, sizeOf), root, max) == Loaded(Run(file, h2, sizeOf), root, max)
  {
    hide Learn, AllSettled, OfferedTo, SortStrings;
    RunLearns(file, h1, sizeOf, root);
    RunLearns(file, h2, sizeOf, root);
    LearnForgetsOrder(OfferedTo(h1, root), OfferedTo(h2, root), max);
  }

  /** What a fresh project loads after a list of names is offered. */
  function LoadedAfter(names: seq<string>): seq<string> {
    SortStrings(First(ValidOnly(Learn([], names)), LEARN_MAX))
  }

  predicate LoadsAlike(a: seq<string>, b: seq<string>) {
    Elements(a) == Elements(b) ==> LoadedAfter(a) == LoadedAfter(b)
  }

  /** Order makes no difference exactly up to the limit: above it, which names stay depends on it. */
  lemma OrderMattersIff(names: seq<string>)
    requires Distinct(names) && forall x :: x in names ==> PackageValid(x)
    ensures (forall other :: LoadsAlike(names, other)) <==> |names| <= LEARN_MAX
  {
    DistinctCount(names);
    AllValid(names);
    if |names| <= LEARN_MAX {
      forall other ensures LoadsAlike(names, other) {
        if Elements(names) == Elements(other) {
          assert forall x :: x in other ==> x in Elements(other);
          AllValid(other);
          LearnForgetsOrder(names, other, LEARN_MAX);
        }
      }
    } else {
      LastComesFirst(names);
    }
  }

  /** Distinct valid names of one to sixty equal letters each. */
  function NameNumber(i: nat): (name: string)
    requires i < 240
    ensures |name| == 1 + i % 60 && forall k :: 0 <= k < |name| ==> name[k] == 'a' + (i / 60) as char
  {
    seq(1 + i % 60, _ => 'a' + (i / 60) as char)
  }

  function NamesUpTo(n: nat): (names: seq<string>)
    requires n <= 240
    ensures |names| == n && forall i :: 0 <= i < n ==> names[i] == NameNumber(i)
  {
    seq(n, i requires 0 <= i < n => NameNumber(i))
  }

  lemma NamesDiffer(i: nat, j: nat)
    requires i < j < 240
    ensures NameNumber(i) != NameNumber(j) && PackageValid(NameNumber(i))
  {
    assert i == 60 * (i / 60) + i % 60 && j == 60 * (j / 60) + j % 60;
    if i % 60 == j % 60 {
      assert NameNumber(i)[0] != NameNumber(j)[0];
    }
  }

  /** One name over the limit is enough: these 129 names load differently in another order. */
  lemma OneTooMany() returns (names: seq<string>, other: seq<string>)
    ensures |names| == 129 && Distinct(names) && forall x :: x in names ==> PackageValid(x)
    ensures Elements(names) == Elements(other) && LoadedAfter(names) != LoadedAfter(other)
  {
    names := NamesUpTo(LEARN_MAX + 1);
    forall i, j | 0 <= i < j < |names| ensures names[i] != names[j] { NamesDiffer(i, j); }
    forall x | x in names ensures PackageValid(x) {
      var i :| 0 <= i < |names| && names[i] == x;
      NamesDiffer(i, 239);
    }
    hide NamesUpTo, PackageValid, LoadedAfter, Elements;
    LastComesFirst(names);
    other :| !LoadsAlike(names, other);
  }

  lemma LoadsFirst(names: seq<string>)
    requires Distinct(names) && forall x :: x in names ==> PackageValid(x)
    ensures forall x :: x in LoadedAfter(names) <==> x in First(names, LEARN_MAX)
  {
    AllValid(names);
    assert [] + names == names;
    CollectDistinct([], names, LEARN_MAX);
    var kept := First(names, LEARN_MAX);
    AllValid(kept);
    forall x ensures x in LoadedAfter(names) <==> x in kept {
      assert x in multiset(LoadedAfter(names)) <==> x in multiset(kept);
    }
  }

  lemma LastComesFirst(names: seq<string>)
    requires Distinct(names) && |names| > LEARN_MAX && forall x :: x in names ==> PackageValid(x)
    ensures exists other :: !LoadsAlike(names, other)
  {
    hide PackageValid, LoadedAfter, Distinct;
    var other := LastFirst(names);
    LastFirstIsReordered(names);
    LoadsFirst(names);
    LoadsFirst(other);
    LastIsLeftOut(names);
    assert First(other, LEARN_MAX)[0] == names[|names| - 1];
    hide First, Elements, LastFirst;
    assert !LoadsAlike(names, other);
  }

  function LastFirst(names: seq<string>): seq<string>
    requires names != []
  {
    [names[|names| - 1]] + names[..|names| - 1]
  }

  lemma LastFirstIsReordered(names: seq<string>)
    requires names != [] && Distinct(names)
    ensures Elements(LastFirst(names)) == Elements(names) && Distinct(LastFirst(names))
    ensures forall x :: x in LastFirst(names) ==> x in names
  {
    var init, last := names[..|names| - 1], names[|names| - 1];
    assert names == init + [last];
    assert forall x :: x in Elements(LastFirst(names)) <==> x == last || x in init;
    assert forall x :: x in Elements(names) <==> x == last || x in init;
  }

  lemma LastIsLeftOut(names: seq<string>)
    requires Distinct(names) && |names| > LEARN_MAX
    ensures names[|names| - 1] !in First(names, LEARN_MAX)
  {}

  // ---------- The shape of what is kept ----------

  ghost predicate Kept(list: seq<string>) {
    Distinct(list) && |list| <= LEARN_MAX && forall x :: x in list ==> PackageValid(x)
  }

  lemma LearnKeeps(list: seq<string>, names: seq<string>)
    requires Kept(list)
    ensures Kept(Learn(list, names)) && list <= Learn(list, names)
  {
    CollectShape(list, ValidOnly(names), LEARN_MAX);
    LearnExtends(list, names);
  }

  ghost predicate AllKept(file: File) {
    forall root :: root in Contents(file) ==> Kept(Contents(file)[root])
  }

  /** Every history keeps every project's list valid, distinct and within the limit, and while
      files read back nothing once learned is lost. */
  lemma {:induction false} RunKeeps(file: File, history: seq<Offer>, sizeOf: Document -> nat)
    requires AllKept(file)
    ensures AllKept(Run(file, history, sizeOf))
    ensures AllSettled(file, history, sizeOf) ==> forall root :: Known(file, root) <= Known(Run(file, history, sizeOf), root)
    decreases |history|
  {
    if history != [] {
      var root, names := history[0].root, history[0].names;
      var next := Recorded(file, root, names, sizeOf);
      LearnKeeps(Known(file, root), names);
      hide Learn, Kept;
      assert forall r :: r != root ==> Known(next, r) == Known(file, r) || Known(next, r) == [];
      RunKeeps(next, history[1..], sizeOf);
    }
  }

  // ---------- What is learned and loaded ----------

  /** The order of bytes: a before b, at the first place where they differ or by ending first. */
  ghost predicate InOrder(a: string, b: string) {
    a <= b || exists k :: 0 <= k < |a| && k < |b| && a[..k] == b[..k] && a[k] < b[k]
  }

  lemma {:induction false} LessEqIff(a: string, b: string)
    ensures LessEq(a, b) <==> InOrder(a, b)
  {
    if a != "" && b != "" {
      LessEqIff(a[1..], b[1..]);
      hide InOrder;
      if a[0] == b[0] {
        if InOrder(a, b) { OrderOfRests(a, b); }
        if InOrder(a[1..], b[1..]) { OrderFromRests(a, b); }
      } else {
        OrderOfFirst(a, b);
      }
    }
  }

  lemma OrderOfFirst(a: string, b: string)
    requires a != "" && b != ""
    ensures a[0] < b[0] ==> InOrder(a, b)
    ensures a[0] > b[0] ==> !InOrder(a, b)
  {
    assert a[..0] == b[..0];
    forall k | 0 < k && k <= |a| && k <= |b| && a[..k] == b[..k] ensures a[0] == b[0] { SameFirst(a, b, k); }
  }

  lemma SameFirst(a: string, b: string, k: nat)
    requires 0 < k <= |a| && k <= |b| && a[..k] == b[..k]
    ensures a[0] == b[0]
  {
    assert a[..k][0] == a[0] && b[..k][0] == b[0];
  }

  lemma OrderOfRests(a: string, b: string)
    requires a != "" && b != "" && a[0] == b[0] && InOrder(a, b)
    ensures InOrder(a[1..], b[1..])
  {
    if !(a <= b) {
      var k :| 0 <= k < |a| && k < |b| && a[..k] == b[..k] && a[k] < b[k];
      assert a[1..][..k - 1] == a[..k][1..] && b[1..][..k - 1] == b[..k][1..];
    }
  }

  lemma OrderFromRests(a: string, b: string)
    requires a != "" && b != "" && a[0] == b[0] && InOrder(a[1..], b[1..])
    ensures InOrder(a, b)
  {
    assert a == [a[0]] + a[1..] && b == [b[0]] + b[1..];
    if !(a[1..] <= b[1..]) {
      var k :| 0 <= k < |a[1..]| && k < |b[1..]| && a[1..][..k] == b[1..][..k] && a[1..][k] < b[1..][k];
      assert a[..k + 1] == [a[0]] + a[1..][..k] && b[..k + 1] == [b[0]] + b[1..][..k];
    }
  }

  /** What a project loads, from any file a history left: of the names it learned the first up to the
      limit asked for, each once, in the order of their bytes. */
  lemma LoadsFirstLearned(file: File, root: string, max: int)
    requires AllKept(file)
    ensures forall x :: x in Loaded(file, root, max) <==> exists k :: 0 <= k < |Known(file, root)| && k < max && Known(file, root)[k] == x
    ensures |Loaded(file, root, max)| == if max <= 0 then 0 else if |Known(file, root)| < max then |Known(file, root)| else max
    ensures forall i, j :: 0 <= i < j < |Loaded(file, root, max)| ==> InOrder(Loaded(file, root, max)[i], Loaded(file, root, max)[j])
  {
    var list := Known(file, root);
    assert Kept(list);
    AllValid(list);
    var kept, loaded := First(list, max), Loaded(file, root, max);
    assert multiset(loaded) == multiset(kept);
    SameMembers(loaded, kept);
    FirstMembers(list, max);
    forall i, j | 0 <= i < j < |loaded| ensures InOrder(loaded[i], loaded[j]) { LessEqIff(loaded[i], loaded[j]); }
  }

  lemma SameMembers(a: seq<string>, b: seq<string>)
    requires multiset(a) == multiset(b)
    ensures |a| == |b| && forall x :: x in a <==> x in b
  {
    assert |multiset(a)| == |a| && |multiset(b)| == |b|;
    forall x ensures x in a <==> x in b { assert x in multiset(a) <==> x in multiset(b); }
  }

  lemma FirstMembers(list: seq<string>, max: int)
    ensures forall x :: x in First(list, max) <==> exists k :: 0 <= k < |list| && k < max && list[k] == x
  {
    if 0 < max < |list| {
      forall x ensures x in First(list, max) <==> exists k :: 0 <= k < |list| && k < max && list[k] == x {
        assert forall k :: 0 <= k < max ==> list[..max][k] == list[k];
      }
    }
  }

  /** A project's list grows by the valid names it does not hold, each once and in order, up to 128. */
  lemma LearnIs(list: seq<string>, names: seq<string>)
    requires Kept(list)
    ensures Learn(list, names) == First(AptInstall.FirstOccurrences(list + ValidOnly(names)), 128)
    ensures forall x :: x in ValidOnly(names) <==> x in names && AptInstall.DebianName(x)
  {
    var all := list + ValidOnly(names);
    assert [] + list == list;
    CollectDistinct([], list, LEARN_MAX);
    CollectConcat([], list, ValidOnly(names), LEARN_MAX);
    AptInstall.CollectIs(all, LEARN_MAX);
    forall x ensures PackageValid(x) <==> AptInstall.DebianName(x) { AptInstall.DebianNameIff(x); }
  }
}

/** The learned set: package names kept per project root in one document on disk. The document's
    encoded size is a parameter, since reading refuses a document above one mebibyte. */
module LearnedStore {
  import opened AptParser
  import opened AptLaws

  const LEARN_MAX := 128
  const MAX_STORE_BYTES := 0x10_0000

  type Document = map<string, seq<string>>

  /** What is on disk: Unreadable stands for a failed read and for bytes that do not decode. */
  datatype File = Missing | Unreadable | Holds(doc: Document, size: nat)

  predicate Readable(file: File) {
    file.Holds? && 0 < file.size <= MAX_STORE_BYTES
  }

  function Contents(file: File): Document {
    if Readable(file) then file.doc else map[]
  }

  function ListAt(doc: Document, root: string): seq<string> {
    if root in doc then doc[root] else []
  }

  function ValidOnly(names: seq<string>): (r: seq<string>)
    ensures forall x :: x in r <==> x in names && PackageValid(x)
  {
    if names == [] then []
    else (if PackageValid(names[0]) then [names[0]] else []) + ValidOnly(names[1..])
  }

  /** A project's list after names are offered to it. */
  function Learn(list: seq<string>, names: seq<string>): seq<string> {
    Collect(list, ValidOnly(names), LEARN_MAX)
  }

  function Known(file: File, root: string): seq<string> {
    ListAt(Contents(file), root)
  }

  function Learned(file: File, root: string, names: seq<string>): seq<string> {
    Learn(Known(file, root), names)
  }

  /** The file after one record call whose write succeeds. */
  function Recorded(file: File, root: string, names: seq<string>, sizeOf: Document -> nat): File {
    if root == "" || Learned(file, root, names) == Known(file, root) then file
    else
      var doc := Contents(file)[root := Learned(file, root, names)];
      Holds(doc, sizeOf(doc))
  }

  /** The file after a command is observed for a project. */
  function Observed(file: File, root: string, cmd: string, sizeOf: Document -> nat): File {
    Recorded(file, root, Parse(cmd, LEARN_MAX), sizeOf)
  }

  // ---------- Sorting ----------

  /** The order of Go strings: byte by byte, a prefix first. */
  predicate LessEq(a: string, b: string) {
    a == "" || (b != "" && (a[0] < b[0] || (a[0] == b[0] && LessEq(a[1..], b[1..]))))
  }

  predicate Sorted(s: seq<string>) {
    forall j, k :: 0 <= j < k < |s| ==> LessEq(s[j], s[k])
  }

  lemma {:induction false} LessEqTotal(a: string, b: string)
    ensures LessEq(a, b) || LessEq(b, a)
    ensures LessEq(a, b) && LessEq(b, a) ==> a == b
  {
    if a != "" && b != "" && a[0] == b[0] {
      LessEqTotal(a[1..], b[1..]);
      assert a == a[..1] + a[1..] && b == b[..1] + b[1..];
    }
  }

  lemma {:induction false} LessEqTransitive(a: string, b: string, c: string)
    requires LessEq(a, b) && LessEq(b, c)
    ensures LessEq(a, c)
  {
    if a != "" && a[0] == b[0] && b[0] == c[0] {
      LessEqTransitive(a[1..], b[1..], c[1..]);
    }
  }

  function Insert(x: string, s: seq<string>): (r: seq<string>)
    ensures multiset(r) == multiset(s) + multiset{x}
  {
    if s == [] || LessEq(x, s[0]) then [x] + s
    else
      assert s == [s[0]] + s[1..];
      [s[0]] + Insert(x, s[1..])
  }

  lemma {:induction false} InsertSorted(x: string, s: seq<string>)
    requires Sorted(s)
    ensures Sorted(Insert(x, s))
  {
    hide LessEq;
    if s != [] {
      LessEqTotal(x, s[0]);
      if LessEq(x, s[0]) {
        forall k | 0 <= k < |s| ensures LessEq(x, s[k]) {
          if k > 0 { LessEqTransitive(x, s[0], s[k]); }
        }
      } else {
        InsertSorted(x, s[1..]);
        var rest := Insert(x, s[1..]);
        forall k | 0 <= k < |rest| ensures LessEq(s[0], rest[k]) {
          assert rest[k] in multiset(rest);
          assert rest[k] == x || rest[k] in s[1..];
        }
      }
    }
  }

  /** The same names in increasing order. */
  function SortStrings(s: seq<string>): (r: seq<string>)
    ensures Sorted(r) && multiset(r) == multiset(s)
  {
    if s == [] then []
    else
      assert s == [s[0]] + s[1..];
      InsertSorted(s[0], SortStrings(s[1..]));
      Insert(s[0], SortStrings(s[1..]))
  }

  // ---------- The store ----------

  lemma ValidOnlyStep(names: seq<string>, i: nat)
    requires i < |names|
    ensures ValidOnly(names[i..]) == (if PackageValid(names[i]) then [names[i]] else []) + ValidOnly(names[i + 1..])
  {
    assert names[i..][1..] == names[i + 1..];
  }

  lemma {:induction false} ValidOnlyAppend(names: seq<string>, x: string)
    ensures ValidOnly(names + [x]) == ValidOnly(names) + (if PackageValid(x) then [x] else [])
  {
    hide PackageValid;
    if names == [] {
      assert names + [x] == [x] && [x][1..] == [];
    } else {
      assert (names + [x])[1..] == names[1..] + [x] && (names + [x])[0] == names[0];
      ValidOnlyAppend(names[1..], x);
    }
  }

  lemma ValidOnlyAt(names: seq<string>, i: nat)
    requires i < |names|
    ensures ValidOnly(names[..i + 1]) == ValidOnly(names[..i]) + (if PackageValid(names[i]) then [names[i]] else [])
  {
    assert names[..i + 1] == names[..i] + [names[i]];
    ValidOnlyAppend(names[..i], names[i]);
  }

  lemma {:induction false} ValidOnlyPrefix(names: seq<string>, i: nat)
    requires i <= |names|
    ensures ValidOnly(names[..i]) <= ValidOnly(names)
    decreases |names|
  {
    if i > 0 {
      assert names[..i][1..] == names[1..][..i - 1];
      ValidOnlyPrefix(names[1..], i - 1);
    }
  }

  /** The valid names of a list in its order, until max are taken. */
  method TakeValid(list: seq<string>, max: int) returns (out: seq<string>)
    requires max > 0
    ensures out == First(ValidOnly(list), max)
  {
    ghost var all := ValidOnly(list);
    out := [];
    var i := 0;
    assert list[..0] == [] && ValidOnly([]) == [];
    hide PackageValid, ValidOnly;
    ValidOnlyPrefix(list, 0);
    while i < |list| && |out| < max
      invariant 0 <= i <= |list| && |out| <= max && out == ValidOnly(list[..i]) && out <= all
    {
      ValidOnlyPrefix(list, i + 1);
      ValidOnlyAt(list, i);
      var valid := CheckPackage(list[i]);
      if valid {
        out := out + [list[i]];
      }
      i := i + 1;
    }
    assert i == |list| ==> list[..i] == list;
  }

  class Store {
    var file: File
    const sizeOf: Document -> nat

    constructor (sizeOf: Document -> nat)
      ensures this.sizeOf == sizeOf && file == Missing
    {
      this.sizeOf := sizeOf;
      file := Missing;
    }

    method Read() returns (doc: Document)
      ensures doc == Contents(file)
    {
      if file.Missing? || file.Unreadable? || file.size == 0 || file.size > MAX_STORE_BYTES {
        return map[];
      }
      return file.doc;
    }

    /** A project's valid names, capped in the order they were learned and then sorted. */
    method Load(gitRoot: string, max: int) returns (names: seq<string>)
      ensures gitRoot != "" ==> names == SortStrings(First(ValidOnly(Known(file, gitRoot)), max))
      ensures gitRoot == "" ==> names == []
    {
      if gitRoot == "" || max <= 0 {
        return [];
      }
      var doc := Read();
      var out := TakeValid(ListAt(doc, gitRoot), max);
      return SortStrings(out);
    }

    /** Offers names to a project's list. The file changes only when something was added and the
        write went through, and then only at that project; the count is the list's growth. */
    method Record(gitRoot: string, pkgs: seq<string>, ioOk: bool) returns (added: nat, failed: bool)
      modifies this`file
      ensures failed <==> !ioOk && gitRoot != "" && Learned(old(file), gitRoot, pkgs) != Known(old(file), gitRoot)
      ensures file == if failed then old(file) else Recorded(old(file), gitRoot, pkgs, sizeOf)
      ensures gitRoot == "" || failed ==> added == 0
      ensures gitRoot != "" && !failed ==> added == |Learned(old(file), gitRoot, pkgs)| - |Known(old(file), gitRoot)|
    {
      added, failed := 0, false;
      if gitRoot == "" || |pkgs| == 0 {
        NothingOffered(Known(file, gitRoot), []);
        return;
      }
      var doc := Read();
      var existing := ListAt(doc, gitRoot);
      ghost var known, learned := existing, Learned(file, gitRoot, pkgs);
      hide PackageValid, Collect, ValidOnly;
      assert pkgs[0..] == pkgs;
      var i := 0;
      while i < |pkgs|
        invariant file == old(file) && 0 <= i <= |pkgs| && added == |existing| - |known| && known <= existing
        invariant Learn(existing, pkgs[i..]) == learned
      {
        var name := pkgs[i];
        OfferOne(existing, pkgs, i);
        var valid := CheckPackage(name);
        if valid {
          if |existing| >= LEARN_MAX {
            Full(existing, pkgs[i..]);
            break;
          }
          if name !in existing {
            existing := existing + [name];
            added := added + 1;
          }
        }
        i := i + 1;
      }
      if i == |pkgs| {
        NothingOffered(existing, pkgs[i..]);
      }
      if added == 0 {
        assert existing == known;
        return;
      }
      if !ioOk {
        return 0, true;
      }
      doc := doc[gitRoot := existing];
      file := Holds(doc, sizeOf(doc));
    }

    /** Learns what a command installs: parsed with the list's own limit, then recorded. */
    method Observe(gitRoot: string, cmd: string, ioOk: bool) returns (parsed: seq<string>, added: nat, failed: bool)
      modifies this`file
      ensures parsed == Parse(cmd, LEARN_MAX)
      ensures file == if failed then old(file) else Observed(old(file), gitRoot, cmd, sizeOf)
      ensures failed <==> !ioOk && gitRoot != "" && Learned(old(file), gitRoot, parsed) != Known(old(file), gitRoot)
      ensures gitRoot != "" && !failed ==> added == |Learned(old(file), gitRoot, parsed)| - |Known(old(file), gitRoot)|
    {
      parsed := ParseApt(cmd, LEARN_MAX);
      added, failed := 0, false;
      if |parsed| > 0 {
        added, failed := Record(gitRoot, parsed, ioOk);
      } else {
        NothingOffered(Known(file, gitRoot), parsed);
      }
    }
  }

  /** Learning from a list is learning from its first name and then from the rest. */
  lemma OfferOne(list: seq<string>, names: seq<string>, i: nat)
    requires i < |names|
    ensures !PackageValid(names[i]) || names[i] in list ==> Learn(list, names[i..]) == Learn(list, names[i + 1..])
    ensures PackageValid(names[i]) && names[i] !in list && |list| < LEARN_MAX ==> Learn(list, names[i..]) == Learn(list + [names[i]], names[i + 1..])
  {
    hide PackageValid;
    ValidOnlyStep(names, i);
    var rest := ValidOnly(names[i + 1..]);
    if PackageValid(names[i]) {
      assert ([names[i]] + rest)[1..] == rest;
    } else {
      assert [] + rest == rest;
    }
  }

  lemma Full(list: seq<string>, names: seq<string>)
    requires |list| >= LEARN_MAX
    ensures Learn(list, names) == list
  {}

  lemma NothingOffered(list: seq<string>, names: seq<string>)
    requires names == []
    ensures Learn(list, names) == list
  {}
}

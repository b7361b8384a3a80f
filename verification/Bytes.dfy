/** Fixed-width little-endian integers, the alphabet of both wire codecs. */
module Bytes {

  type byte = x: int | 0 <= x < 0x100
  type u16 = x: int | 0 <= x < 0x1_0000
  type u32 = x: int | 0 <= x < 0x1_0000_0000
  type u64 = x: int | 0 <= x < TWO_64

  const TWO_64: int := 0x1_0000_0000_0000_0000

  function Pow256(n: nat): (p: nat)
    ensures p > 0
  {
    if n == 0 then 1 else 256 * Pow256(n - 1)
  }

  lemma Pow256Values()
    ensures Pow256(2) == 0x1_0000
    ensures Pow256(4) == 0x1_0000_0000
    ensures Pow256(8) == TWO_64
  {
    assert Pow256(3) == 0x100_0000;
    assert Pow256(5) == 0x100_0000_0000;
    assert Pow256(6) == 0x1_0000_0000_0000;
    assert Pow256(7) == 0x100_0000_0000_0000;
  }

  /** The n little-endian bytes of v, least significant first; higher digits are dropped. */
  function ToLE(v: nat, n: nat): (s: seq<byte>)
    ensures |s| == n
  {
    if n == 0 then [] else [v % 256] + ToLE(v / 256, n - 1)
  }

  /** Byte k of the encoding is the k-th base-256 digit. */
  lemma {:induction false} DigitAt(v: nat, n: nat, k: nat)
    requires k < n
    ensures ToLE(v, n)[k] == v / Pow256(k) % 256
    decreases n
  {
    if k > 0 {
      DigitAt(v / 256, n - 1, k - 1);
      DivTwice(v, Pow256(k - 1));
    }
  }

  lemma DivTwice(v: nat, b: nat)
    requires b > 0
    ensures v / 256 / b == v / (256 * b)
  {
    var x := v / 256;
    var y, r := x / b, x % b;
    assert x == b * y + r;
    TimesAssociate(256, b, y);
    QuotientIs(v, 256 * b, y);
  }

  lemma TimesAssociate(a: nat, b: nat, c: nat)
    ensures (a * b) * c == a * (b * c)
  {}

  lemma QuotientIs(v: nat, d: nat, q: nat)
    requires d > 0 && d * q <= v < d * q + d
    ensures v / d == q
  {
    var e := v / d - q;
    assert v == d * (v / d) + v % d;
    assert d * (v / d) - d * q == d * e;
    assert e >= 1 ==> d * e >= d;
    assert e <= -1 ==> d * e <= -(d as int);
  }

  function FromLE(s: seq<byte>): (v: nat)
    ensures v < Pow256(|s|)
  {
    if s == [] then 0 else s[0] + 256 * FromLE(s[1..])
  }

  lemma {:induction false} DecodeEncode(v: nat, n: nat)
    requires v < Pow256(n)
    ensures FromLE(ToLE(v, n)) == v
  {
    if n > 0 {
      DecodeEncode(v / 256, n - 1);
      assert ToLE(v, n)[1..] == ToLE(v / 256, n - 1);
    }
  }

  lemma {:induction false} EncodeDecode(s: seq<byte>)
    ensures ToLE(FromLE(s), |s|) == s
  {
    if s != [] {
      EncodeDecode(s[1..]);
      assert FromLE(s) / 256 == FromLE(s[1..]) && FromLE(s) % 256 == s[0];
      assert s == [s[0]] + s[1..];
    }
  }

  /** The n-byte little-endian field at offset off. */
  function Field(b: seq<byte>, off: nat, n: nat): (v: nat)
    requires off + n <= |b|
    ensures v < Pow256(n)
  {
    FromLE(b[off..off + n])
  }

  /** The bytes s with t written over them at off. */
  function Splice(s: seq<byte>, off: nat, t: seq<byte>): (r: seq<byte>)
    requires off + |t| <= |s|
    ensures |r| == |s|
    ensures r[off..off + |t|] == t
  {
    s[..off] + t + s[off + |t|..]
  }

  /** Two adjacent writes are one longer write. */
  lemma SpliceAdjacent(s: seq<byte>, off: nat, t: seq<byte>, u: seq<byte>)
    requires off + |t| + |u| <= |s|
    ensures Splice(Splice(s, off, t), off + |t|, u) == Splice(s, off, t + u)
  {
    assert Splice(s, off, t)[..off + |t|] == s[..off] + t;
    assert Splice(s, off, t)[off + |t| + |u|..] == s[off + |t| + |u|..];
  }

  /** A write that covers an earlier one hides it. */
  lemma SpliceOver(s: seq<byte>, off: nat, t: seq<byte>, u: seq<byte>)
    requires off + |t| <= |s| && |t| == |u|
    ensures Splice(Splice(s, off, t), off, u) == Splice(s, off, u)
  {
    assert Splice(s, off, t)[..off] == s[..off];
    assert Splice(s, off, t)[off + |u|..] == s[off + |u|..];
  }

  function Zeros(n: nat): (z: seq<byte>)
    ensures |z| == n && forall k :: 0 <= k < n ==> z[k] == 0
  {
    seq(n, _ => 0)
  }

  method Clear(out: array<byte>, off: nat, n: nat)
    requires off + n <= out.Length
    modifies out
    ensures out[..] == Splice(old(out[..]), off, Zeros(n))
  {
    var i := 0;
    while i < n
      invariant 0 <= i <= n
      invariant forall k :: off <= k < off + i ==> out[k] == 0
      invariant out[..off] == old(out[..off]) && out[off + n..] == old(out[off + n..])
    {
      out[off + i] := 0;
      i := i + 1;
    }
    assert out[off..off + n] == Zeros(n);
    assert out[..] == out[..off] + out[off..off + n] + out[off + n..];
  }

  method Copy(out: array<byte>, off: nat, src: seq<byte>)
    requires off + |src| <= out.Length
    modifies out
    ensures out[..] == Splice(old(out[..]), off, src)
  {
    var i := 0;
    while i < |src|
      invariant 0 <= i <= |src|
      invariant out[off..off + i] == src[..i]
      invariant out[..off] == old(out[..off]) && out[off + |src|..] == old(out[off + |src|..])
    {
      out[off + i] := src[i];
      i := i + 1;
    }
    assert out[..] == out[..off] + out[off..off + |src|] + out[off + |src|..];
  }

  /** Stores the n little-endian bytes of v at out[off..off+n] and touches nothing else. */
  method Put(out: array<byte>, off: nat, v: nat, n: nat)
    requires off + n <= out.Length
    modifies out
    ensures out[..] == Splice(old(out[..]), off, ToLE(v, n))
  {
    var rest, i := v, 0;
    while i < n
      invariant 0 <= i <= n && rest >= 0
      invariant out[off..off + i] + ToLE(rest, n - i) == ToLE(v, n)
      invariant out[..off] == old(out[..off]) && out[off + n..] == old(out[off + n..])
    {
      ghost var before := out[off..off + i];
      out[off + i] := rest % 256;
      assert out[off..off + i + 1] == before + [rest % 256];
      rest, i := rest / 256, i + 1;
    }
    assert out[..] == out[..off] + out[off..off + n] + out[off + n..];
    assert out[off..off + n] + ToLE(rest, 0) == out[off..off + n];
  }

  /** Appends the n-byte field v to a run of bytes lead already written at at. */
  method PutNext(out: array<byte>, ghost s: seq<byte>, at: nat, ghost lead: seq<byte>, off: nat, v: nat, n: nat)
    requires off == at + |lead| && off + n <= out.Length == |s|
    requires out[..] == Splice(s, at, lead)
    modifies out
    ensures out[..] == Splice(s, at, lead + ToLE(v, n))
  {
    Put(out, off, v, n);
    SpliceAdjacent(s, at, lead, ToLE(v, n));
  }

  /** Reads the last field of a run of bytes, leaving the run before it. */
  lemma PeelLast(b: seq<byte>, at: nat, lead: seq<byte>, v: nat, n: nat)
    requires at + |lead| + n <= |b| && v < Pow256(n)
    requires b[at..at + |lead| + n] == lead + ToLE(v, n)
    ensures Field(b, at + |lead|, n) == v && b[at..at + |lead|] == lead
  {
    var run := b[at..at + |lead| + n];
    assert b[at + |lead|..at + |lead| + n] == run[|lead|..] == ToLE(v, n);
    assert b[at..at + |lead|] == run[..|lead|];
    DecodeEncode(v, n);
  }

  /** Extends a run of bytes by the field that follows it. */
  lemma JoinNext(b: seq<byte>, at: nat, lead: seq<byte>, n: nat)
    requires at + |lead| + n <= |b| && b[at..at + |lead|] == lead
    ensures b[at..at + |lead| + n] == lead + ToLE(Field(b, at + |lead|, n), n)
  {
    hide ToLE, FromLE, Pow256;
    EncodeDecode(b[at + |lead|..at + |lead| + n]);
    assert b[at..at + |lead| + n] == b[at..at + |lead|] + b[at + |lead|..at + |lead| + n];
  }

  /** A field has a value exactly if that value's bytes stand there. */
  lemma FieldIs(b: seq<byte>, off: nat, n: nat, v: nat)
    requires off + n <= |b| && v < Pow256(n)
    ensures Field(b, off, n) == v <==> b[off..off + n] == ToLE(v, n)
  {
    hide ToLE, FromLE, Pow256;
    EncodeDecode(b[off..off + n]);
    DecodeEncode(v, n);
  }
}

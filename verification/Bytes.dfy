/** Byte buffers: the little-endian `struct` codecs, in-place overwrites and insertions. */
module Bytes {
  import opened Wrappers

  type byte = x: int | 0 <= x < 0x100

  const TWO_32 := 0x1_0000_0000

  /** What a patcher raises: `struct.error`, a failed `assert`, a codec error or `ValueError`. */
  datatype Error = StructError | AssertionError | UnicodeError | ValueError

  function U16(b: seq<byte>, o: nat): nat
    requires o + 2 <= |b|
  {
    b[o] as int + 0x100 * b[o + 1] as int
  }

  function U32(b: seq<byte>, o: nat): nat
    requires o + 4 <= |b|
  {
    U16(b, o) + 0x1_0000 * U16(b, o + 2)
  }

  /** Two's complement reading of a 32-bit number. */
  function Signed(u: nat): int
    requires u < TWO_32
  {
    if u < 0x8000_0000 then u else u - TWO_32
  }

  function TryU16(b: seq<byte>, o: nat): Result<nat, Error> {
    if o + 2 <= |b| then Ok(U16(b, o)) else Err(StructError)
  }

  function TryU32(b: seq<byte>, o: nat): Result<nat, Error> {
    if o + 4 <= |b| then Ok(U32(b, o)) else Err(StructError)
  }

  function Le16(v: nat): (s: seq<byte>)
    requires v < 0x1_0000
    ensures |s| == 2 && U16(s, 0) == v
  {
    [v % 0x100, v / 0x100]
  }

  function Le32(v: nat): (s: seq<byte>)
    requires v < TWO_32
    ensures |s| == 4 && U32(s, 0) == v
  {
    var (lo, hi) := (Le16(v % 0x1_0000), Le16(v / 0x1_0000));
    assert U16(lo + hi, 0) == U16(lo, 0) && U16(lo + hi, 2) == U16(hi, 0);
    lo + hi
  }

  function Zeros(n: nat): (s: seq<byte>)
    ensures |s| == n
  {
    seq(n, _ => 0)
  }

  /** `b[o : o + len(s)] = s` and `pack_into` at `o`: the length stays. */
  function Put(b: seq<byte>, o: nat, s: seq<byte>): (r: seq<byte>)
    requires o + |s| <= |b|
    ensures |r| == |b|
    ensures r[..o] == b[..o] && r[o..o + |s|] == s && r[o + |s|..] == b[o + |s|..]
  {
    b[..o] + s + b[o + |s|..]
  }

  /** `b[o:o] = s`: everything from `o` on moves up by `len(s)`. */
  function Insert(b: seq<byte>, o: nat, s: seq<byte>): (r: seq<byte>)
    requires o <= |b|
    ensures |r| == |b| + |s|
  {
    b[..o] + s + b[o..]
  }

  /** `b[o : o + len(s)] = s` with the end of the slice clamped: an overhang makes the buffer longer. */
  function Assign(b: seq<byte>, o: nat, s: seq<byte>): (r: seq<byte>)
    requires o <= |b|
    ensures |r| >= |b|
  {
    b[..o] + s + b[if o + |s| <= |b| then o + |s| else |b|..]
  }

  /** Python slicing: bounds past the end are clamped. */
  function Slice(b: seq<byte>, lo: nat, hi: nat): seq<byte> {
    var h := if hi < |b| then hi else |b|;
    if lo < h then b[lo..h] else []
  }

  lemma U32Bound(b: seq<byte>, o: nat)
    requires o + 4 <= |b|
    ensures U32(b, o) < TWO_32
  {
  }

  /** Little-endian numbers, byte by byte. */
  lemma NumbersExact(b: seq<byte>, o: nat)
    ensures o + 2 <= |b| ==> U16(b, o) == b[o] as int + 0x100 * b[o + 1] as int
    ensures o + 4 <= |b| ==>
      U32(b, o) == b[o] as int + 0x100 * b[o + 1] as int + 0x1_0000 * b[o + 2] as int + 0x100_0000 * b[o + 3] as int
  {
  }

  /** A 32-bit field that holds -1 reads as -1, and one below 2^31 as itself. */
  lemma SignedExact(u: nat)
    requires u < 4294967296
    ensures u == 0xFFFF_FFFF ==> Signed(u) == -1
    ensures u < 2147483648 ==> Signed(u) == u
    ensures u >= 2147483648 ==> Signed(u) == u - 4294967296
  {
  }

  /** Equal bytes read as equal numbers, wherever they sit. */
  lemma SameRead(a: seq<byte>, p: nat, b: seq<byte>, q: nat, n: nat, k: nat)
    requires p + n <= |a| && q + n <= |b| && a[p..p + n] == b[q..q + n]
    ensures k + 2 <= n ==> U16(a, p + k) == U16(b, q + k)
    ensures k + 4 <= n ==> U32(a, p + k) == U32(b, q + k)
  {
    if k + 2 <= n {
      assert a[p..p + n][k] == b[q..q + n][k] && a[p..p + n][k + 1] == b[q..q + n][k + 1];
    }
    if k + 4 <= n {
      assert a[p..p + n][k + 2] == b[q..q + n][k + 2] && a[p..p + n][k + 3] == b[q..q + n][k + 3];
    }
  }

  lemma Le16Unique(b: seq<byte>, o: nat)
    requires o + 2 <= |b|
    ensures U16(b, o) < 0x1_0000 && b[o..o + 2] == Le16(U16(b, o))
  {
    var v := U16(b, o);
    assert v / 0x100 == b[o + 1] && v % 0x100 == b[o];
  }

  /** A number is determined by, and determines, its four bytes. */
  lemma Le32Unique(b: seq<byte>, o: nat)
    requires o + 4 <= |b|
    ensures U32(b, o) < TWO_32 && b[o..o + 4] == Le32(U32(b, o))
  {
    hide Le16, U16;
    Le16Unique(b, o);
    Le16Unique(b, o + 2);
    var lo, hi := U16(b, o), U16(b, o + 2);
    assert (lo + 0x1_0000 * hi) % 0x1_0000 == lo && (lo + 0x1_0000 * hi) / 0x1_0000 == hi;
    assert b[o..o + 4] == b[o..o + 2] + b[o + 2..o + 4];
  }

  /** An overwrite is seen where it lands and nowhere else. */
  lemma PutSlice(b: seq<byte>, o: nat, s: seq<byte>, i: nat, j: nat)
    requires o + |s| <= |b| && i <= j <= |b|
    ensures j <= o || o + |s| <= i ==> Put(b, o, s)[i..j] == b[i..j]
    ensures i == o && j == o + |s| ==> Put(b, o, s)[i..j] == s
  {
    var r := Put(b, o, s);
    if j <= o {
      assert r[i..j] == r[..o][i..j] == b[..o][i..j] == b[i..j];
    } else if o + |s| <= i {
      SliceOfSlice(r, o + |s|, |r|, i - (o + |s|), j - (o + |s|));
      SliceOfSlice(b, o + |s|, |r|, i - (o + |s|), j - (o + |s|));
      assert r[o + |s|..|r|] == r[o + |s|..] == b[o + |s|..] == b[o + |s|..|b|];
    }
  }

  /** Reading a 32-bit field back after an overwrite, and any field beside it. */
  lemma PutReads(b: seq<byte>, o: nat, v: nat, k: nat)
    requires o + 4 <= |b| && v < TWO_32
    ensures U32(Put(b, o, Le32(v)), o) == v
    ensures k + 2 <= |b| && (k + 2 <= o || o + 4 <= k) ==> U16(Put(b, o, Le32(v)), k) == U16(b, k)
    ensures k + 4 <= |b| && (k + 4 <= o || o + 4 <= k) ==> U32(Put(b, o, Le32(v)), k) == U32(b, k)
    ensures k < |b| && (k < o || o + 4 <= k) ==> Put(b, o, Le32(v))[k] == b[k]
  {
    hide U32, U16, Le32, Put;
    var s := Le32(v);
    var r := Put(b, o, s);
    SameRead(r, o, s, 0, 4, 0);
    assert r[0..o] == b[0..o] && r[o + 4..|r|] == b[o + 4..|r|];
    if k <= o {
      SameRead(r, 0, b, 0, o, k);
      assert k < o ==> r[..o][k] == b[..o][k];
    } else if o + 4 <= k {
      SameRead(r, o + 4, b, o + 4, |r| - o - 4, k - o - 4);
      assert k < |b| ==> r[o + 4..][k - o - 4] == b[o + 4..][k - o - 4];
    }
  }

  lemma AssignSlices(b: seq<byte>, o: nat, s: seq<byte>)
    requires o <= |b|
    ensures |Assign(b, o, s)| >= o + |s|
    ensures Assign(b, o, s)[0..o] == b[0..o] && Assign(b, o, s)[o..o + |s|] == s
  {
  }

  lemma SliceOfSlice(b: seq<byte>, lo: nat, hi: nat, i: nat, j: nat)
    requires lo <= hi <= |b| && i <= j <= hi - lo
    ensures b[lo..hi][i..j] == b[lo + i..lo + j]
  {
    var x, y := b[lo..hi][i..j], b[lo + i..lo + j];
    assert |x| == |y| && forall k :: 0 <= k < |x| ==> x[k] == b[lo + i + k] == y[k];
  }

  /** An overwrite or insertion inside the middle of three pieces stays inside it. */
  lemma EditMiddle(x: seq<byte>, p: seq<byte>, t: seq<byte>, k: nat, s: seq<byte>)
    ensures k + |s| <= |p| ==> Put(x + p + t, |x| + k, s) == x + Put(p, k, s) + t
    ensures k <= |p| ==> Insert(x + p + t, |x| + k, s) == x + Insert(p, k, s) + t
  {
  }
}

/** The patcher's edits on the abstract view, and what each keeps. */
module AxmlEdits {
  import opened Wrappers
  import opened Bytes
  import opened Utf16
  import opened AxmlReader
  import opened AxmlFormat

  // ---------------------------------------------------------------- appending a string

  /** Text that `append_string` can encode: no lone surrogate, length in 16 bits. */
  predicate Storable(v: text) {
    Encodable(v) && |v| < 0x1_0000
  }

  function Record(v: text): seq<byte>
    requires Storable(v)
  {
    Le16(|v|) + Encode(v) + [0, 0]
  }

  function Padding(v: text): nat
    requires Storable(v)
  {
    -(4 + |Record(v)|) % 4
  }

  function GrowthOf(v: text): (n: nat)
    requires Storable(v)
    ensures n >= 8
  {
    4 + |Record(v)| + Padding(v)
  }

  /** The pool with one more table entry and record, before its header is fixed up. */
  function Spliced(p: seq<byte>, v: text): (g: seq<byte>)
    requires PoolHead(p) && Storable(v) && |p| < TWO_32
    ensures |g| == |p| + GrowthOf(v)
  {
    var s := StringsStart(p);
    p[..s] + Le32(|p| - s) + p[s..] + Record(v) + Zeros(Padding(v))
  }

  function GrowPool(p: seq<byte>, v: text): (g: seq<byte>)
    requires PoolHead(p) && Storable(v) && |p| + GrowthOf(v) < TWO_32
    ensures |g| == |p| + GrowthOf(v)
  {
    var counted := Put(Spliced(p, v), 8, Le32(Count(p) + 1));
    var sized := Put(counted, 4, Le32(|p| + GrowthOf(v)));
    Put(sized, 20, Le32(StringsStart(p) + 4))
  }

  /** Outside its three header fields, the grown pool is the spliced one. */
  lemma GrowFrame(p: seq<byte>, v: text, i: nat, j: nat)
    requires PoolHead(p) && Storable(v) && |p| + GrowthOf(v) < TWO_32
    requires i <= j <= |p| + GrowthOf(v) && (j <= 4 || 24 <= i || 12 <= i <= j <= 20)
    ensures GrowPool(p, v)[i..j] == Spliced(p, v)[i..j]
  {
    hide Put, Spliced, Le32, U16, U32, GrowthOf;
    var raw := Spliced(p, v);
    var counted := Put(raw, 8, Le32(Count(p) + 1));
    var sized := Put(counted, 4, Le32(|p| + GrowthOf(v)));
    PutSlice(raw, 8, Le32(Count(p) + 1), i, j);
    PutSlice(counted, 4, Le32(|p| + GrowthOf(v)), i, j);
    PutSlice(sized, 20, Le32(StringsStart(p) + 4), i, j);
  }

  /** The three header fields of the grown pool. */
  lemma GrowFields(p: seq<byte>, v: text)
    requires PoolHead(p) && Storable(v) && |p| + GrowthOf(v) < TWO_32
    ensures var g := GrowPool(p, v);
      && g[4..8] == Le32(|p| + GrowthOf(v)) && g[8..12] == Le32(Count(p) + 1)
      && g[20..24] == Le32(StringsStart(p) + 4)
  {
    hide Put, Spliced, Le32, U16, U32, GrowthOf;
    var raw := Spliced(p, v);
    var counted := Put(raw, 8, Le32(Count(p) + 1));
    var sized := Put(counted, 4, Le32(|p| + GrowthOf(v)));
    PutSlice(raw, 8, Le32(Count(p) + 1), 8, 12);
    PutSlice(counted, 4, Le32(|p| + GrowthOf(v)), 4, 8);
    PutSlice(counted, 4, Le32(|p| + GrowthOf(v)), 8, 12);
    PutSlice(sized, 20, Le32(StringsStart(p) + 4), 4, 8);
    PutSlice(sized, 20, Le32(StringsStart(p) + 4), 8, 12);
    PutSlice(sized, 20, Le32(StringsStart(p) + 4), 20, 24);
  }

  /** Where the pieces of the old pool and the new ones went. */
  lemma GrowLayout(p: seq<byte>, v: text)
    requires PoolHead(p) && Storable(v) && |p| + GrowthOf(v) < TWO_32
    ensures var g, s, n := GrowPool(p, v), StringsStart(p), |p|;
      && 28 <= s <= n
      && g[0..4] == p[0..4] && g[12..20] == p[12..20] && g[24..s] == p[24..s]
      && g[s..s + 4] == Le32(n - s) && g[s + 4..n + 4] == p[s..n] && g[n + 4..n + 4 + |Record(v)|] == Record(v)
  {
    hide U16, U32, Le32, Record, Zeros, GrowPool, Padding, GrowthOf, Spliced;
    var s, n, r := StringsStart(p), |p|, Record(v);
    SplicedLayout(p, v);
    GrowthParts(v);
    GrowFrame(p, v, 0, 4);
    GrowFrame(p, v, 12, 20);
    GrowFrame(p, v, 24, s);
    GrowFrame(p, v, s, s + 4);
    GrowFrame(p, v, s + 4, n + 4);
    GrowFrame(p, v, n + 4, n + 4 + |r|);
  }

  lemma GrowthParts(v: text)
    requires Storable(v)
    ensures GrowthOf(v) >= 4 + |Record(v)|
  {
    hide Record, Padding;
  }

  /** The same pieces before the header fields are written. */
  lemma SplicedLayout(p: seq<byte>, v: text)
    requires PoolHead(p) && Storable(v) && |p| < TWO_32
    ensures var raw, s, n, r := Spliced(p, v), StringsStart(p), |p|, Record(v);
      && 28 <= s <= n && |raw| >= n + 4 + |r|
      && raw[0..4] == p[0..4] && raw[12..20] == p[12..20] && raw[24..s] == p[24..s]
      && raw[s..s + 4] == Le32(n - s) && raw[s + 4..n + 4] == p[s..n] && raw[n + 4..n + 4 + |r|] == r
  {
    hide U16, U32, Le32, Record, Zeros, Padding;
    var s, n := StringsStart(p), |p|;
    FourPieces(p[..s], Le32(n - s), p[s..], Record(v) + Zeros(Padding(v)));
    var raw := Spliced(p, v);
    assert raw == p[..s] + Le32(n - s) + p[s..] + (Record(v) + Zeros(Padding(v)));
    assert p[s..] == p[s..n];
    SliceOfSlice(raw, 0, s, 0, 4);
    SliceOfSlice(raw, 0, s, 12, 20);
    SliceOfSlice(raw, 0, s, 24, s);
    SliceOfSlice(raw, n + 4, |raw|, 0, |Record(v)|);
  }

  lemma FourPieces(a: seq<byte>, b: seq<byte>, c: seq<byte>, d: seq<byte>)
    ensures var r, i, j := a + b + c + d, |a| + |b|, |a| + |b| + |c|;
      && r[0..|a|] == a && r[|a|..i] == b && r[i..j] == c && r[j..|r|] == d
  {
  }

  /** The header of a grown pool: one more entry, everything still aligned and adjacent. */
  lemma GrowHead(p: seq<byte>, v: text)
    requires PoolHead(p) && Storable(v) && |p| + GrowthOf(v) < TWO_32
    ensures var g := GrowPool(p, v);
      && PoolHead(g) && HeaderSize(g) == HeaderSize(p)
      && Count(g) == Count(p) + 1 && StringsStart(g) == StringsStart(p) + 4
      && GrowthOf(v) % 4 == 0
  {
    hide GrowPool, U16, U32, Le32, Encode, GrowthOf, Record;
    var g, s, n := GrowPool(p, v), StringsStart(p), |p|;
    GrowLayout(p, v);
    GrowFields(p, v);
    assert g[0..0 + 4] == p[0..0 + 4];
    SameRead(g, 0, p, 0, 4, 0);
    SameRead(g, 0, p, 0, 4, 2);
    SameRead(g, 4, Le32(n + GrowthOf(v)), 0, 4, 0);
    SameRead(g, 8, Le32(Count(p) + 1), 0, 4, 0);
    SameRead(g, 12, p, 12, 8, 0);
    SameRead(g, 12, p, 12, 8, 4);
    SameRead(g, 20, Le32(s + 4), 0, 4, 0);
    GrowthAligned(v);
  }

  lemma GrowthAligned(v: text)
    requires Storable(v)
    ensures GrowthOf(v) % 4 == 0
  {
    hide Record;
  }

  /** Every old string keeps its units, four bytes further into the pool. */
  lemma GrowKeeps(p: seq<byte>, v: text, i: nat)
    requires PoolOk(p) && Storable(v) && |p| + GrowthOf(v) < TWO_32 && i < Count(p)
    requires PoolHead(GrowPool(p, v)) && Count(GrowPool(p, v)) == Count(p) + 1
    ensures var g := GrowPool(p, v);
      && Base(g, i) == Base(p, i) + 4 && Inside(p, i) && Inside(g, i) && Units(g, i) == Units(p, i)
  {
    hide GrowPool, U16, U32, Le32, Encode, Record, Padding;
    var g, s, n := GrowPool(p, v), StringsStart(p), |p|;
    GrowHead(p, v);
    GrowLayout(p, v);
    SameRead(g, 24, p, 24, s - 24, HeaderSize(p) + 4 * i - 24);
    assert Inside(p, i);
    var b, len := Base(p, i), U16(p, Base(p, i));
    SameRead(g, s + 4, p, s, n - s, b - s);
    SliceOfSlice(g, s + 4, n + 4, b - s + 2, b - s + 2 + 2 * len);
    SliceOfSlice(p, s, n, b - s + 2, b - s + 2 + 2 * len);
  }

  /** The new string's record sits where its table entry says. */
  lemma GrowAdds(p: seq<byte>, v: text)
    requires PoolOk(p) && Storable(v) && |p| + GrowthOf(v) < TWO_32
    requires PoolHead(GrowPool(p, v)) && Count(GrowPool(p, v)) == Count(p) + 1
    ensures var g, i := GrowPool(p, v), Count(p);
      Inside(g, i) && |Encode(v)| >= 2 * |v| && Units(g, i) == Encode(v)[..2 * |v|]
  {
    hide GrowPool, U16, U32, Le16, Le32, Encode, Padding, Record;
    var g, s, n := GrowPool(p, v), StringsStart(p), |p|;
    GrowHead(p, v);
    GrowLayout(p, v);
    SameRead(g, s, Le32(n - s), 0, 4, 0);
    assert Base(g, Count(p)) == n + 4;
    var r := Record(v);
    RecordReads(v);
    SameRead(g, n + 4, r, 0, |r|, 0);
    SliceOfSlice(g, n + 4, n + 4 + |r|, 2, 2 + 2 * |v|);
  }

  lemma RecordReads(v: text)
    requires Storable(v)
    ensures |Encode(v)| >= 2 * |v|
    ensures var r := Record(v);
      && |r| >= 2 + 2 * |v| && r[0..|r|] == r && U16(r, 0) == |v| && r[2..2 + 2 * |v|] == Encode(v)[..2 * |v|]
  {
    hide Le16, U16, Encode;
    EncodedLength(v);
    var r := Record(v);
    assert r[0..2] == Le16(|v|)[0..2];
    SameRead(r, 0, Le16(|v|), 0, 2, 0);
  }

  /**
   Entry `i` holds `v` byte by byte: its length in code points as 16 bits, low byte first, its units, a
   zero unit, and then fewer than four zero bytes up to the end of the pool.
   */
  ghost predicate HoldsRecord(g: seq<byte>, i: nat, v: text)
    requires PoolHead(g) && i < Count(g)
  {
    var b, n := Base(g, i), |Encode(v)|;
    && b + 2 + n + 2 <= |g| < b + 2 + n + 6
    && g[b] as int + 0x100 * g[b + 1] as int == |v|
    && g[b + 2..b + 2 + n] == Encode(v)
    && forall k :: b + 2 + n <= k < |g| ==> g[k] == 0
  }

  /** What is appended: the new entry's record, right behind the old pool. */
  lemma GrowRecord(p: seq<byte>, v: text)
    requires PoolOk(p) && Storable(v) && |p| + GrowthOf(v) < TWO_32
    ensures var g := GrowPool(p, v);
      && PoolHead(g) && Count(g) == Count(p) + 1
      && Base(g, Count(p)) == |p| + 4 && HoldsRecord(g, Count(p), v)
  {
    hide GrowPool, U16, U32, Le32, Encode, Record, Padding;
    var g, s, n, r := GrowPool(p, v), StringsStart(p), |p|, Record(v);
    GrowHead(p, v);
    GrowLayout(p, v);
    GrowTail(p, v);
    SameRead(g, s, Le32(n - s), 0, 4, 0);
    RecordBytes(v);
    var b, e := n + 4, |Encode(v)|;
    assert g[b..b + |r|] == r;
    assert g[b] == g[b..b + |r|][0] && g[b + 1] == g[b..b + |r|][1];
    SliceOfSlice(g, b, b + |r|, 2, 2 + e);
    forall k | b + 2 + e <= k < |g|
      ensures g[k] == 0
    {
      if k < b + |r| {
        assert g[k] == g[b..b + |r|][k - b] == r[k - b];
      } else {
        assert g[k] == g[b + |r|..][k - (b + |r|)];
      }
    }
  }

  lemma RecordBytes(v: text)
    requires Storable(v)
    ensures var r, e := Record(v), |Encode(v)|;
      && |r| == 2 + e + 2 && r[0] as int + 0x100 * r[1] as int == |v| && r[2..2 + e] == Encode(v)
      && r[2 + e] == 0 && r[3 + e] == 0
      && |r| + Padding(v) < 2 + e + 6
  {
    hide Encode;
    var r, e := Record(v), Encode(v);
    assert r[..2] == Le16(|v|) && r[2..2 + |e|] == e;
    assert U16(Le16(|v|), 0) == |v| && r[0] == Le16(|v|)[0] && r[1] == Le16(|v|)[1];
  }

  /** Behind the record there are only the zero bytes of the padding. */
  lemma GrowTail(p: seq<byte>, v: text)
    requires PoolHead(p) && Storable(v) && |p| + GrowthOf(v) < TWO_32
    ensures var g, o := GrowPool(p, v), |p| + 4 + |Record(v)|;
      o + Padding(v) == |g| && g[o..] == Zeros(Padding(v))
  {
    hide U16, U32, Le32, Record, Padding, GrowPool;
    var g, raw, o := GrowPool(p, v), Spliced(p, v), |p| + 4 + |Record(v)|;
    assert raw[o..] == Zeros(Padding(v));
    GrowFrame(p, v, o, |g|);
    assert g[o..] == g[o..|g|] && raw[o..] == raw[o..|raw|];
  }

  /** The bytes added are the least multiple of 4 that holds table entry, length, units and terminator. */
  lemma GrowthExact(v: text)
    requires Storable(v)
    ensures GrowthOf(v) % 4 == 0 && GrowthOf(v) - 4 < 4 + 2 + |Encode(v)| + 2 <= GrowthOf(v)
  {
    hide Encode;
    RecordBytes(v);
    GrowthAligned(v);
  }

  /** Text that can be stored has no surrogate code point and fewer than 65536 code points. */
  lemma StorableExact(v: text)
    ensures Storable(v) <==> |v| < 65536 && forall i :: 0 <= i < |v| ==> v[i] < 0xD800 || 0xDFFF < v[i]
  {
  }

  /**
   Appending keeps the pool well formed and every old string as it was; the new entry reads what its
   length field covers.
   */
  lemma GrowStrings(p: seq<byte>, v: text)
    requires PoolOk(p) && Storable(v) && |p| + GrowthOf(v) < TWO_32
    ensures var g := GrowPool(p, v);
      && PoolOk(g) && Count(g) == Count(p) + 1 && |Encode(v)| >= 2 * |v|
      && Strings(g) == Strings(p) + [Decode(Encode(v)[..2 * |v|])]
  {
    hide GrowPool, U16, U32, Encode, Decode, Units, Inside, GrowthOf;
    var g := GrowPool(p, v);
    GrowHead(p, v);
    GrowAdds(p, v);
    forall i: nat | i < Count(p)
      ensures Inside(p, i) && Inside(g, i) && Units(g, i) == Units(p, i)
    {
      GrowKeeps(p, v, i);
    }
    assert PoolOk(g);
    var old', new' := Strings(p), Strings(g);
    assert |new'| == |old'| + 1 && forall i :: 0 <= i < |old'| ==> new'[i] == old'[i];
  }
}

/**
 The abstract view of a binary XML file: a string pool and the chunks that tile the rest. A file is
 well formed when its sizes, offsets and indices all agree with its bytes.
 */
module AxmlFormat {
  import opened Sequences
  import opened Wrappers
  import opened Bytes
  import opened Utf16
  import opened AxmlReader

  type Chunk = seq<byte>

  const NO_REF := 0xFFFF_FFFF
  const TYPE_STRING: byte := 0x03

  datatype Manifest = Manifest(magic: seq<byte>, pool: seq<byte>, chunks: seq<Chunk>)

  // ---------------------------------------------------------------- tiling

  predicate ChunkShape(c: Chunk) {
    |c| >= 8 && U32(c, 4) == |c|
  }

  /** The size fields walk from the front of `b` to exactly its end. */
  predicate Tiles(b: seq<byte>) {
    b == [] || (|b| >= 8 && 8 <= U32(b, 4) <= |b| && Tiles(b[U32(b, 4)..]))
  }

  function Chunks(b: seq<byte>): seq<Chunk>
    requires Tiles(b)
  {
    if b == [] then [] else [b[..U32(b, 4)]] + Chunks(b[U32(b, 4)..])
  }

  function Flatten(cs: seq<Chunk>): seq<byte> {
    if cs == [] then [] else cs[0] + Flatten(cs[1..])
  }

  lemma {:induction false} FlattenChunks(b: seq<byte>)
    requires Tiles(b)
    ensures Flatten(Chunks(b)) == b && forall c <- Chunks(b) :: ChunkShape(c)
  {
    hide U16, U32;
    if b != [] {
      var n := U32(b, 4);
      FlattenChunks(b[n..]);
      assert b[0..n] == b[..n] == b[..n][0..n];
      SameRead(b, 0, b[..n], 0, n, 4);
      FirstRest(b[..n], Chunks(b[n..]));
    }
  }

  lemma {:induction false} ChunksFlatten(cs: seq<Chunk>)
    requires forall c <- cs :: ChunkShape(c)
    ensures Tiles(Flatten(cs)) && Chunks(Flatten(cs)) == cs
  {
    if cs != [] {
      var b, n := Flatten(cs), |cs[0]|;
      ChunksFlatten(cs[1..]);
      assert ChunkShape(cs[0]) && b[..n] == cs[0];
      SameRead(b, 0, cs[0], 0, n, 4);
      assert U32(b, 4) == n && b[n..] == Flatten(cs[1..]);
      assert cs == [cs[0]] + cs[1..];
    }
  }

  lemma {:induction false} FlattenConcat(a: seq<Chunk>, b: seq<Chunk>)
    ensures Flatten(a + b) == Flatten(a) + Flatten(b)
  {
    if a == [] {
      assert a + b == b;
    } else {
      FlattenConcat(a[1..], b);
      ConcatRest(a, b);
      assert Flatten(a + b) == a[0] + (Flatten(a[1..]) + Flatten(b));
    }
  }

  lemma FlattenOne(c: Chunk)
    ensures Flatten([c]) == c
  {
    assert Flatten([c]) == c + Flatten([]);
  }

  lemma FlattenSplit(cs: seq<Chunk>, k: nat)
    requires k < |cs|
    ensures Flatten(cs[..k + 1]) == Flatten(cs[..k]) + cs[k]
    ensures Flatten(cs) == Flatten(cs[..k]) + cs[k] + Flatten(cs[k + 1..])
  {
    hide Flatten;
    FlattenOne(cs[k]);
    FlattenConcat(cs[..k], [cs[k]]);
    FlattenConcat(cs[..k + 1], cs[k + 1..]);
    SplitAround(cs, k);
  }

  // ---------------------------------------------------------------- string pool

  function HeaderSize(p: seq<byte>): nat
    requires |p| >= 28
  {
    U16(p, 2)
  }

  function Count(p: seq<byte>): nat
    requires |p| >= 28
  {
    U32(p, 8)
  }

  function StringsStart(p: seq<byte>): nat
    requires |p| >= 28
  {
    U32(p, 20)
  }

  /** The offset table follows the header and the string data follows the offset table. */
  predicate PoolHead(p: seq<byte>) {
    && |p| >= 28 && |p| % 4 == 0
    && U16(p, 0) == STRING_POOL && U32(p, 4) == |p|
    && U32(p, 12) == 0                     // no styles
    && U32(p, 16) / 0x100 % 2 == 0         // UTF-16
    && HeaderSize(p) >= 28
    && StringsStart(p) == HeaderSize(p) + 4 * Count(p) <= |p|
  }

  /** Where string `i` starts, from the start of the pool chunk. */
  function Base(p: seq<byte>, i: nat): nat
    requires PoolHead(p) && i < Count(p)
  {
    StringsStart(p) + U32(p, HeaderSize(p) + 4 * i)
  }

  /** The length field and the units it announces lie inside the pool. */
  predicate Inside(p: seq<byte>, i: nat)
    requires PoolHead(p) && i < Count(p)
  {
    Base(p, i) + 2 <= |p| && Base(p, i) + 2 + 2 * U16(p, Base(p, i)) <= |p|
  }

  predicate PoolOk(p: seq<byte>): (ok: bool)
    ensures ok ==> |p| >= 28 && U32(p, 4) == |p|
  {
    PoolHead(p) && forall i: nat :: i < Count(p) ==> Inside(p, i)
  }

  function Units(p: seq<byte>, i: nat): seq<byte>
    requires PoolHead(p) && i < Count(p) && Inside(p, i)
  {
    p[Base(p, i) + 2..Base(p, i) + 2 + 2 * U16(p, Base(p, i))]
  }

  /** Every string of the pool, `None` where its units are not valid UTF-16. */
  function Strings(p: seq<byte>): seq<Option<text>>
    requires PoolOk(p)
  {
    seq(Count(p), i requires 0 <= i < Count(p) => Decode(Units(p, i)))
  }

  // ---------------------------------------------------------------- chunks

  function AttrSize(c: Chunk): nat
    requires |c| >= 36
  {
    U16(c, 26)
  }

  function AttrCount(c: Chunk): nat
    requires |c| >= 36
  {
    U16(c, 28)
  }

  function Rec(c: Chunk, i: nat): nat
    requires |c| >= 36
  {
    16 + U16(c, 24) + i * AttrSize(c)
  }

  /** The stored fields of one attribute record. */
  datatype RawAttr = RawAttr(ns: nat, name: nat, raw: nat, kind: byte, data: nat)

  function RecordAt(c: Chunk, r: nat): RawAttr
    requires r + 20 <= |c|
  {
    RawAttr(U32(c, r), U32(c, r + 4), U32(c, r + 8), c[r + 15], U32(c, r + 16))
  }

  predicate RefOk(u: nat, count: nat) {
    u == NO_REF || u < count
  }

  /** Every string an attribute refers to is in a pool of `count` strings. */
  predicate AttrOk(a: RawAttr, count: nat) {
    && RefOk(a.ns, count) && a.name < count && RefOk(a.raw, count)
    && (a.kind == TYPE_STRING ==> a.data < count)
  }

  predicate RecordOk(c: Chunk, r: nat, count: nat) {
    r + 20 <= |c| && AttrOk(RecordAt(c, r), count)
  }

  predicate StartOk(c: Chunk, count: nat) {
    && |c| >= 36 && U32(c, 20) < count && U16(c, 24) >= 20
    && (AttrCount(c) > 0 ==> AttrSize(c) >= 20)
    && forall i: nat :: i < AttrCount(c) ==> RecordOk(c, Rec(c, i), count)
  }

  /** A chunk whose string references all resolve in a pool of `count` strings. */
  predicate ChunkOk(c: Chunk, count: nat) {
    && ChunkShape(c)
    && (U16(c, 0) == START_ELEMENT ==> StartOk(c, count))
    && (U16(c, 0) == END_ELEMENT ==> |c| >= 24 && U32(c, 20) < count)
  }

  // ---------------------------------------------------------------- whole files

  predicate Framed(d: seq<byte>) {
    && |d| >= 16 && U32(d, 4) == |d|
    && 8 + U32(d, 12) <= |d|
    && Tiles(d[8 + U32(d, 12)..])
  }

  function View(d: seq<byte>): Manifest
    requires Framed(d)
  {
    Manifest(d[..4], d[8..8 + U32(d, 12)], Chunks(d[8 + U32(d, 12)..]))
  }

  predicate Valid(m: Manifest) {
    && |m.magic| == 4 && PoolOk(m.pool)
    && (forall c <- m.chunks :: ChunkOk(c, Count(m.pool)))
    && FileSize(m) < TWO_32
  }

  /** What the patcher is given, and what every edit has to give back. */
  predicate WellFormed(d: seq<byte>): (ok: bool)
    ensures ok ==> Framed(d)
  {
    Framed(d) && Valid(View(d))
  }

  function FileSize(m: Manifest): nat {
    8 + |m.pool| + |Flatten(m.chunks)|
  }

  function Serialize(m: Manifest): seq<byte>
    requires FileSize(m) < TWO_32
  {
    m.magic + Le32(FileSize(m)) + m.pool + Flatten(m.chunks)
  }

  lemma ValidShapes(m: Manifest)
    requires Valid(m)
    ensures forall c <- m.chunks :: ChunkShape(c)
    ensures |m.pool| >= 28 && U32(m.pool, 4) == |m.pool|
  {
    hide Flatten, StartOk, U32, U16;
  }

  /** Reading a file and writing it back changes nothing. */
  lemma SerializeView(d: seq<byte>)
    requires WellFormed(d)
    ensures FileSize(View(d)) == |d| && Serialize(View(d)) == d
  {
    hide PoolOk, ChunkOk, Tiles, Chunks, Flatten, Le32, U32;
    var n := 8 + U32(d, 12);
    FlattenChunks(d[n..]);
    Le32Unique(d, 4);
    assert d == d[..4] + d[4..8] + d[8..n] + d[n..];
  }

  /** Chunk sizes and file size are right; nothing is said about the contents. */
  predicate Shaped(m: Manifest) {
    && |m.magic| == 4 && |m.pool| >= 28 && U32(m.pool, 4) == |m.pool|
    && (forall c <- m.chunks :: ChunkShape(c)) && FileSize(m) < TWO_32
  }

  lemma ValidIsShaped(m: Manifest)
    requires Valid(m)
    ensures Shaped(m)
  {
    hide Flatten, U32, U16, PoolOk, ChunkOk;
    ValidShapes(m);
  }

  /** Any shaped manifest is what its bytes are read as, and those are well formed exactly when it is valid. */
  lemma SerializeExact(m: Manifest)
    requires Shaped(m)
    ensures Framed(Serialize(m)) && View(Serialize(m)) == m && (WellFormed(Serialize(m)) <==> Valid(m))
  {
    hide PoolOk, ChunkOk, Tiles, Chunks, Flatten, Le32, U32;
    var d, n := Serialize(m), 8 + |m.pool|;
    ChunksFlatten(m.chunks);
    SameRead(d, 4, Le32(FileSize(m)), 0, 4, 0);
    assert d[8..n] == m.pool && d[n..] == Flatten(m.chunks) && d[..4] == m.magic;
    SameRead(d, 8, m.pool, 0, |m.pool|, 4);
    assert View(d) == m;
  }

  /** Writing a file and reading it back changes nothing. */
  lemma ViewSerialize(m: Manifest)
    requires Valid(m)
    ensures WellFormed(Serialize(m)) && View(Serialize(m)) == m
  {
    hide Valid, Shaped, Serialize, View, WellFormed, Framed;
    ValidIsShaped(m);
    SerializeExact(m);
  }
}

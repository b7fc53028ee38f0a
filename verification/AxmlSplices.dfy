/** The byte-level steps of the patcher's edits, tied to the edits of the abstract view. */
module AxmlSplices {
  import opened Wrappers
  import opened Bytes
  import opened Utf16
  import opened AxmlReader
  import opened AxmlFormat
  import opened AxmlLookup
  import opened AxmlEdits
  import opened AxmlElements
  import opened AxmlManifest

  /** A file as its 8-byte header, its pool and its chunks. */
  lemma Pieces(d: seq<byte>)
    requires WellFormed(d)
    ensures var m := View(d);
      && d == d[..8] + m.pool + Flatten(m.chunks) && m.magic == d[..4] && |d| == FileSize(m)
  {
    hide U16, U32, Tiles, Chunks, ChunkOk, PoolOk, Le32, Flatten;
    SerializeView(d);
  }

  /** The three insertions of `append_string` build the spliced pool in place. */
  lemma SpliceSteps(d: seq<byte>, v: text)
    requires WellFormed(d) && Storable(v) && |d| < TWO_32
    ensures var p := View(d).pool; var s, n, rec := StringsStart(p), |p|, Record(v);
      && 8 + s <= 8 + n <= |d|
      && var d1 := Insert(d, 8 + s, Le32(n - s));
      && var d2 := Insert(d1, 8 + n + 4, rec);
      && Insert(d2, 8 + n + 4 + |rec|, Zeros(Padding(v)))
         == d[..8] + Spliced(p, v) + Flatten(View(d).chunks)
  {
    hide U16, U32, Tiles, Chunks, ChunkOk, Le32, Flatten, Record, View, Zeros, Padding, Insert, Spliced;
    Pieces(d);
    var x, p, t := d[..8], View(d).pool, Flatten(View(d).chunks);
    var s, n, rec, pad := StringsStart(p), |p|, Record(v), Zeros(Padding(v));
    var p1 := Insert(p, s, Le32(n - s));
    EditMiddle(x, p, t, s, Le32(n - s));
    EditMiddle(x, p1, t, n + 4, rec);
    EditMiddle(x, Insert(p1, n + 4, rec), t, n + 4 + |rec|, pad);
    SplicedInserts(p, v);
  }

  lemma SplicedInserts(p: seq<byte>, v: text)
    requires PoolHead(p) && Storable(v) && |p| < TWO_32
    ensures var s, n, rec := StringsStart(p), |p|, Record(v);
      var p1 := Insert(p, s, Le32(n - s)); var p2 := Insert(p1, n + 4, rec);
      Insert(p2, n + 4 + |rec|, Zeros(Padding(v))) == Spliced(p, v)
  {
    hide U16, U32, Le32, Record, Zeros, Padding;
    var s, n, rec, pad := StringsStart(p), |p|, Record(v), Zeros(Padding(v));
    var p1 := Insert(p, s, Le32(n - s));
    assert Insert(p1, n + 4, rec) == p1 + rec;
    assert Insert(p1 + rec, n + 4 + |rec|, pad) == p1 + rec + pad;
  }

  /** The header fields still read as before right after the splice. */
  lemma SplicedReads(p: seq<byte>, v: text)
    requires PoolHead(p) && Storable(v) && |p| < TWO_32
    ensures U32(Spliced(p, v), 4) == |p| && U32(Spliced(p, v), 20) == StringsStart(p)
  {
    hide U16, Le32, Record, Zeros, Padding;
    var g, s := Spliced(p, v), StringsStart(p);
    assert g[0..s] == p[0..s];
    SameRead(g, 0, p, 0, s, 4);
    SameRead(g, 0, p, 0, s, 20);
  }

  /** The size that `append_string` adds to is still the old one. */
  lemma FixupCount(x: seq<byte>, p: seq<byte>, t: seq<byte>, v: text)
    requires |x| == 8 && PoolHead(p) && Storable(v) && |p| < TWO_32 && Count(p) + 1 < TWO_32
    ensures var d := x + Spliced(p, v) + t;
      |d| == 8 + |p| + GrowthOf(v) + |t| && U32(Put(d, 8 + 8, Le32(Count(p) + 1)), 8 + 4) == |p|
  {
    hide U16, U32, Le32, Spliced, Put, GrowthOf;
    var g := Spliced(p, v);
    var d := x + g + t;
    SplicedReads(p, v);
    assert d[8..8 + |g|] == g[0..|g|];
    SameRead(d, 8, g, 0, |g|, 4);
    PutReads(d, 16, Count(p) + 1, 12);
  }

  /** The header updates of `append_string`, each computed from the field it overwrites. */
  lemma FixupSteps(x: seq<byte>, p: seq<byte>, t: seq<byte>, v: text)
    requires |x| == 8 && PoolHead(p) && Storable(v) && |p| + GrowthOf(v) < TWO_32
    ensures var d := x + Spliced(p, v) + t;
      && var d1 := Put(d, 8 + 8, Le32(Count(p) + 1));
      && var d2 := Put(d1, 8 + 4, Le32(|p| + GrowthOf(v)));
      && U32(d2, 8 + 20) == StringsStart(p)
      && Put(d2, 8 + 20, Le32(StringsStart(p) + 4)) == x + GrowPool(p, v) + t
  {
    hide U16, U32, Le32, Spliced, Put, GrowthOf;
    var g := Spliced(p, v);
    var d := x + g + t;
    var a, b, c := Le32(Count(p) + 1), Le32(|p| + GrowthOf(v)), Le32(StringsStart(p) + 4);
    SplicedReads(p, v);
    EditMiddle(x, g, t, 8, a);
    EditMiddle(x, Put(g, 8, a), t, 4, b);
    EditMiddle(x, Put(Put(g, 8, a), 4, b), t, 20, c);
    assert d[8..8 + |g|] == g[0..|g|];
    SameRead(d, 8, g, 0, |g|, 20);
    PutReads(d, 16, Count(p) + 1, 28);
    PutReads(Put(d, 16, a), 12, |p| + GrowthOf(v), 28);
  }

  /** The outer size field is the last to be fixed. */
  lemma OuterStep(m: Manifest, x: seq<byte>, size: nat)
    requires |x| == 8 && |m.magic| == 4 && x[..4] == m.magic && U32(x, 4) == size
    ensures var d := x + m.pool + Flatten(m.chunks);
      && |d| == FileSize(m) && U32(d, 4) == size
      && (FileSize(m) < TWO_32 ==> Put(d, 4, Le32(FileSize(m))) == Serialize(m))
  {
    hide U16, U32, Le32, Flatten;
    var d := x + m.pool + Flatten(m.chunks);
    assert d[0..8] == x[0..8];
    SameRead(d, 0, x, 0, 8, 4);
    assert d[..4] == m.magic && d[8..] == m.pool + Flatten(m.chunks);
  }

  /** The copied bytes are the template's two chunks. */
  lemma TemplateBytes(d: seq<byte>, i: nat)
    requires WellFormed(d) && i + 1 < |View(d).chunks|
    ensures var m := View(d);
      && ChunkOff(m, i) <= ChunkOff(m, i + 2) <= |d|
      && Slice(d, ChunkOff(m, i), ChunkOff(m, i + 2)) == m.chunks[i] + m.chunks[i + 1]
      && ChunkOff(m, i + 1) == ChunkOff(m, i) + |m.chunks[i]|
      && ChunkOff(m, i + 2) == ChunkOff(m, i + 1) + |m.chunks[i + 1]|
  {
    hide U16, U32, Tiles, Chunks, ChunkOk, PoolOk, Flatten, View;
    ChunkAt(d, i);
    ChunkAt(d, i + 1);
    var m := View(d);
    var a, b, c := ChunkOff(m, i), ChunkOff(m, i + 1), ChunkOff(m, i + 2);
    assert d[a..c] == d[a..b] + d[b..c];
    assert a == c ==> m.chunks[i] + m.chunks[i + 1] == [];
  }

  /** Patching the copy patches its START chunk. */
  lemma CopySteps(s: Chunk, e: Chunk, x: nat)
    requires |s| >= 36 && Rec(s, 0) + 20 <= |s| && x < TWO_32 && U16(s, 24) >= 20
    ensures var elem, r := s + e, 16 + U16(s, 24);
      Put(Put(elem, r + 8, Le32(x)), r + 16, Le32(x)) == Retarget(s, x) + e
  {
    hide U16, U32, Le32, Put;
    var r := 16 + U16(s, 24);
    assert Rec(s, 0) == r;
    PutFieldHeader(s, 0, RAW_FIELD, x);
    EditMiddle([], s, e, r + 8, Le32(x));
    EditMiddle([], Put(s, r + 8, Le32(x)), e, r + 16, Le32(x));
    assert [] + s + e == s + e;
    assert [] + Put(s, r + 8, Le32(x)) + e == Put(s, r + 8, Le32(x)) + e;
    assert [] + Put(Put(s, r + 8, Le32(x)), r + 16, Le32(x)) + e == Put(Put(s, r + 8, Le32(x)), r + 16, Le32(x)) + e;
  }

  /** Inserting the patched copy after the template is the edit of the view, up to the outer size. */
  lemma InsertCopy(d: seq<byte>, i: nat, x: nat)
    requires WellFormed(d) && Valid(View(d)) && IsTemplate(View(d), i) && x < TWO_32
    ensures var m := View(d); var m' := DuplicateAt(m, i, x);
      && Rec(m.chunks[i], 0) + 20 <= |m.chunks[i]| && U16(m.chunks[i], 24) >= 20
      && ChunkOff(m, i + 2) <= |d|
      && FileSize(m') == FileSize(m) + LeafSize(m, i)
      && Insert(d, ChunkOff(m, i + 2), Retarget(m.chunks[i], x) + m.chunks[i + 1])
         == d[..8] + m'.pool + Flatten(m'.chunks)
  {
    hide U16, U32, Tiles, Chunks, ChunkOk, PoolOk, Flatten, View, StartOk, Retarget;
    var m := View(d);
    var cs := m.chunks;
    TemplateRecord(m, i);
    var copy := Retarget(cs[i], x) + cs[i + 1];
    FlattenInserted(cs, i + 2, Retarget(cs[i], x), cs[i + 1]);
    Pieces(d);
    var a, b := Flatten(cs[..i + 2]), Flatten(cs[i + 2..]);
    EditMiddle(d[..8] + m.pool, a + b, [], |a|, copy);
    assert d == d[..8] + m.pool + (a + b) + [];
    assert Insert(a + b, |a|, copy) == a + copy + b;
    assert d[..8] + m.pool + (a + copy + b) + [] == d[..8] + m.pool + (a + copy + b);
  }
}

/** The byte-level reads of a well-formed file, explained on its abstract view. */
module AxmlLookup {
  import opened Wrappers
  import opened Bytes
  import opened Utf16
  import opened AxmlReader
  import opened AxmlFormat

  // ---------------------------------------------------------------- pool

  function HeaderOf(p: seq<byte>): PoolHeader
    requires PoolHead(p)
  {
    PoolHeader(|p|, Count(p), false, 8 + StringsStart(p), 8 + HeaderSize(p), 8 + |p|)
  }

  lemma PoolReads(d: seq<byte>, k: nat)
    requires WellFormed(d)
    ensures |View(d).pool| >= 28 && 8 + |View(d).pool| <= |d|
    ensures k + 2 <= |View(d).pool| ==> U16(d, 8 + k) == U16(View(d).pool, k)
    ensures k + 4 <= |View(d).pool| ==> U32(d, 8 + k) == U32(View(d).pool, k)
  {
    hide U16, U32, Tiles, Chunks, ChunkOk;
    var p := View(d).pool;
    SameRead(d, 8, p, 0, |p|, k);
  }

  /** The cached fields of a well-formed file. */
  lemma ParseView(d: seq<byte>)
    requires WellFormed(d)
    ensures ParsePool(d) == Ok(HeaderOf(View(d).pool))
  {
    hide U16, U32, Tiles, Chunks, ChunkOk, View;
    PoolReads(d, 0);
    PoolReads(d, 2);
    PoolReads(d, 4);
    PoolReads(d, 8);
    PoolReads(d, 12);
    PoolReads(d, 16);
    PoolReads(d, 20);
    PoolReads(d, 24);
  }

  function ReadOf(p: seq<byte>, i: nat): Result<StringRead, Error>
    requires PoolOk(p) && i < Count(p)
  {
    assert Inside(p, i);
    var t := Strings(p)[i];
    if t.None? then Err(UnicodeError) else Ok(StringRead(t.value, 8 + Base(p, i), U16(p, Base(p, i))))
  }

  /** Reading string `i` of the file reads entry `i` of the pool. */
  lemma ReadStringView(d: seq<byte>, i: nat)
    requires WellFormed(d) && i < Count(View(d).pool)
    ensures ReadString(d, HeaderOf(View(d).pool), i) == ReadOf(View(d).pool, i)
  {
    hide U16, U32, Tiles, Chunks, ChunkOk, Decode, View, Slice;
    var p := View(d).pool;
    PoolReads(d, HeaderSize(p) + 4 * i);
    assert Inside(p, i);
    PoolReads(d, Base(p, i));
    UnitsView(d, i);
  }

  lemma UnitsView(d: seq<byte>, i: nat)
    requires WellFormed(d) && i < Count(View(d).pool)
    ensures var p := View(d).pool; var b := 8 + Base(p, i) + 2;
      Inside(p, i) && Slice(d, b, b + 2 * U16(p, Base(p, i))) == Units(p, i)
  {
    hide U16, U32, Tiles, Chunks, ChunkOk;
    var p := View(d).pool;
    assert Inside(p, i);
    var lo, n := Base(p, i) + 2, 2 * U16(p, Base(p, i));
    assert p == d[8..8 + |p|];
    SliceOfSlice(d, 8, 8 + |p|, lo, lo + n);
  }

  // ---------------------------------------------------------------- chunks

  function ChunkOff(m: Manifest, k: nat): nat
    requires k <= |m.chunks|
  {
    8 + |m.pool| + |Flatten(m.chunks[..k])|
  }

  /** Chunk `k` sits between the offsets of chunks `k` and `k + 1`. */
  lemma ChunkAt(d: seq<byte>, k: nat)
    requires WellFormed(d) && k < |View(d).chunks|
    ensures var m := View(d);
      && ChunkOff(m, k + 1) == ChunkOff(m, k) + |m.chunks[k]| <= |d|
      && d[ChunkOff(m, k)..ChunkOff(m, k + 1)] == m.chunks[k]
      && d[..ChunkOff(m, k)] == d[..8] + m.pool + Flatten(m.chunks[..k])
      && d[ChunkOff(m, k + 1)..] == Flatten(m.chunks[k + 1..])
  {
    hide U16, U32, Tiles, Chunks, ChunkOk, PoolOk, Le32, Flatten;
    var m := View(d);
    SerializeView(d);
    FlattenSplit(m.chunks, k);
    assert m.magic + Le32(FileSize(m)) == d[..8];
    SplitAt(d, d[..8] + m.pool, Flatten(m.chunks[..k]), m.chunks[k], Flatten(m.chunks[k + 1..]));
  }

  lemma SplitAt(d: seq<byte>, h: seq<byte>, a: seq<byte>, c: seq<byte>, b: seq<byte>)
    requires d == h + (a + c + b)
    ensures d[..|h| + |a|] == h + a && d[|h| + |a|..|h| + |a| + |c|] == c && d[|h| + |a| + |c|..] == b
  {
  }

  lemma ChunkEnd(d: seq<byte>)
    requires WellFormed(d)
    ensures ChunkOff(View(d), |View(d).chunks|) == |d|
  {
    hide U16, U32, Tiles, Chunks, ChunkOk, PoolOk, Flatten, Serialize;
    SerializeView(d);
    var cs := View(d).chunks;
    assert cs[..|cs|] == cs;
  }

  /** Reads inside chunk `k`. */
  lemma ChunkReads(d: seq<byte>, k: nat, o: nat)
    requires WellFormed(d) && k < |View(d).chunks|
    ensures var off, c := ChunkOff(View(d), k), View(d).chunks[k];
      && off + |c| <= |d|
      && (o + 2 <= |c| ==> U16(d, off + o) == U16(c, o))
      && (o + 4 <= |c| ==> U32(d, off + o) == U32(c, o))
  {
    hide U16, U32, Tiles, Chunks, ChunkOk, PoolOk, Flatten;
    ChunkAt(d, k);
    var off, c := ChunkOff(View(d), k), View(d).chunks[k];
    SameRead(d, off, c, 0, |c|, o);
  }

  function Kind(c: Chunk): nat
    requires |c| >= 8
  {
    U16(c, 0)
  }

  ghost predicate AllOk(cs: seq<Chunk>, count: nat) {
    forall k :: 0 <= k < |cs| ==> ChunkOk(cs[k], count)
  }

  /** The leaf search over chunks: the index of the START chunk. */
  ghost function FirstLeaf(strs: seq<Option<text>>, cs: seq<Chunk>, k: nat, tag: text): Result<nat, Error>
    requires AllOk(cs, |strs|)
    decreases |cs| - k
  {
    if k >= |cs| then Err(ValueError)
    else if Kind(cs[k]) != START_ELEMENT then FirstLeaf(strs, cs, k + 1, tag)
    else
      var name := strs[U32(cs[k], 20)];
      if name.None? then Err(UnicodeError)
      else if name.value != tag then FirstLeaf(strs, cs, k + 1, tag)
      else if k + 1 == |cs| then Err(StructError)
      else if Kind(cs[k + 1]) != END_ELEMENT then FirstLeaf(strs, cs, k + 1, tag)
      else Ok(k)
  }

  /** A START chunk with this name, directly followed by an END chunk. */
  ghost predicate IsLeaf(strs: seq<Option<text>>, cs: seq<Chunk>, k: nat, tag: text)
    requires AllOk(cs, |strs|)
  {
    && k + 1 < |cs| && Kind(cs[k]) == START_ELEMENT && Kind(cs[k + 1]) == END_ELEMENT
    && strs[U32(cs[k], 20)] == Some(tag)
  }

  /** The search returns the first leaf with that name. */
  lemma {:induction false} FirstLeafIsFirst(strs: seq<Option<text>>, cs: seq<Chunk>, k: nat, tag: text)
    requires AllOk(cs, |strs|) && FirstLeaf(strs, cs, k, tag).Ok?
    ensures var i := FirstLeaf(strs, cs, k, tag).value;
      k <= i && IsLeaf(strs, cs, i, tag) && forall j :: k <= j < i ==> !IsLeaf(strs, cs, j, tag)
    decreases |cs| - k
  {
    hide U16, U32, StartOk;
    if !IsLeaf(strs, cs, k, tag) {
      FirstLeafIsFirst(strs, cs, k + 1, tag);
    }
  }

  /** Chunks `k` up to `i` hold no leaf of that name, and no START chunk whose name does not decode. */
  ghost predicate Passed(strs: seq<Option<text>>, cs: seq<Chunk>, k: nat, i: nat, tag: text)
    requires AllOk(cs, |strs|)
  {
    forall j: nat :: k <= j < i ==> !IsLeaf(strs, cs, j, tag) && !Undecodable(strs, cs, j)
  }

  /** The last chunk is a START chunk of that name. */
  ghost predicate LastIsNamed(strs: seq<Option<text>>, cs: seq<Chunk>, k: nat, tag: text)
    requires AllOk(cs, |strs|)
  {
    var n := |cs| - 1;
    k <= n && Kind(cs[n]) == START_ELEMENT && strs[U32(cs[n], 20)] == Some(tag)
  }

  ghost predicate Undecodable(strs: seq<Option<text>>, cs: seq<Chunk>, i: nat)
    requires AllOk(cs, |strs|)
  {
    i < |cs| && Kind(cs[i]) == START_ELEMENT && strs[U32(cs[i], 20)].None?
  }

  /** Where the search stops, and why. */
  lemma {:induction false} LeafStop(strs: seq<Option<text>>, cs: seq<Chunk>, k: nat, tag: text) returns (j: nat)
    requires AllOk(cs, |strs|) && k <= |cs|
    ensures k <= j <= |cs| && Passed(strs, cs, k, j, tag)
    ensures var r := FirstLeaf(strs, cs, k, tag);
      || (Undecodable(strs, cs, j) && r == Err(UnicodeError))
      || (IsLeaf(strs, cs, j, tag) && r == Ok(j))
      || (j == |cs| && r == Err(if LastIsNamed(strs, cs, k, tag) then StructError else ValueError))
    decreases |cs| - k
  {
    hide U16, U32, StartOk, RecordOk;
    j := k;
    if k < |cs| && !Undecodable(strs, cs, k) && !IsLeaf(strs, cs, k, tag) {
      assert ChunkOk(cs[k], |strs|);
      j := LeafStop(strs, cs, k + 1, tag);
      forall x: nat | k <= x < j
        ensures !IsLeaf(strs, cs, x, tag) && !Undecodable(strs, cs, x)
      {
        assert x == k || k + 1 <= x;
      }
    }
  }

  /**
   Every result of the search. It finds the first leaf of that name unless a name in front of it does not
   decode; without a leaf it fails for want of one, or reads past the end behind a last START of that name.
   */
  lemma FirstLeafExact(strs: seq<Option<text>>, cs: seq<Chunk>, k: nat, tag: text)
    requires AllOk(cs, |strs|) && k <= |cs|
    ensures var r := FirstLeaf(strs, cs, k, tag);
      && (forall i: nat :: r == Ok(i) <==> k <= i && IsLeaf(strs, cs, i, tag) && Passed(strs, cs, k, i, tag))
      && (r == Err(UnicodeError)
          <==> exists i: nat :: k <= i && Undecodable(strs, cs, i) && Passed(strs, cs, k, i, tag))
      && (r == Err(StructError) <==> Passed(strs, cs, k, |cs|, tag) && LastIsNamed(strs, cs, k, tag))
      && (r == Err(ValueError) <==> Passed(strs, cs, k, |cs|, tag) && !LastIsNamed(strs, cs, k, tag))
      && r != Err(AssertionError)
  {
    hide U16, U32, StartOk, RecordOk, FirstLeaf, AllOk, LastIsNamed;
    var j := LeafStop(strs, cs, k, tag);
    forall i: nat | k <= i < |cs| && Undecodable(strs, cs, i)
      ensures !IsLeaf(strs, cs, i, tag)
    {
    }
  }

  ghost function LeafOf(m: Manifest, i: nat): Leaf
    requires i + 1 < |m.chunks|
  {
    Leaf(ChunkOff(m, i), |m.chunks[i]|, ChunkOff(m, i + 1), |m.chunks[i + 1]|)
  }

  ghost function LeafResult(m: Manifest, r: Result<nat, Error>): Result<Leaf, Error>
    requires r.Ok? ==> r.value + 1 < |m.chunks|
  {
    if r.Err? then Err(r.error) else Ok(LeafOf(m, r.value))
  }

  lemma ViewAllOk(d: seq<byte>)
    requires WellFormed(d)
    ensures var m := View(d); AllOk(m.chunks, |Strings(m.pool)|)
  {
    hide U16, U32, Tiles, Chunks, ChunkOk, PoolOk;
  }

  /** The byte-level search, error for error, is the search over the chunks of the view. */
  lemma {:induction false} FindLeafView(d: seq<byte>, k: nat, tag: text)
    requires WellFormed(d) && k <= |View(d).chunks|
    requires AllOk(View(d).chunks, |Strings(View(d).pool)|)
    ensures var m := View(d); var r := FirstLeaf(Strings(m.pool), m.chunks, k, tag);
      && (r.Ok? ==> r.value + 1 < |m.chunks|)
      && FindLeaf(d, HeaderOf(m.pool), ChunkOff(m, k), tag) == LeafResult(m, r)
    decreases |View(d).chunks| - k
  {
    var m := View(d);
    var strs := Strings(m.pool);
    if k == |m.chunks| {
      ChunkEnd(d);
    } else {
      FindLeafView(d, k + 1, tag);
      FindLeafStep(d, k, tag);
    }
  }

  lemma HeaderView(d: seq<byte>, k: nat)
    requires WellFormed(d) && k < |View(d).chunks|
    ensures var m := View(d); var c := m.chunks[k];
      ChunkShape(c) && ReadHeader(d, ChunkOff(m, k)) == Ok((Kind(c), |c|)) && ChunkOff(m, k + 1) <= |d|
  {
    hide U16, U32, Tiles, Chunks, StartOk, PoolOk, Flatten;
    ValidShapes(View(d));
    assert ChunkOk(View(d).chunks[k], Count(View(d).pool));
    ChunkAt(d, k);
    ChunkReads(d, k, 0);
    ChunkReads(d, k, 2);
    ChunkReads(d, k, 4);
  }

  function StartOf(c: Chunk, off: nat): StartElement
    requires |c| >= 36
  {
    StartElement(off, U32(c, 20), off + 16 + U16(c, 24), AttrCount(c), AttrSize(c))
  }

  lemma StartView(d: seq<byte>, k: nat)
    requires WellFormed(d) && k < |View(d).chunks|
    ensures var m := View(d); var c := m.chunks[k];
      ChunkOk(c, Count(m.pool)) &&
      (Kind(c) == START_ELEMENT ==> ReadStart(d, ChunkOff(m, k)) == Ok(StartOf(c, ChunkOff(m, k))))
  {
    hide U16, U32, Tiles, Chunks, RecordOk, PoolOk, Flatten;
    ValidShapes(View(d));
    assert ChunkOk(View(d).chunks[k], Count(View(d).pool));
    ChunkReads(d, k, 16);
    ChunkReads(d, k, 20);
    ChunkReads(d, k, 24);
    ChunkReads(d, k, 26);
    ChunkReads(d, k, 28);
  }

  lemma FindLeafStep(d: seq<byte>, k: nat, tag: text)
    requires WellFormed(d) && k < |View(d).chunks|
    requires AllOk(View(d).chunks, |Strings(View(d).pool)|)
    ensures var m := View(d); var h, off, strs := HeaderOf(m.pool), ChunkOff(m, k), Strings(m.pool);
      var next := FindLeaf(d, h, ChunkOff(m, k + 1), tag);
      FindLeaf(d, h, off, tag) ==
        if Kind(m.chunks[k]) != START_ELEMENT then next
        else if strs[U32(m.chunks[k], 20)].None? then Err(UnicodeError)
        else if strs[U32(m.chunks[k], 20)].value != tag then next
        else if k + 1 == |m.chunks| then Err(StructError)
        else if Kind(m.chunks[k + 1]) != END_ELEMENT then next
        else Ok(LeafOf(m, k))
  {
    hide U16, U32, Tiles, Chunks, RecordOk, PoolOk, Flatten, ReadHeader, ReadStart, ReadString, View, Decode, Units;
    var m := View(d);
    HeaderView(d, k);
    StartView(d, k);
    ChunkAt(d, k);
    if Kind(m.chunks[k]) == START_ELEMENT {
      ReadStringView(d, U32(m.chunks[k], 20));
      if k + 1 == |m.chunks| {
        ChunkEnd(d);
      } else {
        HeaderView(d, k + 1);
        ChunkReads(d, k + 1, 0);
        ChunkReads(d, k + 1, 4);
      }
    }
  }

  /** The START chunks from chunk `k` on, with the offsets at which they sit. */
  ghost function StartsFrom(m: Manifest, k: nat): seq<StartElement>
    requires Valid(m) && k <= |m.chunks|
    decreases |m.chunks| - k
  {
    if k == |m.chunks| then []
    else
      StartLength(m, k);
      (if Kind(m.chunks[k]) == START_ELEMENT then [StartOf(m.chunks[k], ChunkOff(m, k))] else [])
        + StartsFrom(m, k + 1)
  }

  lemma StartLength(m: Manifest, k: nat)
    requires Valid(m) && k < |m.chunks|
    ensures |m.chunks[k]| >= 8 && (Kind(m.chunks[k]) == START_ELEMENT ==> |m.chunks[k]| >= 36)
  {
    hide U16, U32, RecordOk, Flatten, PoolOk;
    assert ChunkOk(m.chunks[k], Count(m.pool));
  }

  /** On a well-formed file the walk succeeds and yields exactly the START chunks, in order. */
  lemma {:induction false} WalkYieldsStarts(d: seq<byte>, k: nat)
    requires WellFormed(d) && Valid(View(d)) && k <= |View(d).chunks|
    ensures StartElements(d, ChunkOff(View(d), k)) == Ok(StartsFrom(View(d), k))
    decreases |View(d).chunks| - k
  {
    hide U16, U32, Tiles, Chunks, ChunkOk, PoolOk, Flatten, View, ReadHeader, ReadStart, ChunkOff;
    var m := View(d);
    if k == |m.chunks| {
      ChunkEnd(d);
    } else {
      HeaderView(d, k);
      StartView(d, k);
      StartLength(m, k);
      ChunkAt(d, k);
      WalkYieldsStarts(d, k + 1);
    }
  }
}

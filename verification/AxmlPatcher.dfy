/**
 The patcher itself: a mutable buffer with cached header fields. `Valid` says that the buffer is a
 well-formed file and that the cached fields are what a fresh parse would give.
 */
module AxmlPatcher {
  import opened Wrappers
  import opened Bytes
  import opened Utf16
  import opened AxmlReader
  import opened AxmlFormat
  import opened AxmlLookup
  import opened AxmlEdits
  import opened AxmlElements
  import opened AxmlManifest
  import opened AxmlSplices
  import opened AxmlCalls
  import opened AxmlInPlace
  import opened AxmlDocument
  import opened AxmlRecipe

  /** What the leaf search means for a well-formed file. */
  lemma SearchView(d: seq<byte>, tag: text)
    requires WellFormed(d)
    ensures var m := View(d);
      && AllOk(m.chunks, |Strings(m.pool)|)
      && var r := FirstLeaf(Strings(m.pool), m.chunks, 0, tag);
      && FindLeaf(d, HeaderOf(m.pool), 8 + |m.pool|, tag)
         == (if r.Err? then Err(r.error)
             else if r.value + 1 < |m.chunks| then Ok(LeafOf(m, r.value))
             else Err(StructError))
      && (r.Ok? ==> r.value + 1 < |m.chunks| && IsLeaf(Strings(m.pool), m.chunks, r.value, tag))
  {
    hide U16, U32, Tiles, Chunks, ChunkOk, PoolOk, Flatten, View, FindLeaf, FirstLeaf, Strings;
    ViewAllOk(d);
    FindLeafView(d, 0, tag);
    var m := View(d);
    var r := FirstLeaf(Strings(m.pool), m.chunks, 0, tag);
    FirstOffset(m);
    if r.Ok? {
      FirstLeafIsFirst(Strings(m.pool), m.chunks, 0, tag);
    }
  }

  lemma NothingFlat(cs: seq<Chunk>)
    ensures Flatten(cs[..0]) == []
  {
  }

  lemma InsertNothing(b: seq<byte>, o: nat)
    ensures InsertAt(b, o, Zeros(0)) == b
  {
    var k := if o <= |b| then o else |b|;
    assert InsertAt(b, o, Zeros(0)) == b[..k] + [] + b[k..];
  }

  /** With both headers present, the parse fails only on the chunk's kind. */
  lemma ParseError(d: seq<byte>)
    requires |d| >= 36 && ParsePool(d).Err?
    ensures ParsePool(d).error == AssertionError
  {
    hide U16, U32;
  }

  /** Reading through the cached fields reads the pool of the view. */
  lemma ReadCached(d: seq<byte>, h: PoolHeader, i: nat)
    requires WellFormed(d) && ParsePool(d) == Ok(h)
    ensures var p := View(d).pool; h == HeaderOf(p) && (i < Count(p) ==> ReadString(d, h, i) == ReadOf(p, i))
  {
    hide U16, U32, Decode, Tiles, Chunks, ChunkOk, ReadString, ReadOf;
    ParseView(d);
    if i < Count(View(d).pool) {
      ReadStringView(d, i);
    }
  }

  /** The cached fields an append starts from. */
  lemma AppendStart(d: seq<byte>, h: PoolHeader)
    requires WellFormed(d) && ParsePool(d) == Ok(h)
    ensures var m := View(d); var p := m.pool;
      && PoolHead(p) && h == HeaderOf(p) && StringsStart(p) <= |p| && 8 + |p| <= |d| < TWO_32
      && Count(p) + 1 < TWO_32 && StringsStart(p) + 4 < TWO_32
      && d == d[..8] + p + Flatten(m.chunks) && |d[..8]| == 8 && U32(d[..8], 4) == |d|
      && |m.magic| == 4 && d[..8][..4] == m.magic && FileSize(m) == |d|
      && AxmlFormat.Valid(m)
  {
    hide U16, U32, Tiles, Chunks, ChunkOk, Flatten, Inside, Decode;
    var p := View(d).pool;
    ParseView(d);
    Pieces(d);
    U32Bound(d, 4);
    assert PoolOk(p);
    assert 4 * Count(p) + 28 <= |p| < TWO_32;
    assert d[..8][0..8] == d[0..8];
    SameRead(d[..8], 0, d, 0, 8, 4);
  }

  /** Once the outer size is right, the buffer is the edited file. */
  lemma AppendEnd(d: seq<byte>, m: Manifest, v: text)
    requires AxmlFormat.Valid(m) && Storable(v) && FileSize(m) + GrowthOf(v) < TWO_32
    requires |m.pool| + GrowthOf(v) < TWO_32
    requires FileSize(AppendTo(m, v)) < TWO_32 && d == Serialize(AppendTo(m, v))
    ensures var p' := AppendTo(m, v).pool;
      && WellFormed(d) && View(d) == AppendTo(m, v)
      && PoolHead(p') && Count(p') == Count(m.pool) + 1 && ParsePool(d) == Ok(HeaderOf(p'))
  {
    hide U16, U32, Tiles, Chunks, ChunkOk, Flatten, GrowPool, Inside, Serialize, GrowthOf, ParsePool;
    AppendValid(m, v);
    ViewSerialize(AppendTo(m, v));
    ParseView(d);
  }

  lemma FirstOffset(m: Manifest)
    ensures ChunkOff(m, 0) == 8 + |m.pool|
  {
    NothingFlat(m.chunks);
  }

  // ---------------------------------------------------------------- choosing the template

  ghost function Found(m: Manifest, tag: text): Result<nat, Error>
    requires AxmlFormat.Valid(m)
  {
    ManifestAllOk(m);
    FirstLeaf(Strings(m.pool), m.chunks, 0, tag)
  }

  lemma ManifestAllOk(m: Manifest)
    requires AxmlFormat.Valid(m)
    ensures AllOk(m.chunks, |Strings(m.pool)|)
  {
    hide ChunkOk, PoolOk;
  }

  /** The leaf found has one attribute and the index fits its field, but the copy does not fit the file. */
  ghost predicate TooLarge(m: Manifest, tag: text, idx: int)
    requires AxmlFormat.Valid(m)
  {
    && Found(m, tag).Ok? && 0 <= idx < 0x8000_0000
    && (FoundLeaf(m, tag); AttrCount(m.chunks[Found(m, tag).value]) == 1)
    && FileSize(m) + LeafSize(m, Found(m, tag).value) >= TWO_32
  }

  /** Which chunk a duplication copies, or why it copies none. */
  ghost function Choose(m: Manifest, tag: text, idx: int): (r: Result<nat, Error>)
    requires AxmlFormat.Valid(m)
    ensures r.Ok? ==>
      && Found(m, tag) == r && IsTemplate(m, r.value) && 0 <= idx < 0x8000_0000
      && FileSize(m) + LeafSize(m, r.value) < TWO_32
    ensures TooLarge(m, tag, idx) ==> r == Err(StructError) && IsTemplate(m, Found(m, tag).value)
  {
    ManifestAllOk(m);
    var found := Found(m, tag);
    if found.Err? then found
    else
      FoundLeaf(m, tag);
      if AttrCount(m.chunks[found.value]) != 1 then Err(AssertionError)
      else if idx < 0 || idx >= 0x8000_0000 || TooLarge(m, tag, idx) then Err(StructError)
      else found
  }

  lemma FoundLeaf(m: Manifest, tag: text)
    requires AxmlFormat.Valid(m) && Found(m, tag).Ok?
    ensures var i := Found(m, tag).value;
      && i + 1 < |m.chunks| && |m.chunks[i]| >= 36 && ChunkOk(m.chunks[i], Count(m.pool))
      && (AttrCount(m.chunks[i]) == 1 ==> IsTemplate(m, i))
  {
    hide U16, U32, RecordOk, Flatten, Strings, PoolOk, FirstLeaf;
    ManifestAllOk(m);
    FirstLeafIsFirst(Strings(m.pool), m.chunks, 0, tag);
    var i := Found(m, tag).value;
    assert ChunkOk(m.chunks[i], Count(m.pool)) && ChunkOk(m.chunks[i + 1], Count(m.pool));
  }

  /** The copied bytes begin with the START chunk, so its fields can be read from the copy. */
  lemma CopySource(d: seq<byte>, tag: text, i: nat)
    requires WellFormed(d) && AxmlFormat.Valid(View(d)) && Found(View(d), tag) == Ok(i)
    ensures var m := View(d);
      && i + 1 < |m.chunks| && |m.chunks[i]| >= 36
      && ChunkOff(m, i + 1) + |m.chunks[i + 1]| == ChunkOff(m, i + 2) <= |d|
      && var elem := Slice(d, ChunkOff(m, i), ChunkOff(m, i + 2));
      && elem == m.chunks[i] + m.chunks[i + 1]
      && U16(elem, 24) == U16(m.chunks[i], 24) && U16(elem, 28) == AttrCount(m.chunks[i])
  {
    hide U16, U32, Tiles, Chunks, ChunkOk, PoolOk, Flatten, View, Strings, FirstLeaf, Slice;
    var m := View(d);
    FoundLeaf(m, tag);
    TemplateBytes(d, i);
    var s, elem := m.chunks[i], m.chunks[i] + m.chunks[i + 1];
    assert elem[0..|s|] == s[0..|s|];
    SameRead(elem, 0, s, 0, |s|, 24);
    SameRead(elem, 0, s, 0, |s|, 28);
  }

  lemma CopyChoice(m: Manifest, tag: text, idx: int)
    requires AxmlFormat.Valid(m) && Found(m, tag).Ok? && 0 <= idx < 0x8000_0000
    requires Found(m, tag).value + 1 < |m.chunks| && |m.chunks[Found(m, tag).value]| >= 36
    requires AttrCount(m.chunks[Found(m, tag).value]) == 1
    ensures var i := Found(m, tag).value;
      && IsTemplate(m, i) && Rec(m.chunks[i], 0) + 20 <= |m.chunks[i]| && U16(m.chunks[i], 24) >= 20
      && Rec(m.chunks[i], 0) == 16 + U16(m.chunks[i], 24)
      && (Choose(m, tag, idx).Ok? <==> FileSize(m) + LeafSize(m, i) < TWO_32)
      && (Choose(m, tag, idx).Err? ==> Choose(m, tag, idx) == Err(StructError) && TooLarge(m, tag, idx))
  {
    hide U16, U32, Flatten, Strings, PoolOk, FirstLeaf, ChunkOk, StartOk, Found;
    FoundLeaf(m, tag);
    TemplateRecord(m, Found(m, tag).value);
    assert 0 * AttrSize(m.chunks[Found(m, tag).value]) == 0;
  }

  /** Every outcome of a duplication of a well-formed file. */
  lemma DuplicateExact(d: seq<byte>, h: PoolHeader, tag: text, idx: int)
    requires WellFormed(d) && ParsePool(d) == Ok(h) && AxmlFormat.Valid(View(d)) && |d| >= 36
    ensures var m := View(d); var found, r := Found(m, tag), DuplicateCall(d, h, tag, idx).1;
      && (found.Err? ==> r == Err(found.error))
      && (found.Ok? ==>
            && found.value + 1 < |m.chunks| && |m.chunks[found.value]| >= 36
            && var s, e := m.chunks[found.value], m.chunks[found.value + 1];
            && (U16(s, 28) != 1 ==> r == Err(AssertionError))
            && (U16(s, 28) == 1 && (idx < 0 || 2147483648 <= idx || |d| + |s| + |e| >= 4294967296) ==>
                  r == Err(StructError))
            && (U16(s, 28) == 1 && 0 <= idx < 2147483648 && |d| + |s| + |e| < 4294967296 ==>
                  r == Ok(ChunkOff(m, found.value + 2))))
  {
    hide U16, U32, ParsePool, Tiles, Chunks, ChunkOk, Flatten, View, PoolOk, PoolHead, DuplicateCall, DuplicateAt;
    hide FirstLeaf, Strings, StartOk, WellFormed, Found, Serialize;
    AppendStart(d, h);
    DuplicateCallView(d, h, tag, idx);
    if Found(View(d), tag).Ok? {
      FoundLeaf(View(d), tag);
    }
  }

  /** After the copy the cached fields still match, and the file is well formed if the index is. */
  lemma DuplicateEnd(d: seq<byte>, d': seq<byte>, i: nat, x: nat)
    requires WellFormed(d) && AxmlFormat.Valid(View(d)) && IsTemplate(View(d), i) && x < TWO_32
    requires FileSize(View(d)) + LeafSize(View(d), i) < TWO_32
    requires FileSize(DuplicateAt(View(d), i, x)) < TWO_32 && d' == Serialize(DuplicateAt(View(d), i, x))
    ensures ParsePool(d') == ParsePool(d)
    ensures x < Count(View(d).pool) ==> WellFormed(d') && View(d') == DuplicateAt(View(d), i, x)
  {
    hide U16, U32, Le32, Tiles, Chunks, ChunkOk, PoolOk, Flatten, View, StartOk, Retarget, ParsePool;
    var m := View(d);
    Pieces(d);
    var m' := DuplicateAt(m, i, x);
    assert m'.pool == m.pool;
    var p := m.pool;
    assert d[8..36] == p[..28];
    assert d'[8..36] == p[..28] by {
      var h := m'.magic + Le32(FileSize(m'));
      assert d' == h + (p + Flatten(m'.chunks)) && |h| == 8;
    }
    ParseFrame(d, d');
    if x < Count(p) {
      DuplicateValid(m, i, x);
      ViewSerialize(m');
    }
  }

  // ---------------------------------------------------------------- the calls on well-formed files

  lemma SpliceView(d: seq<byte>, h: PoolHeader, v: text)
    requires WellFormed(d) && ParsePool(d) == Ok(h) && Storable(v)
    ensures var m := View(d);
      && Begins(h, v) && PoolHead(m.pool) && |m.pool| < TWO_32
      && SpliceCall(d, h, v) == d[..8] + Spliced(m.pool, v) + Flatten(m.chunks)
  {
    hide U16, U32, Le32, Zeros, Insert, ParsePool, Tiles, Chunks, ChunkOk, Spliced, Padding, Flatten, View, Record;
    hide WellFormed, PoolHead, FileSize;
    AppendStart(d, h);
    SpliceSteps(d, v);
  }

  /** On a well-formed file an append succeeds exactly when it fits, and is the edited view. */
  lemma AppendCallView(d: seq<byte>, h: PoolHeader, v: text)
    requires WellFormed(d) && ParsePool(d) == Ok(h)
    ensures |d| >= 36
    ensures var r, m := AppendCall(d, h, v), View(d);
      && (r.1.Ok? <==> Storable(v) && |d| + GrowthOf(v) < TWO_32)
      && (!Encodable(v) ==> r.1 == Err(UnicodeError))
      && (!Storable(v) ==> r.0 == d)
      && (r.1.Err? && Encodable(v) ==> r.1 == Err(StructError))
      && (r.1.Ok? ==>
            && r.1 == Ok(h.stringCount) && |m.pool| + GrowthOf(v) < TWO_32
            && WellFormed(r.0) && View(r.0) == AppendTo(m, v)
            && PoolHead(View(r.0).pool) && ParsePool(r.0) == Ok(HeaderOf(View(r.0).pool))
            && Count(View(r.0).pool) == h.stringCount + 1
            && HoldsRecord(View(r.0).pool, h.stringCount, v))
  {
    hide U16, U32, Le32, Put, ParsePool, Spliced, GrowPool, Tiles, Chunks, ChunkOk, Flatten, View, PoolHead;
    hide PoolOk, Serialize, Encodable, Encode, WellFormed, FileSize, GrowthOf, SpliceCall, Record, HoldsRecord;
    AppendStart(d, h);
    var m := View(d);
    var p, t := m.pool, Flatten(m.chunks);
    if Storable(v) {
      SpliceView(d, h, v);
      FixupCount(d[..8], p, t, v);
      if |p| + GrowthOf(v) < TWO_32 {
        FixupSteps(d[..8], p, t, v);
        OuterStep(AppendTo(m, v), d[..8], |d|);
        if |d| + GrowthOf(v) < TWO_32 {
          AppendEnd(Serialize(AppendTo(m, v)), m, v);
          GrowRecord(p, v);
        }
      }
    }
  }

  /** A read that finds the same text `k` bytes further on. */
  function Later(r: Result<StringRead, Error>, k: nat): Result<StringRead, Error> {
    if r.Err? then r else Ok(r.value.(base := r.value.base + k))
  }

  lemma GrownReads(p: seq<byte>, v: text, j: nat)
    requires PoolOk(p) && Storable(v) && |p| + GrowthOf(v) < TWO_32 && j <= Count(p)
    ensures var g := GrowPool(p, v);
      && PoolOk(g) && Count(g) == Count(p) + 1
      && (j < Count(p) ==> ReadOf(g, j) == Later(ReadOf(p, j), 4))
      && (j == Count(p) ==> (ReadOf(g, j).Ok? && ReadOf(g, j).value.text == v <==> Bmp(v)))
  {
    hide U16, U32, Encode, Decode, GrowPool, PoolHead, Strings, Units, Base;
    GrowStrings(p, v);
    StringsCount(p);
    if j < Count(p) {
      GrowKeeps(p, v, j);
      GrownLength(p, v, j);
    } else {
      ShortReadExact(v);
    }
  }

  /** The length field of an old string, which is in front of its units. */
  lemma GrownLength(p: seq<byte>, v: text, j: nat)
    requires PoolOk(p) && Storable(v) && |p| + GrowthOf(v) < TWO_32 && j < Count(p)
    ensures var g := GrowPool(p, v);
      && PoolHead(g) && j < Count(g) && Inside(p, j) && Inside(g, j) && U16(g, Base(g, j)) == U16(p, Base(p, j))
  {
    hide U16, U32, Encode, GrowPool;
    GrowHead(p, v);
    GrowKeeps(p, v, j);
    assert |Units(GrowPool(p, v), j)| == |Units(p, j)|;
  }

  /**
   Append, then read, on the bytes: the returned index reads the appended text exactly when it is all
   BMP, and every old index reads what it read before, four bytes further on.
   */
  lemma AppendReadBack(d: seq<byte>, h: PoolHeader, v: text)
    requires WellFormed(d) && ParsePool(d) == Ok(h) && |d| >= 36 && AppendCall(d, h, v).1.Ok?
    ensures var (d', r) := AppendCall(d, h, v); var parsed := ParsePool(d');
      && r == Ok(h.stringCount) && parsed.Ok? && parsed.value.stringCount == h.stringCount + 1
      && (var read := ReadString(d', parsed.value, h.stringCount); read.Ok? && read.value.text == v <==> Bmp(v))
      && forall j: nat :: j < h.stringCount ==> ReadString(d', parsed.value, j) == Later(ReadString(d, h, j), 4)
  {
    hide U16, U32, ParsePool, ReadString, ReadOf, AppendCall, View, WellFormed, Bmp, Storable, GrowthOf, PoolHead;
    hide GrowPool, Tiles, Chunks, ChunkOk, Later, PoolOk;
    AppendCallView(d, h, v);
    var d' := AppendCall(d, h, v).0;
    var p := View(d).pool;
    var h' := ParsePool(d').value;
    ReadCached(d, h, 0);
    forall j: nat | j <= h.stringCount
      ensures j < h.stringCount ==> ReadString(d', h', j) == Later(ReadString(d, h, j), 4)
      ensures var read := ReadString(d', h', j); j == h.stringCount ==> (read.Ok? && read.value.text == v <==> Bmp(v))
    {
      ReadCached(d, h, j);
      ReadCached(d', h', j);
      ViewPool(d);
      GrownReads(p, v, j);
    }
  }

  lemma ViewPool(d: seq<byte>)
    requires WellFormed(d)
    ensures AxmlFormat.Valid(View(d)) && PoolOk(View(d).pool)
  {
    hide Tiles, Chunks, ChunkOk, PoolOk;
  }

  /** On a well-formed file a duplication is the edit of the view for the chosen template. */
  lemma DuplicateCallView(d: seq<byte>, h: PoolHeader, tag: text, idx: int)
    requires WellFormed(d) && ParsePool(d) == Ok(h) && AxmlFormat.Valid(View(d))
    ensures |d| >= 36
    ensures var m, r := View(d), DuplicateCall(d, h, tag, idx); var choice := Choose(m, tag, idx);
      && (choice.Err? ==> r.1 == Err(choice.error))
      && (choice.Err? && !TooLarge(m, tag, idx) ==> r.0 == d)
      && (TooLarge(m, tag, idx) ==>
            var m' := DuplicateAt(m, Found(m, tag).value, idx); r.0 == d[..8] + m'.pool + Flatten(m'.chunks))
      && (choice.Ok? ==>
            var m' := DuplicateAt(m, choice.value, idx);
            r.1 == Ok(ChunkOff(m, choice.value + 2)) && FileSize(m') < TWO_32 && r.0 == Serialize(m'))
  {
    hide U16, U32, Le32, Put, ParsePool, Tiles, Chunks, ChunkOk, Flatten, View, PoolOk, PoolHead, Serialize;
    hide FindLeaf, FirstLeaf, Strings, Retarget, StartOk, Insert, Slice, FileSize, WellFormed, Rec;
    var m := View(d);
    AppendStart(d, h);
    SearchView(d, tag);
    if Found(m, tag).Ok? {
      var i := Found(m, tag).value;
      CopySource(d, tag, i);
      FoundLeaf(m, tag);
      if AttrCount(m.chunks[i]) == 1 && 0 <= idx < 0x8000_0000 {
        CopyChoice(m, tag, idx);
        CopySteps(m.chunks[i], m.chunks[i + 1], idx);
        InsertCopy(d, i, idx);
        OuterStep(DuplicateAt(m, i, idx), d[..8], |d|);
      }
    }
  }

  class AXML {
    var data: seq<byte>
    var spOff: nat
    var spSize: nat
    var isUtf8: bool
    var stringCount: nat
    var stringsStartAbs: nat
    var offsetsOff: nat
    var nextChunkOff: nat

    ghost function Cached(): PoolHeader
      reads this
    {
      PoolHeader(spSize, stringCount, isUtf8, stringsStartAbs, offsetsOff, nextChunkOff)
    }

    ghost predicate Synced()
      reads this
    {
      spOff == 8 && ParsePool(data) == Ok(Cached())
    }

    ghost predicate Valid()
      reads this
    {
      WellFormed(data) && Synced()
    }

    constructor Unparsed(bytes: seq<byte>)
      ensures data == bytes
    {
      data := bytes;
      spOff, spSize, isUtf8, stringCount := 0, 0, false, 0;
      stringsStartAbs, offsetsOff, nextChunkOff := 0, 0, 0;
    }

    /** What every patcher keeps from the moment it is opened. */
    ghost predicate Opened()
      reads this
    {
      spOff == 8 && |data| >= 36
    }

    static method Open(bytes: seq<byte>) returns (r: Result<AXML, Error>)
      ensures r.Ok? <==> ParsePool(bytes).Ok?
      ensures r.Err? ==> r.error == ParsePool(bytes).error
      ensures r.Ok? ==> fresh(r.value) && r.value.data == bytes && r.value.Synced() && r.value.Opened()
      ensures r.Ok? && WellFormed(bytes) ==> r.value.Valid()
    {
      var a := new AXML.Unparsed(bytes);
      var parsed := a.ParseStringPool();
      r := if parsed.Ok? then Ok(a) else Err(parsed.error);
    }

    /** Re-reads the cached fields from the buffer, which stays as it is; a short buffer stops it half way. */
    method ParseStringPool() returns (r: Result<(), Error>)
      modifies this
      ensures data == old(data)
      ensures r.Ok? <==> ParsePool(data).Ok?
      ensures r.Ok? ==> Synced()
      ensures r.Err? ==>
        && r.error == ParsePool(data).error
        && spOff == (if r.error.AssertionError? || |data| < 10 then old(spOff) else 8)
        && spSize == (if r.error.AssertionError? || |data| < 16 then old(spSize) else U32(data, 12))
        && isUtf8 == old(isUtf8) && stringCount == old(stringCount) && offsetsOff == old(offsetsOff)
        && stringsStartAbs == old(stringsStartAbs) && nextChunkOff == old(nextChunkOff)
    {
      hide U16, U32;
      var off := 8;
      if off + 2 > |data| {
        return Err(StructError);
      }
      if U16(data, off) != STRING_POOL {
        return Err(AssertionError);
      }
      spOff := off;
      if off + 8 > |data| {
        return Err(StructError);
      }
      var hdrSize, size := U16(data, off + 2), U32(data, off + 4);
      spSize := size;
      if off + 28 > |data| {
        return Err(StructError);
      }
      var flags, stringsStart := U32(data, off + 16), U32(data, off + 20);
      isUtf8 := flags / 0x100 % 2 == 1;
      stringCount := U32(data, off + 8);
      stringsStartAbs := off + stringsStart;
      offsetsOff := off + hdrSize;
      nextChunkOff := off + size;
      return Ok(());
    }

    /** Text, position and length of string `index`, on any buffer. */
    method ReadUtf16String(index: nat) returns (r: Result<StringRead, Error>)
      ensures r == ReadString(data, Cached(), index)
      ensures Valid() && index < stringCount ==>
        index < Count(View(data).pool) && r == ReadOf(View(data).pool, index)
    {
      hide Decode, U16, U32, ReadOf, ParsePool, Tiles, Chunks, ChunkOk;
      if WellFormed(data) && Synced() {
        ReadCached(data, Cached(), index);
      }
      if offsetsOff + index * 4 + 4 > |data| {
        return Err(StructError);
      }
      var base := stringsStartAbs + U32(data, offsetsOff + index * 4);
      if base + 2 > |data| {
        return Err(StructError);
      }
      var length := U16(data, base);
      var chars := Decode(Slice(data, base + 2, base + 2 + length * 2));
      r := if chars.None? then Err(UnicodeError) else Ok(StringRead(chars.value, base, length));
    }

    /** All START elements behind the pool, in one list; an error ends the walk. On any buffer. */
    method IterStartElements() returns (r: Result<seq<StartElement>, Error>)
      ensures r == StartElements(data, nextChunkOff)
    {
      hide U16, U32;
      var off, es := nextChunkOff, [];
      ghost var whole := StartElements(data, off);
      assert whole.Ok? ==> [] + whole.value == whole.value;
      while off < |data|
        invariant var rest := StartElements(data, off);
          whole == if rest.Err? then rest else Ok(es + rest.value)
        decreases |data| - off
      {
        if off + 8 > |data| {
          return Err(StructError);
        }
        var size := U32(data, off + 4);
        if size == 0 {
          assert es + [] == es;
          break;
        }
        if U16(data, off) == START_ELEMENT {
          if off + 30 > |data| {
            return Err(StructError);
          }
          var e := StartElement(off, U32(data, off + 20), off + 16 + U16(data, off + 24),
                                U16(data, off + 28), U16(data, off + 26));
          ghost var rest := StartElements(data, off + size);
          assert rest.Ok? ==> es + ([e] + rest.value) == es + [e] + rest.value;
          es := es + [e];
        } else {
          ghost var rest := StartElements(data, off + size);
          assert rest.Ok? ==> [] + rest.value == rest.value;
        }
        off := off + size;
      }
      assert es + [] == es;
      return Ok(es);
    }

    method ReadAttr(arrOff: nat, i: nat, attrSize: nat) returns (r: Result<Attr, Error>)
      ensures r == GetAttr(data, arrOff, i, attrSize)
    {
      hide U16, U32;
      var rec := arrOff + i * attrSize;
      if rec + 20 > |data| {
        return Err(StructError);
      }
      U32Bound(data, rec);
      U32Bound(data, rec + 8);
      return Ok(Attr(rec, Signed(U32(data, rec)), U32(data, rec + 4), Signed(U32(data, rec + 8)),
                     data[rec + 15], U32(data, rec + 16), rec + 16));
    }

    /** `pack_into` of `newValue & 0xFFFFFFFF`: four bytes anywhere in the buffer. */
    method SetAttrIntData(dataOff: nat, newValue: int) returns (r: Result<(), Error>)
      requires Opened()
      modifies this`data
      ensures Opened() && (data, r) == SetDataCall(old(data), dataOff, newValue)
      ensures old(Synced()) && (dataOff >= 36 || dataOff + 4 <= 8) ==> Synced()
    {
      hide U16, U32, Le32, Put, ParsePool;
      if dataOff + 4 > |data| {
        return Err(StructError);
      }
      ghost var before := data;
      data := Put(data, dataOff, Le32(newValue % TWO_32));
      if dataOff >= 36 || dataOff + 4 <= 8 {
        SetDataKeepsHead(before, dataOff, newValue);
        ParseFrame(before, data);
      }
      return Ok(());
    }

    /** Grows the outer size field; `struct.error` when it no longer fits. */
    method SetOuterSize(delta: nat) returns (r: Result<(), Error>)
      requires |data| >= 8
      modifies this`data
      ensures U32(old(data), 4) + delta >= TWO_32 ==> r == Err(StructError) && data == old(data)
      ensures U32(old(data), 4) + delta < TWO_32 ==>
        r == Ok(()) && data == Put(old(data), 4, Le32(U32(old(data), 4) + delta))
    {
      var cur := U32(data, 4);
      if cur + delta >= TWO_32 {
        return Err(StructError);
      }
      data := Put(data, 4, Le32(cur + delta));
      return Ok(());
    }

    /**
     Grows the string pool by one entry and returns its index. On any buffer, what is written and where it
     raises is `AppendCall`. On a well-formed file it succeeds exactly for text that can be stored and a
     file that stays below 4 GiB; the result is then the edited view, byte for byte.
     */
    method AppendString(value: text) returns (r: Result<nat, Error>)
      requires Opened()
      modifies this
      ensures Opened() && (data, r) == AppendCall(old(data), old(Cached()), value)
      ensures r.Ok? ==> Synced()
      ensures r.Err? ==> Cached() == old(Cached())
      ensures old(Valid()) ==>
        && (r.Ok? <==> Storable(value) && |old(data)| + GrowthOf(value) < TWO_32)
        && (!Encodable(value) ==> r == Err(UnicodeError))
        && (!Storable(value) ==> data == old(data))
        && (r.Err? && Encodable(value) ==> r == Err(StructError))
        && (r.Ok? ==>
              && Valid() && r.value == old(stringCount) && stringCount == old(stringCount) + 1
              && |View(old(data)).pool| + GrowthOf(value) < TWO_32
              && View(data) == AppendTo(View(old(data)), value)
              && r.value < Count(View(data).pool) && HoldsRecord(View(data).pool, r.value, value))
    {
      hide U16, U32, Le16, Le32, Zeros, InsertAt, SizesCall, ParsePool, Encodable, Encode, WellFormed, View, AppendTo;
      hide AxmlFormat.Valid, PoolHead, HoldsRecord;
      if WellFormed(data) && Synced() {
        AppendCallView(data, Cached(), value);
      }
      if isUtf8 {
        return Err(AssertionError);
      }
      var oldStringCount, start, poolEnd := stringCount, stringsStartAbs, nextChunkOff;
      if !Encodable(value) {
        return Err(UnicodeError);
      }
      var enc := Encode(value);
      if |value| >= 0x1_0000 {
        return Err(StructError);
      }
      var strBytes := Le16(|value|) + enc + [0, 0];
      var newRelOffset := poolEnd as int - start;
      if newRelOffset < 0 || newRelOffset >= TWO_32 {
        return Err(StructError);
      }

      var added := InsertString(strBytes, newRelOffset);
      assert data == SpliceCall(old(data), old(Cached()), value) && added == GrowthOf(value);
      var sized := WriteSizes(oldStringCount + 1, added);
      if sized.Err? {
        return Err(sized.error);
      }
      var parsed := ParseStringPool();
      if parsed.Err? {
        ParseError(data);
        return Err(parsed.error);
      }
      return Ok(oldStringCount);
    }

    /** The table entry, the record and the padding; returns how many bytes that adds. */
    method InsertString(strBytes: seq<byte>, rel: nat) returns (added: nat)
      requires rel < TWO_32
      modifies this`data
      ensures added == 4 + |strBytes| + -(4 + |strBytes|) % 4
      ensures data == InsertAt(
        InsertAt(InsertAt(old(data), stringsStartAbs, Le32(rel)), nextChunkOff + 4, strBytes),
        nextChunkOff + 4 + |strBytes|, Zeros(-(4 + |strBytes|) % 4))
    {
      hide Le32, Zeros, InsertAt;
      data := InsertAt(data, stringsStartAbs, Le32(rel));
      added := 4;
      var insertAt := nextChunkOff + added;
      data := InsertAt(data, insertAt, strBytes);
      added := added + |strBytes|;
      var pad := -(added as int) % 4;
      if pad != 0 {
        data := InsertAt(data, insertAt + |strBytes|, Zeros(pad));
        added := added + pad;
      } else {
        InsertNothing(data, insertAt + |strBytes|);
      }
    }

    /** The pool header and the file header. */
    method WriteSizes(count: nat, added: nat) returns (r: Result<(), Error>)
      requires Opened()
      modifies this`data
      ensures Opened() && (data, r) == SizesCall(old(data), count, added)
    {
      hide U16, U32, Le32, Put;
      if count >= TWO_32 {
        return Err(StructError);
      }
      data := Put(data, spOff + 8, Le32(count));
      var curSize := U32(data, spOff + 4);
      if curSize + added >= TWO_32 {
        return Err(StructError);
      }
      data := Put(data, spOff + 4, Le32(curSize + added));
      var curStringsStart := U32(data, spOff + 20);
      if curStringsStart + 4 >= TWO_32 {
        return Err(StructError);
      }
      data := Put(data, spOff + 20, Le32(curStringsStart + 4));
      r := SetOuterSize(added);
    }

    /** The first START chunk named `tag` that an END chunk directly follows. On any buffer. */
    method FindStartElement(tag: text) returns (r: Result<Leaf, Error>)
      ensures r == FindLeaf(data, Cached(), nextChunkOff, tag)
    {
      hide U16, U32, ReadString;
      var off := nextChunkOff;
      while off < |data|
        invariant FindLeaf(data, Cached(), nextChunkOff, tag) == FindLeaf(data, Cached(), off, tag)
        decreases |data| - off
      {
        if off + 8 > |data| {
          return Err(StructError);
        }
        var size := U32(data, off + 4);
        if size == 0 {
          break;
        }
        if U16(data, off) == START_ELEMENT {
          if off + 30 > |data| {
            return Err(StructError);
          }
          var name := ReadUtf16String(U32(data, off + 20));
          if name.Err? {
            return Err(name.error);
          }
          if name.value.text == tag {
            if off + size + 2 > |data| {
              return Err(StructError);
            }
            if U16(data, off + size) == END_ELEMENT {
              if off + size + 8 > |data| {
                return Err(StructError);
              }
              return Ok(Leaf(off, size, off + size, U32(data, off + size + 4)));
            }
          }
        }
        off := off + size;
      }
      return Err(ValueError);
    }

    /**
     Copies the first leaf named `tag`, points the copy at string `idx` and splices it in right behind
     the original. On any buffer, what is written and where it raises is `DuplicateCall`, and the cached
     fields stay right. On a well-formed file every failure is in `Choose` and leaves the buffer alone,
     but for a copy that makes the file too large; a success is the edited view, byte for byte.
     */
    method DuplicateUsesPermission(tag: text, idx: int) returns (r: Result<nat, Error>)
      requires Opened()
      modifies this`data
      ensures Opened() && (data, r) == DuplicateCall(old(data), old(Cached()), tag, idx)
      ensures old(Synced()) && nextChunkOff >= 36 ==> Synced()
      ensures old(Valid()) ==>
        var m := View(old(data)); var choice := Choose(m, tag, idx);
        && (choice.Err? ==> r == Err(choice.error))
        && (choice.Err? && !TooLarge(m, tag, idx) ==> data == old(data))
        && (TooLarge(m, tag, idx) ==>
              var m' := DuplicateAt(m, Found(m, tag).value, idx);
              data == old(data)[..8] + m'.pool + Flatten(m'.chunks))
        && (choice.Ok? ==>
              var m' := DuplicateAt(m, choice.value, idx);
              && r == Ok(ChunkOff(m, choice.value + 2)) && Synced()
              && FileSize(m') < TWO_32 && data == Serialize(m')
              && (idx < stringCount ==> WellFormed(data) && View(data) == m'))
    {
      hide U16, U32, Le32, Put, ParsePool, FindLeaf, InsertAt, Slice, Choose, TooLarge, Found, View, Flatten, Serialize;
      hide AxmlFormat.Valid, FileSize, DuplicateAt, PoolHead, Strings, Head, Framed;
      ghost var d := data;
      if nextChunkOff >= 36 {
        DuplicateKeepsHead(d, Cached(), tag, idx);
        ParseFrame(d, DuplicateCall(d, Cached(), tag, idx).0);
      }
      if Valid() {
        DuplicateOnValid(d, Cached(), tag, idx);
      }
      var found := FindStartElement(tag);
      if found.Err? {
        return Err(found.error);
      }
      var leaf := found.value;
      var insertAt := leaf.endOff + leaf.endSize;
      var elem := Slice(data, leaf.startOff, insertAt);
      if |elem| < 30 {
        return Err(StructError);
      }
      var attrStart, attrCount := U16(elem, 24), U16(elem, 28);
      if attrCount != 1 {
        return Err(AssertionError);
      }
      var rec := 16 + attrStart;
      if idx < 0 || idx >= 0x8000_0000 || rec + 20 > |elem| {
        return Err(StructError);
      }
      elem := Put(elem, rec + 8, Le32(idx));
      elem := Put(elem, rec + 16, Le32(idx));
      data := InsertAt(data, insertAt, elem);
      var outer := SetOuterSize(|elem|);
      if outer.Err? {
        return Err(outer.error);
      }
      return Ok(insertAt);
    }

    /** Overwrites the units of string `index` with a text of equal `len`. On any buffer. */
    method OverwriteUtf16String(index: nat, newValue: text) returns (r: Result<(), Error>)
      requires Opened()
      modifies this`data
      ensures Opened() && (data, r) == OverwriteCall(old(data), old(Cached()), index, newValue)
      ensures old(Synced()) && stringsStartAbs >= 36 ==> Synced()
      ensures r.Ok? && old(Valid()) && index < stringCount ==>
        var m := View(old(data));
        && index < Count(m.pool) && (Bmp(newValue) ==> Room(m.pool, index, newValue))
        && (Room(m.pool, index, newValue) ==>
              var m' := m.(pool := Rewritten(m.pool, index, newValue));
              && FileSize(m') < TWO_32 && data == Serialize(m')
              && (Valid() <==> LengthsFit(m.pool, m'.pool)) && (Valid() ==> View(data) == m')
              && (Bmp(newValue) && Separate(m.pool, index) ==> Valid()))
    {
      hide U16, U32, Encode, Decode, Encodable, Bmp, Slice, ParsePool, View, Tiles, Chunks, ChunkOk, Separate, PoolHead;
      hide Put, Assign, Rewritten, WellFormed, Room, LengthsFit, Serialize, FileSize;
      ghost var d := data;
      if stringsStartAbs >= 36 {
        OverwriteKeepsHead(d, Cached(), index, newValue);
        ParseFrame(d, OverwriteCall(d, Cached(), index, newValue).0);
      }
      var read := ReadUtf16String(index);
      if read.Err? {
        return Err(read.error);
      }
      var base, length := read.value.base, read.value.length;
      if |newValue| != length {
        return Err(ValueError);
      }
      if !Encodable(newValue) {
        return Err(UnicodeError);
      }
      if WellFormed(d) && Synced() && index < stringCount {
        OverwriteEnd(d, Cached(), index, newValue);
      }
      data := Assign(data, base + 2, Encode(newValue));
      return Ok(());
    }
  }

  /** `DuplicateCallView` and what follows for the cached fields and the view. */
  lemma DuplicateOnValid(d: seq<byte>, h: PoolHeader, tag: text, idx: int)
    requires WellFormed(d) && ParsePool(d) == Ok(h) && AxmlFormat.Valid(View(d))
    ensures |d| >= 36
    ensures var m, r := View(d), DuplicateCall(d, h, tag, idx); var choice := Choose(m, tag, idx);
      && (choice.Err? ==> r.1 == Err(choice.error))
      && (choice.Err? && !TooLarge(m, tag, idx) ==> r.0 == d)
      && (TooLarge(m, tag, idx) ==>
            var m' := DuplicateAt(m, Found(m, tag).value, idx); r.0 == d[..8] + m'.pool + Flatten(m'.chunks))
      && (choice.Ok? ==>
            var m' := DuplicateAt(m, choice.value, idx);
            && r.1 == Ok(ChunkOff(m, choice.value + 2)) && FileSize(m') < TWO_32 && r.0 == Serialize(m')
            && ParsePool(r.0) == Ok(h)
            && (idx < h.stringCount ==> WellFormed(r.0) && View(r.0) == m'))
  {
    hide U16, U32, ParsePool, Flatten, View, Serialize, WellFormed, FileSize, DuplicateAt, DuplicateCall;
    hide Choose, TooLarge;
    hide PoolHead, Strings, FirstLeaf, ChunkOff, IsTemplate, Tiles, Chunks, ChunkOk;
    DuplicateCallView(d, h, tag, idx);
    var m := View(d);
    var choice := Choose(m, tag, idx);
    if choice.Ok? {
      AppendStart(d, h);
      DuplicateEnd(d, Serialize(DuplicateAt(m, choice.value, idx)), choice.value, idx);
    }
  }

  /** An overwrite that ends inside the pool is the rewrite of the view, and when it keeps the file well formed. */
  lemma OverwriteEnd(d: seq<byte>, h: PoolHeader, i: nat, v: text)
    requires WellFormed(d) && ParsePool(d) == Ok(h) && i < h.stringCount && Encodable(v)
    requires ReadString(d, h, i).Ok? && ReadString(d, h, i).value.length == |v|
    ensures h.stringsStartAbs >= 36
    ensures var m := View(d); var o := ReadString(d, h, i).value.base + 2;
      && o <= |d| && i < Count(m.pool) && (Bmp(v) ==> Room(m.pool, i, v))
      && (Room(m.pool, i, v) ==>
            var m' := m.(pool := Rewritten(m.pool, i, v));
            && FileSize(m') < TWO_32 && Assign(d, o, Encode(v)) == Serialize(m')
            && (WellFormed(Serialize(m')) <==> LengthsFit(m.pool, m'.pool))
            && (LengthsFit(m.pool, m'.pool) ==> View(Serialize(m')) == m')
            && (Bmp(v) && Separate(m.pool, i) ==> LengthsFit(m.pool, m'.pool)))
  {
    hide U16, U32, Encode, Decode, Encodable, Bmp, ParsePool, View, Tiles, Chunks, ChunkOk, Strings;
    hide Rewritten, Flatten, Serialize, Put, Assign, Room, LengthsFit, Separate, WellFormed;
    hide ReadOf, ReadString, PoolHead, Units, AxmlFormat.Valid;
    var m := View(d);
    ReadCached(d, h, i);
    PoolReads(d, 0);
    ViewPool(d);
    ReadOfParts(m.pool, i);
    if Bmp(v) {
      BmpHasRoom(m.pool, i, v);
    }
    if Room(m.pool, i, v) {
      OverwriteView(d, i, v);
      AssignIsPut(d, 8 + Base(m.pool, i) + 2, Encode(v));
      RewrittenFile(m, i, v);
    }
  }

  lemma ReadOfParts(p: seq<byte>, i: nat)
    requires PoolOk(p) && i < Count(p)
    ensures Inside(p, i) && 8 + Base(p, i) + 2 <= 8 + |p| && StringsStart(p) >= 28
    ensures ReadOf(p, i).Ok? ==>
      ReadOf(p, i).value.base == 8 + Base(p, i) && ReadOf(p, i).value.length == U16(p, Base(p, i))
  {
    hide U16, U32, Decode, Units;
  }

  lemma RewrittenFile(m: Manifest, i: nat, v: text)
    requires AxmlFormat.Valid(m) && i < Count(m.pool) && Room(m.pool, i, v) && Encodable(v)
    ensures var m' := m.(pool := Rewritten(m.pool, i, v));
      && FileSize(m') < TWO_32 && Framed(Serialize(m')) && View(Serialize(m')) == m'
      && (WellFormed(Serialize(m')) <==> LengthsFit(m.pool, m'.pool))
      && (Bmp(v) && Separate(m.pool, i) ==> LengthsFit(m.pool, m'.pool))
  {
    hide U16, U32, Encode, Decode, Encodable, Bmp, View, Tiles, Chunks, ChunkOk, Strings, ChunkShape;
    hide Rewritten, Flatten, Serialize, Apart, Units, Room, LengthsFit, Inside, WellFormed;
    RewrittenHead(m.pool, i, v);
    LengthsExact(m.pool, i, v);
    ValidShapes(m);
    SerializeExact(m.(pool := Rewritten(m.pool, i, v)));
    if Bmp(v) && Separate(m.pool, i) {
      RoomParts(m.pool, i, v);
      RewrittenStrings(m.pool, i, v);
    }
  }

  lemma RoomParts(p: seq<byte>, i: nat, v: text)
    requires PoolHead(p) && i < Count(p) && Room(p, i, v)
    ensures Inside(p, i) && |v| == U16(p, Base(p, i))
  {
  }

  lemma AssignIsPut(b: seq<byte>, o: nat, s: seq<byte>)
    requires o + |s| <= |b|
    ensures Assign(b, o, s) == Put(b, o, s)
  {
  }

  /** One round of the recipe: the append fits, and the duplication chooses the same template. */
  lemma Round(m: Manifest, tag: text, i: nat, ps: seq<text>)
    requires AxmlFormat.Valid(m) && IsFirstTemplate(m, tag, i) && Fits(m, i, ps) && ps != []
    ensures Storable(ps[0]) && FileSize(m) + GrowthOf(ps[0]) < TWO_32
    ensures var m1, n := AppendTo(m, ps[0]), Count(m.pool);
      && AxmlFormat.Valid(m1) && n < 0x8000_0000 && n < Count(m1.pool) && Choose(m1, tag, n) == Ok(i)
      && var m2 := DuplicateAt(m1, i, n);
      && AxmlFormat.Valid(m2) && IsFirstTemplate(m2, tag, i) && Fits(m2, i, ps[1..])
      && GrantAll(m2, i, ps[1..]) == GrantAll(m, i, ps)
  {
    hide U16, U32, Flatten, GrowPool, Strings, StartOk, PoolOk, GrowthOf, FirstLeaf, DuplicateAt, ChunkOk;
    hide Bmp, Encodable;
    var p := ps[0];
    FitsStep(m, i, ps);
    assert Added([p], LeafSize(m, i)) == GrowthOf(p) + LeafSize(m, i);
    CountBound(m.pool);
    AppendValid(m, p);
    AppendKeepsTemplate(m, i, p);
    GrowStrings(m.pool, p);
    GrantKeepsFirst(m, tag, i, p);
    var m1 := AppendTo(m, p);
    ManifestAllOk(m1);
    FirstLeafStable(Strings(m.pool), m.chunks, Strings(m1.pool), m1.chunks, 0, tag, i);
  }

  /**
   The documented recipe: for each permission, append its name and duplicate the template for it.
   The resulting file is the edited view of `GrantAll`, and it never fails while the file fits.
   */
  method GrantPermissions(a: AXML, tag: text, ps: seq<text>, ghost i: nat)
    requires a.Valid() && AxmlFormat.Valid(View(a.data))
    requires IsFirstTemplate(View(a.data), tag, i) && Fits(View(a.data), i, ps)
    modifies a
    ensures a.Valid() && View(a.data) == GrantAll(View(old(a.data)), i, ps)
  {
    hide U16, U32, Encode, Decode, View, Tiles, Chunks, ChunkOk, Strings, Flatten, ParsePool, PoolOk, FirstLeaf;
    hide Serialize, GrowPool, DuplicateAt, StartOk, GrantAll, Added, IsTemplate, GrowthOf, Choose;
    hide Storable, AllOk, TooLarge, Fits;
    ghost var m := View(a.data);
    assert ps[0..] == ps;
    var k := 0;
    while k < |ps|
      invariant 0 <= k <= |ps|
      invariant a.Valid() && IsFirstTemplate(View(a.data), tag, i) && Fits(View(a.data), i, ps[k..])
      invariant GrantAll(View(a.data), i, ps[k..]) == GrantAll(m, i, ps)
    {
      ghost var before := View(a.data);
      Pieces(a.data);
      AppendStart(a.data, a.Cached());
      Round(before, tag, i, ps[k..]);
      var idx := a.AppendString(ps[k]);
      assert idx.Ok?;
      var inserted := a.DuplicateUsesPermission(tag, idx.value);
      assert inserted.Ok?;
      assert ps[k..][1..] == ps[k + 1..];
      k := k + 1;
    }
    AllGranted(View(a.data), i, ps[k..]);
  }

  lemma AllGranted(m: Manifest, i: nat, ps: seq<text>)
    requires AxmlFormat.Valid(m) && IsTemplate(m, i) && Fits(m, i, ps) && ps == []
    ensures GrantAll(m, i, ps) == m
  {
  }
}

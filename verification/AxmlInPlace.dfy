/** Edits that change no size: an attribute's data word, and a string of equal length. */
module AxmlInPlace {
  import opened Wrappers
  import opened Bytes
  import opened Utf16
  import opened AxmlReader
  import opened AxmlFormat
  import opened AxmlLookup
  import opened AxmlElements
  import opened AxmlSplices

  // ---------------------------------------------------------------- attribute data

  /** Attribute `i` of chunk `k` as the patcher reports it. */
  ghost function AttrAt(m: Manifest, k: nat, i: nat): Attr
    requires k < |m.chunks| && |m.chunks[k]| >= 36 && Rec(m.chunks[k], i) + 20 <= |m.chunks[k]|
  {
    var r, a := ChunkOff(m, k) + Rec(m.chunks[k], i), RecordAt(m.chunks[k], Rec(m.chunks[k], i));
    U32Bound(m.chunks[k], Rec(m.chunks[k], i));
    U32Bound(m.chunks[k], Rec(m.chunks[k], i) + 8);
    Attr(r, Signed(a.ns), a.name, Signed(a.raw), a.kind, a.data, r + 16)
  }

  /** An attribute that a START chunk of the file announces. */
  ghost predicate HasAttr(m: Manifest, k: nat, i: nat) {
    && k < |m.chunks| && |m.chunks[k]| >= 36
    && U16(m.chunks[k], 0) == START_ELEMENT && i < AttrCount(m.chunks[k])
  }

  lemma AttrIsOk(c: Chunk, i: nat, count: nat)
    requires ChunkOk(c, count) && U16(c, 0) == START_ELEMENT && i < AttrCount(c)
    ensures RecordOk(c, Rec(c, i), count)
  {
  }

  lemma AttrRecord(m: Manifest, k: nat, i: nat)
    requires Valid(m) && HasAttr(m, k, i)
    ensures ChunkOk(m.chunks[k], Count(m.pool)) && Rec(m.chunks[k], i) + 20 <= |m.chunks[k]|
  {
    hide U16, U32, Flatten, PoolOk, Rec, StartOk;
    AttrIsOk(m.chunks[k], i, Count(m.pool));
  }

  /** `get_attr` on a well-formed file reads the record of the view. */
  lemma GetAttrView(d: seq<byte>, k: nat, i: nat)
    requires WellFormed(d) && Valid(View(d)) && HasAttr(View(d), k, i)
    ensures var m := View(d); var c := m.chunks[k];
      && Rec(c, i) + 20 <= |c|
      && GetAttr(d, ChunkOff(m, k) + 16 + U16(c, 24), i, AttrSize(c)) == Ok(AttrAt(m, k, i))
  {
    hide U16, U32, Tiles, Chunks, ChunkOk, PoolOk, Flatten, View, ChunkOff;
    var m := View(d);
    var c, r := m.chunks[k], Rec(m.chunks[k], i);
    AttrRecord(m, k, i);
    ChunkReads(d, k, r);
    ChunkReads(d, k, r + 4);
    ChunkReads(d, k, r + 8);
    ChunkReads(d, k, r + 12);
    ChunkReads(d, k, r + 16);
    ChunkAt(d, k);
    var off := ChunkOff(m, k);
    assert d[off + (r + 15)] == d[off..off + |c|][r + 15];
    assert off + 16 + U16(c, 24) + i * AttrSize(c) == off + r;
  }

  ghost function WithData(m: Manifest, k: nat, i: nat, x: nat): Manifest
    requires HasAttr(m, k, i) && Rec(m.chunks[k], i) + 20 <= |m.chunks[k]| && x < TWO_32
  {
    m.(chunks := m.chunks[k := PutField(m.chunks[k], i, DATA_FIELD, x)])
  }

  lemma FlattenUpdate(cs: seq<Chunk>, k: nat, c: Chunk)
    requires k < |cs|
    ensures Flatten(cs[k := c]) == Flatten(cs[..k]) + c + Flatten(cs[k + 1..])
    ensures Flatten(cs) == Flatten(cs[..k]) + cs[k] + Flatten(cs[k + 1..])
  {
    hide Flatten;
    forall x | x == c || x == cs[k]
      ensures Flatten(cs[k := x]) == Flatten(cs[..k]) + x + Flatten(cs[k + 1..])
    {
      FlattenOne(x);
      FlattenConcat(cs[..k], [x]);
      FlattenConcat(cs[..k] + [x], cs[k + 1..]);
      assert cs[k := x] == cs[..k] + [x] + cs[k + 1..];
    }
    assert cs[k := cs[k]] == cs;
  }

  lemma Regroup(h: seq<byte>, p: seq<byte>, a: seq<byte>, c: seq<byte>, b: seq<byte>)
    ensures (h + p + a) + c + b == h + p + (a + c + b)
  {
  }

  /** Writing an attribute's data word is one field of one record; everything else stays. */
  lemma SetDataView(d: seq<byte>, k: nat, i: nat, x: nat)
    requires WellFormed(d) && Valid(View(d)) && HasAttr(View(d), k, i) && x < TWO_32
    ensures var m := View(d); var c := m.chunks[k];
      && Rec(c, i) + 20 <= |c|
      && var o := ChunkOff(m, k) + Rec(c, i) + 16; var m' := WithData(m, k, i, x);
      && 36 <= o && o + 4 <= |d| && FileSize(m') == FileSize(m) == |d|
      && Put(d, o, Le32(x)) == Serialize(m')
  {
    hide U16, U32, Tiles, Chunks, ChunkOk, PoolOk, Flatten, View, Le32, Put, Rec;
    var m := View(d);
    var cs, c, r := m.chunks, m.chunks[k], Rec(m.chunks[k], i);
    AttrRecord(m, k, i);
    Pieces(d);
    ChunkAt(d, k);
    SerializeView(d);
    FlattenUpdate(cs, k, PutField(c, i, DATA_FIELD, x));
    var a, b := Flatten(cs[..k]), Flatten(cs[k + 1..]);
    EditMiddle(d[..8] + m.pool + a, c, b, r + 16, Le32(x));
    assert d[..8] == m.magic + Le32(FileSize(m));
    Regroup(d[..8], m.pool, a, c, b);
    Regroup(d[..8], m.pool, a, PutField(c, i, DATA_FIELD, x), b);
  }

  /**
   The file stays well formed exactly when a string-typed attribute is given the index of a string.
   */
  lemma SetDataValid(m: Manifest, k: nat, i: nat, x: nat)
    requires Valid(m) && HasAttr(m, k, i) && x < TWO_32
    ensures Rec(m.chunks[k], i) + 20 <= |m.chunks[k]|
    ensures Valid(WithData(m, k, i, x))
       <==> (m.chunks[k][Rec(m.chunks[k], i) + 15] == TYPE_STRING ==> x < Count(m.pool))
  {
    hide U16, U32, PoolOk, Flatten, Rec, PutField, StartOk, ChunkShape;
    var c, n, m0 := m.chunks[k], Count(m.pool), m;
    AttrRecord(m, k, i);
    var c' := PutField(c, i, DATA_FIELD, x);
    var cs' := m.chunks[k := c'];
    PutFieldOk(c, i, DATA_FIELD, x, n);
    FlattenUpdate(m.chunks, k, c');
    assert cs'[k] == c';
    if ChunkOk(c', n) {
      assert forall e <- cs' :: ChunkOk(e, n);
    }
    AttrIsOk(c, i, n);
  }

  /**
   Read back after the write: the written attribute holds the new word and every other attribute
   record of every chunk is unchanged.
   */
  lemma SetDataReads(m: Manifest, k: nat, i: nat, x: nat, k': nat, i': nat)
    requires Valid(m) && HasAttr(m, k, i) && HasAttr(m, k', i') && x < TWO_32
    ensures Rec(m.chunks[k], i) + 20 <= |m.chunks[k]| && Rec(m.chunks[k'], i') + 20 <= |m.chunks[k']|
    ensures var m' := WithData(m, k, i, x);
      && HasAttr(m', k', i') && Rec(m'.chunks[k'], i') == Rec(m.chunks[k'], i')
      && AttrAt(m', k', i')
         == if (k', i') == (k, i) then AttrAt(m, k', i').(valData := x) else AttrAt(m, k', i')
  {
    hide U16, U32, PoolOk, Flatten, PutField, RecordOk, Rec, RecordAt;
    AttrRecord(m, k, i);
    AttrRecord(m, k', i');
    PutFieldHeader(m.chunks[k], i, DATA_FIELD, x);
    if k' == k {
      PutFieldRecord(m.chunks[k], i, DATA_FIELD, x, i', Count(m.pool));
    }
    OffsetsStay(m, k, PutField(m.chunks[k], i, DATA_FIELD, x), k');
  }

  /** Set, then get, on any buffer: the data word is the new value modulo 2^32, and nothing else differs. */
  lemma SetThenGet(d: seq<byte>, arrOff: nat, i: nat, attrSize: nat, v: int)
    requires GetAttr(d, arrOff, i, attrSize).Ok?
    ensures var a := GetAttr(d, arrOff, i, attrSize).value;
      && a.dataOff + 4 <= |d|
      && var d' := Put(d, a.dataOff, Le32(v % TWO_32));
      && GetAttr(d', arrOff, i, attrSize) == Ok(a.(valData := v % TWO_32))
      && forall arr: nat, j: nat, size: nat ::
           GetAttr(d, arr, j, size).Ok? && Disjoint(arrOff + i * attrSize, arr + j * size) ==>
             GetAttr(d', arr, j, size) == GetAttr(d, arr, j, size)
  {
    hide U16, U32, Put, Le32;
    var rec := arrOff + i * attrSize;
    SetReads(d, rec + 16, v % TWO_32, rec);
    forall arr: nat, j: nat, size: nat | GetAttr(d, arr, j, size).Ok? && Disjoint(rec, arr + j * size)
      ensures GetAttr(Put(d, rec + 16, Le32(v % TWO_32)), arr, j, size) == GetAttr(d, arr, j, size)
    {
      SetReads(d, rec + 16, v % TWO_32, arr + j * size);
    }
  }

  /** Two attribute records, by their positions. */
  predicate Disjoint(rec: nat, rec': nat) {
    rec + 20 <= rec' || rec' + 20 <= rec
  }

  lemma SetReads(d: seq<byte>, o: nat, x: nat, rec: nat)
    requires o + 4 <= |d| && x < TWO_32 && rec + 20 <= |d| && (o == rec + 16 || rec + 20 <= o || o + 4 <= rec)
    ensures var d' := Put(d, o, Le32(x));
      && U32(d', rec) == U32(d, rec) && U32(d', rec + 4) == U32(d, rec + 4) && U32(d', rec + 8) == U32(d, rec + 8)
      && d'[rec + 15] == d[rec + 15] && U32(d', rec + 16) == if o == rec + 16 then x else U32(d, rec + 16)
  {
    hide U16, U32, Put, Le32;
    PutReads(d, o, x, rec);
    PutReads(d, o, x, rec + 4);
    PutReads(d, o, x, rec + 8);
    PutReads(d, o, x, rec + 15);
    PutReads(d, o, x, rec + 16);
  }

  lemma OffsetsStay(m: Manifest, k: nat, c: Chunk, k': nat)
    requires k < |m.chunks| && |c| == |m.chunks[k]| && k' <= |m.chunks|
    ensures ChunkOff(m.(chunks := m.chunks[k := c]), k') == ChunkOff(m, k')
  {
    hide Flatten;
    var cs := m.chunks;
    if k < k' {
      assert cs[k := c][..k'] == cs[..k'][k := c];
      FlattenUpdate(cs[..k'], k, c);
    } else {
      assert cs[k := c][..k'] == cs[..k'];
    }
  }

  /** The write as a whole, on the bytes of a well-formed file. */
  lemma SetDataFile(d: seq<byte>, k: nat, i: nat, x: nat)
    requires WellFormed(d) && Valid(View(d)) && HasAttr(View(d), k, i) && x < TWO_32
    ensures var m := View(d); var c := m.chunks[k];
      && Rec(c, i) + 20 <= |c|
      && var o := ChunkOff(m, k) + Rec(c, i) + 16; var m' := WithData(m, k, i, x);
      && 36 <= o && o + 4 <= |d|
      && ((c[Rec(c, i) + 15] == TYPE_STRING ==> x < Count(m.pool)) ==>
           WellFormed(Put(d, o, Le32(x))) && View(Put(d, o, Le32(x))) == m')
  {
    hide U16, U32, Tiles, Chunks, ChunkOk, PoolOk, Flatten, View, Le32, Put, Rec, Serialize;
    SetDataView(d, k, i, x);
    SetDataValid(View(d), k, i, x);
    if Valid(WithData(View(d), k, i, x)) {
      ViewSerialize(WithData(View(d), k, i, x));
    }
  }

  // ---------------------------------------------------------------- equal-length strings

  /** First and last byte past string `i`: its length field and its units. */
  function Extent(p: seq<byte>, i: nat): (nat, nat)
    requires PoolHead(p) && i < Count(p) && Inside(p, i)
  {
    (Base(p, i), Base(p, i) + 2 + 2 * U16(p, Base(p, i)))
  }

  predicate Apart(p: seq<byte>, i: nat, j: nat)
    requires PoolHead(p) && i < Count(p) && j < Count(p) && Inside(p, i) && Inside(p, j)
  {
    Extent(p, i).1 <= Extent(p, j).0 || Extent(p, j).1 <= Extent(p, i).0
  }

  /** A text of the announced length whose units end inside the pool, as all of the Basic Multilingual Plane do. */
  predicate Room(p: seq<byte>, i: nat, v: text)
    requires PoolHead(p) && i < Count(p)
  {
    Inside(p, i) && |v| == U16(p, Base(p, i)) && Base(p, i) + 2 + |Encode(v)| <= |p|
  }

  lemma BmpHasRoom(p: seq<byte>, i: nat, v: text)
    requires PoolHead(p) && i < Count(p) && Inside(p, i) && Bmp(v) && |v| == U16(p, Base(p, i))
    ensures Room(p, i, v)
  {
    EncodedLength(v);
  }

  /** The units of string `i` overwritten by a text of the same length. */
  function Rewritten(p: seq<byte>, i: nat, v: text): (p': seq<byte>)
    requires PoolHead(p) && i < Count(p) && Room(p, i, v)
    ensures |p'| == |p|
  {
    Put(p, Base(p, i) + 2, Encode(v))
  }

  lemma RewrittenHead(p: seq<byte>, i: nat, v: text)
    requires PoolHead(p) && i < Count(p) && Room(p, i, v)
    ensures var p' := Rewritten(p, i, v);
      && PoolHead(p') && Count(p') == Count(p) && HeaderSize(p') == HeaderSize(p)
      && (forall j: nat :: j < Count(p) ==> Base(p', j) == Base(p, j))
      && U16(p', Base(p, i)) == |v|
  {
    hide U16, U32, Put, Encode;
    EncodedLength(v);
    var p', s, o, enc := Rewritten(p, i, v), StringsStart(p), Base(p, i) + 2, Encode(v);
    PutSlice(p, o, enc, 0, o);
    SameRead(p', 0, p, 0, o, 0);
    SameRead(p', 0, p, 0, o, 2);
    SameRead(p', 0, p, 0, o, 4);
    SameRead(p', 0, p, 0, o, 8);
    SameRead(p', 0, p, 0, o, 12);
    SameRead(p', 0, p, 0, o, 16);
    SameRead(p', 0, p, 0, o, 20);
    SameRead(p', 0, p, 0, o, Base(p, i));
    forall j: nat | j < Count(p)
      ensures Base(p', j) == Base(p, j)
    {
      SameRead(p', 0, p, 0, o, HeaderSize(p) + 4 * j);
    }
  }

  /** The rewritten string reads as the new text, and so does any entry that shares its bytes. */
  lemma RewrittenSelf(p: seq<byte>, i: nat, v: text, j: nat)
    requires PoolHead(p) && i < Count(p) && j < Count(p) && Inside(p, i) && Base(p, j) == Base(p, i)
    requires Bmp(v) && |v| == U16(p, Base(p, i))
    ensures Room(p, i, v)
    ensures var p' := Rewritten(p, i, v);
      PoolHead(p') && j < Count(p') && Inside(p', j) && Units(p', j) == Encode(v)
  {
    BmpHasRoom(p, i, v);
    hide U16, U32, Put, Encode;
    RewrittenHead(p, i, v);
    EncodedLength(v);
    PutSlice(p, Base(p, i) + 2, Encode(v), Base(p, i) + 2, Base(p, i) + 2 + 2 * |v|);
  }

  /** A string none of whose bytes are written keeps its units. */
  lemma UnwrittenStays(p: seq<byte>, i: nat, v: text, j: nat)
    requires PoolHead(p) && i < Count(p) && j < Count(p) && Inside(p, j) && Room(p, i, v)
    requires Extent(p, j).1 <= Base(p, i) + 2 || Base(p, i) + 2 + |Encode(v)| <= Extent(p, j).0
    ensures var p' := Rewritten(p, i, v);
      PoolHead(p') && j < Count(p') && Inside(p', j) && Units(p', j) == Units(p, j)
  {
    hide U16, U32, Put, Encode, PoolHead;
    RewrittenHead(p, i, v);
    var p' := Rewritten(p, i, v);
    var (lo, hi) := Extent(p, j);
    PutSlice(p, Base(p, i) + 2, Encode(v), lo, hi);
    SameRead(p', lo, p, lo, hi - lo, 0);
    SliceOfSlice(p', lo, hi, 2, hi - lo);
    SliceOfSlice(p, lo, hi, 2, hi - lo);
  }

  /** A string whose extent is apart from the rewritten one keeps its units. */
  lemma RewrittenOther(p: seq<byte>, i: nat, v: text, j: nat)
    requires PoolHead(p) && i < Count(p) && j < Count(p) && Inside(p, i) && Inside(p, j) && Apart(p, i, j)
    requires Bmp(v) && |v| == U16(p, Base(p, i))
    ensures Room(p, i, v)
    ensures var p' := Rewritten(p, i, v);
      PoolHead(p') && j < Count(p') && Inside(p', j) && Units(p', j) == Units(p, j)
  {
    hide U16, U32, Encode, PoolHead, Rewritten, Units;
    BmpHasRoom(p, i, v);
    EncodedLength(v);
    UnwrittenStays(p, i, v, j);
  }

  /** Entries either share string `i` whole or keep clear of it. */
  predicate Separate(p: seq<byte>, i: nat)
    requires PoolOk(p) && i < Count(p)
  {
    && Inside(p, i)
    && forall j: nat :: j < Count(p) && Inside(p, j) ==> Base(p, j) == Base(p, i) || Apart(p, i, j)
  }

  /**
   Rewriting a string gives that string and its aliases the new text and leaves every string that keeps
   clear of it, and every byte outside its units, alone. Without partial overlaps that is the whole pool.
   */
  lemma RewrittenStrings(p: seq<byte>, i: nat, v: text)
    requires PoolOk(p) && i < Count(p) && Inside(p, i)
    requires Encodable(v) && Bmp(v) && |v| == U16(p, Base(p, i))
    ensures Room(p, i, v)
    ensures var p' := Rewritten(p, i, v);
      && PoolHead(p') && Count(p') == Count(p)
      && (forall k :: 0 <= k < |p| && !(0 <= k - Base(p, i) - 2 < 2 * |v|) ==> p'[k] == p[k])
      && (forall j: nat :: j < Count(p) && Inside(p, j) ==>
            && (Base(p, j) == Base(p, i) ==> Inside(p', j) && Decode(Units(p', j)) == Some(v))
            && (Apart(p, i, j) ==> Inside(p', j) && Units(p', j) == Units(p, j)))
      && (Separate(p, i) ==>
            && PoolOk(p') && |Strings(p')| == |Strings(p)|
            && forall j: nat :: j < Count(p) ==>
                 Strings(p')[j] == if Base(p, j) == Base(p, i) then Some(v) else Strings(p)[j])
  {
    BmpHasRoom(p, i, v);
    hide U16, U32, Encode, Decode, PoolHead, Units, Rewritten, Apart;
    var p' := Rewritten(p, i, v);
    RewrittenHead(p, i, v);
    RewrittenBytes(p, i, v);
    DecodeEncode(v);
    forall j: nat | j < Count(p) && Inside(p, j)
      ensures Base(p, j) == Base(p, i) ==> Inside(p', j) && Decode(Units(p', j)) == Some(v)
      ensures Apart(p, i, j) ==> Inside(p', j) && Units(p', j) == Units(p, j)
    {
      if Base(p, j) == Base(p, i) {
        RewrittenSelf(p, i, v, j);
      }
      if Apart(p, i, j) {
        RewrittenOther(p, i, v, j);
      }
    }
    if Separate(p, i) {
      assert forall j: nat :: j < Count(p) ==> Inside(p, j) && Inside(p', j);
    }
  }

  lemma RewrittenBytes(p: seq<byte>, i: nat, v: text)
    requires PoolHead(p) && i < Count(p) && Inside(p, i) && Bmp(v) && |v| == U16(p, Base(p, i))
    ensures Room(p, i, v)
    ensures var p' := Rewritten(p, i, v);
      forall k :: 0 <= k < |p| && !(0 <= k - Base(p, i) - 2 < 2 * |v|) ==> p'[k] == p[k]
  {
    BmpHasRoom(p, i, v);
    hide U16, U32, Encode;
    EncodedLength(v);
  }

  /** The length fields, as they are in `q`, of the entries of `p` announce strings inside the pool. */
  ghost predicate LengthsFit(p: seq<byte>, q: seq<byte>)
    requires PoolHead(p) && |q| == |p|
  {
    forall j: nat :: j < Count(p) ==> Base(p, j) + 2 <= |p| && Base(p, j) + 2 + 2 * U16(q, Base(p, j)) <= |p|
  }

  /** The pool stays well formed exactly when no overwritten length field announces too much. */
  lemma LengthsExact(p: seq<byte>, i: nat, v: text)
    requires PoolOk(p) && i < Count(p) && Room(p, i, v)
    ensures PoolOk(Rewritten(p, i, v)) <==> LengthsFit(p, Rewritten(p, i, v))
  {
    hide U16, U32, Rewritten;
    RewrittenHead(p, i, v);
    var q := Rewritten(p, i, v);
    forall j: nat | j < Count(p)
      ensures Inside(q, j) <==> Base(p, j) + 2 <= |p| && Base(p, j) + 2 + 2 * U16(q, Base(p, j)) <= |p|
    {
      assert Inside(p, j);
    }
  }

  /** On the file, the equal-length overwrite is the rewrite of the pool. */
  lemma OverwriteView(d: seq<byte>, i: nat, v: text)
    requires WellFormed(d) && i < Count(View(d).pool) && Room(View(d).pool, i, v)
    ensures var m := View(d); var o := 8 + Base(m.pool, i) + 2;
      && o + |Encode(v)| <= |d|
      && var m' := m.(pool := Rewritten(m.pool, i, v));
      && FileSize(m') == FileSize(m) == |d| && Put(d, o, Encode(v)) == Serialize(m')
  {
    hide U16, U32, Tiles, Chunks, ChunkOk, Flatten, View, Le32, Put, Encode;
    var m := View(d);
    Pieces(d);
    SerializeView(d);
    EncodedLength(v);
    EditMiddle(d[..8], m.pool, Flatten(m.chunks), Base(m.pool, i) + 2, Encode(v));
    assert d[..8] == m.magic + Le32(FileSize(m));
  }

  /** The string a well-formed file gives back for an entry whose units were just overwritten. */
  lemma OverwriteRead(d: seq<byte>, i: nat, v: text)
    requires WellFormed(d) && i < Count(View(d).pool) && Inside(View(d).pool, i) && Encodable(v)
    requires |v| == U16(View(d).pool, Base(View(d).pool, i))
    ensures |Encode(v)| >= 2 * |v|
    ensures var p := View(d).pool; var o := 8 + Base(p, i) + 2;
      && o <= |d|
      && var r := ReadString(Assign(d, o, Encode(v)), HeaderOf(p), i);
      && var t := Decode(Encode(v)[..2 * |v|]);
      && r == if t.None? then Err(UnicodeError) else Ok(StringRead(t.value, o - 2, |v|))
  {
    hide U16, U32, Encode, Decode, Tiles, Chunks, ChunkOk, View, Assign, Slice;
    var p := View(d).pool;
    var o, enc := 8 + Base(p, i) + 2, Encode(v);
    EncodedLength(v);
    PoolReads(d, HeaderSize(p) + 4 * i);
    PoolReads(d, Base(p, i));
    var d' := Assign(d, o, enc);
    AssignSlices(d, o, enc);
    SameRead(d', 0, d, 0, o, 8 + HeaderSize(p) + 4 * i);
    SameRead(d', 0, d, 0, o, o - 2);
    SliceInside(d', o, enc, 2 * |v|);
  }

  lemma SliceInside(b: seq<byte>, o: nat, s: seq<byte>, n: nat)
    requires o + |s| <= |b| && b[o..o + |s|] == s && n <= |s|
    ensures Slice(b, o, o + n) == s[..n]
  {
    SliceOfSlice(b, o, o + |s|, 0, n);
  }

  /** An overwrite of equal `len` reads back exactly when the new text is all BMP. */
  lemma OverwriteReadsBackExactly(d: seq<byte>, i: nat, v: text)
    requires WellFormed(d) && i < Count(View(d).pool) && Inside(View(d).pool, i) && Encodable(v)
    requires |v| == U16(View(d).pool, Base(View(d).pool, i))
    ensures var p := View(d).pool; var o := 8 + Base(p, i) + 2;
      && o <= |d|
      && (ReadString(Assign(d, o, Encode(v)), HeaderOf(p), i) == Ok(StringRead(v, o - 2, |v|)) <==> Bmp(v))
  {
    hide U16, U32, Encode, Decode, Tiles, Chunks, ChunkOk, View, ReadString, Assign;
    OverwriteRead(d, i, v);
    ShortReadExact(v);
  }
}

/** Edits inside one element chunk: writing a field of an attribute record. */
module AxmlElements {
  import opened Arithmetic
  import opened Wrappers
  import opened Bytes
  import opened Utf16
  import opened AxmlReader
  import opened AxmlFormat

  const RAW_FIELD := 8
  const DATA_FIELD := 16

  /** Attribute records of a START chunk do not overlap. */
  lemma RecordsApart(c: Chunk, i: nat, j: nat)
    requires |c| >= 36 && AttrSize(c) >= 20 && i < j
    ensures Rec(c, i) + 20 <= Rec(c, j)
  {
    hide U16, AttrSize;
    MultiplesApart(AttrSize(c), i, j);
  }

  /** One 32-bit field of record `i` overwritten. */
  function PutField(c: Chunk, i: nat, f: nat, x: nat): (c': Chunk)
    requires |c| >= 36 && Rec(c, i) + f + 4 <= |c| && x < TWO_32
    ensures |c'| == |c|
  {
    Put(c, Rec(c, i) + f, Le32(x))
  }

  function WithField(a: RawAttr, f: nat, x: nat): RawAttr {
    if f == RAW_FIELD then a.(raw := x) else if f == DATA_FIELD then a.(data := x) else a
  }

  /** Fields in front of all attribute records are out of reach. */
  lemma PutFieldHeader(c: Chunk, i: nat, f: nat, x: nat)
    requires |c| >= 36 && U16(c, 24) >= 20 && Rec(c, i) + f + 4 <= |c| && x < TWO_32
    ensures var c' := PutField(c, i, f, x);
      && (ChunkShape(c) ==> ChunkShape(c')) && U16(c', 0) == U16(c, 0) && U32(c', 20) == U32(c, 20)
      && U16(c', 24) == U16(c, 24) && AttrSize(c') == AttrSize(c) && AttrCount(c') == AttrCount(c)
      && forall j: nat :: Rec(c', j) == Rec(c, j)
  {
    hide U16, U32, Le32, Put;
    var o := Rec(c, i) + f;
    assert o >= 36;
    PutReads(c, o, x, 0);
    PutReads(c, o, x, 4);
    PutReads(c, o, x, 20);
    PutReads(c, o, x, 24);
    PutReads(c, o, x, 26);
    PutReads(c, o, x, 28);
  }

  lemma PutFieldRecord(c: Chunk, i: nat, f: nat, x: nat, j: nat, count: nat)
    requires ChunkShape(c) && StartOk(c, count) && i < AttrCount(c) && j < AttrCount(c)
    requires f == RAW_FIELD || f == DATA_FIELD
    requires x < TWO_32
    ensures Rec(c, i) + 20 <= |c| && Rec(c, j) + 20 <= |c|
    ensures RecordAt(PutField(c, i, f, x), Rec(c, j))
         == if j == i then WithField(RecordAt(c, Rec(c, j)), f, x) else RecordAt(c, Rec(c, j))
  {
    hide U16, U32, Le32, Put, Rec;
    assert RecordOk(c, Rec(c, i), count) && RecordOk(c, Rec(c, j), count);
    if i < j {
      RecordsApart(c, i, j);
    } else if j < i {
      RecordsApart(c, j, i);
    }
    var o, r := Rec(c, i) + f, Rec(c, j);
    PutReads(c, o, x, r);
    PutReads(c, o, x, r + 4);
    PutReads(c, o, x, r + 8);
    PutReads(c, o, x, r + 15);
    PutReads(c, o, x, r + 16);
  }

  /** The chunk still resolves exactly when the written record does. */
  lemma PutFieldOk(c: Chunk, i: nat, f: nat, x: nat, count: nat)
    requires ChunkOk(c, count) && U16(c, 0) == START_ELEMENT && i < AttrCount(c)
    requires f == RAW_FIELD || f == DATA_FIELD
    requires x < TWO_32
    ensures Rec(c, i) + 20 <= |c|
    ensures ChunkOk(PutField(c, i, f, x), count) <==> AttrOk(WithField(RecordAt(c, Rec(c, i)), f, x), count)
  {
    hide U16, U32, Le32, Put, Rec, PutField, AttrOk, RecordAt;
    assert RecordOk(c, Rec(c, i), count);
    PutFieldHeader(c, i, f, x);
    var c' := PutField(c, i, f, x);
    forall j: nat | j < AttrCount(c)
      ensures RecordOk(c', Rec(c', j), count)
         <==> (j == i ==> AttrOk(WithField(RecordAt(c, Rec(c, i)), f, x), count))
    {
      assert RecordOk(c, Rec(c, j), count);
      PutFieldRecord(c, i, f, x, j, count);
    }
    assert RecordOk(c', Rec(c', i), count) <==> AttrOk(WithField(RecordAt(c, Rec(c, i)), f, x), count);
  }

  /** The copied element's single attribute, pointed at string `x` in both places. */
  function Retarget(c: Chunk, x: nat): (c': Chunk)
    requires |c| >= 36 && Rec(c, 0) + 20 <= |c| && x < TWO_32
    requires U16(c, 24) >= 20
    ensures |c'| == |c|
  {
    PutFieldHeader(c, 0, RAW_FIELD, x);
    PutField(PutField(c, 0, RAW_FIELD, x), 0, DATA_FIELD, x)
  }

  /** The copy is the template byte for byte, except for the raw value and the data word of its attribute. */
  lemma RetargetEffect(c: Chunk, x: nat, count: nat)
    requires ChunkOk(c, count) && U16(c, 0) == START_ELEMENT && AttrCount(c) == 1 && x < count
    requires count < TWO_32
    ensures Rec(c, 0) + 20 <= |c| && U16(c, 24) >= 20
    ensures var c' := Retarget(c, x);
      && ChunkOk(c', count) && U16(c', 0) == U16(c, 0) && U32(c', 20) == U32(c, 20)
      && AttrCount(c') == 1 && Rec(c', 0) == Rec(c, 0)
      && RecordAt(c', Rec(c, 0)) == RecordAt(c, Rec(c, 0)).(raw := x, data := x)
      && forall k :: 0 <= k < |c| && !(8 <= k - Rec(c, 0) < 12) && !(16 <= k - Rec(c, 0) < 20) ==> c'[k] == c[k]
  {
    hide U16, U32, Le32, Put, Rec, RecordAt, PutField;
    assert RecordOk(c, Rec(c, 0), count);
    var c1 := PutField(c, 0, RAW_FIELD, x);
    PutFieldHeader(c, 0, RAW_FIELD, x);
    PutFieldRecord(c, 0, RAW_FIELD, x, 0, count);
    PutFieldOk(c, 0, RAW_FIELD, x, count);
    PutFieldHeader(c1, 0, DATA_FIELD, x);
    PutFieldRecord(c1, 0, DATA_FIELD, x, 0, count);
    PutFieldOk(c1, 0, DATA_FIELD, x, count);
    PutFieldBytes(c, 0, RAW_FIELD, x);
    PutFieldBytes(c1, 0, DATA_FIELD, x);
  }

  /** Both words of the copy hold `x`, whether that is a string or not. */
  lemma RetargetWords(c: Chunk, x: nat)
    requires |c| >= 36 && Rec(c, 0) + 20 <= |c| && x < TWO_32 && U16(c, 24) >= 20
    ensures var c' := Retarget(c, x);
      && U16(c', 0) == U16(c, 0) && AttrCount(c') == AttrCount(c) && Rec(c', 0) == Rec(c, 0)
      && U32(c', Rec(c, 0) + RAW_FIELD) == x && U32(c', Rec(c, 0) + DATA_FIELD) == x
  {
    hide U16, U32, Le32, Put, Rec;
    var r, c1 := Rec(c, 0), PutField(c, 0, RAW_FIELD, x);
    PutFieldHeader(c, 0, RAW_FIELD, x);
    PutFieldHeader(c1, 0, DATA_FIELD, x);
    PutReads(c, r + RAW_FIELD, x, r);
    PutReads(c1, r + DATA_FIELD, x, r + RAW_FIELD);
  }

  lemma RetargetResolves(c: Chunk, x: nat, count: nat)
    requires |c| >= 36 && Rec(c, 0) + 20 <= |c| && x < NO_REF && U16(c, 24) >= 20
    requires U16(c, 0) == START_ELEMENT && AttrCount(c) == 1
    ensures ChunkOk(Retarget(c, x), count) ==> x < count
  {
    hide U16, U32, Retarget, Rec;
    var c' := Retarget(c, x);
    RetargetWords(c, x);
    if ChunkOk(c', count) {
      assert RecordOk(c', Rec(c', 0), count);
    }
  }

  lemma PutFieldBytes(c: Chunk, i: nat, f: nat, x: nat)
    requires |c| >= 36 && Rec(c, i) + f + 4 <= |c| && x < TWO_32
    ensures forall k :: 0 <= k < |c| && !(f <= k - Rec(c, i) < f + 4) ==> PutField(c, i, f, x)[k] == c[k]
  {
    hide U16, U32, Le32, Put, Rec;
    forall k: nat | k < |c| && !(f <= k - Rec(c, i) < f + 4)
      ensures PutField(c, i, f, x)[k] == c[k]
    {
      PutReads(c, Rec(c, i) + f, x, k);
    }
  }
}

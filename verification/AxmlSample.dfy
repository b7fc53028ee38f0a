/** A smallest manifest with a template: the conditions of the recipe can be met. */
module AxmlSample {
  import opened Wrappers
  import opened Bytes
  import opened Utf16
  import opened AxmlReader
  import opened AxmlFormat
  import opened AxmlLookup
  import opened AxmlEdits
  import opened AxmlManifest
  import opened AxmlInPlace
  import opened AxmlRecipe

  const TAG: text := [0x75]   // one string, which names the element and is its attribute's value

  const POOL: seq<byte> :=
    [0x01, 0x00, 0x1C, 0x00, 0x28, 0x00, 0x00, 0x00] +
    [0x01, 0x00, 0x00, 0x00, 0x00, 0x00, 0x00, 0x00] +
    [0x00, 0x00, 0x00, 0x00, 0x20, 0x00, 0x00, 0x00] +
    [0x00, 0x00, 0x00, 0x00, 0x00, 0x00, 0x00, 0x00] +
    [0x01, 0x00, 0x75, 0x00, 0x00, 0x00, 0x00, 0x00]

  const START: Chunk :=
    [0x02, 0x01, 0x10, 0x00, 0x38, 0x00, 0x00, 0x00] +
    [0x00, 0x00, 0x00, 0x00, 0xFF, 0xFF, 0xFF, 0xFF] +
    [0xFF, 0xFF, 0xFF, 0xFF, 0x00, 0x00, 0x00, 0x00, 0x14, 0x00, 0x14, 0x00, 0x01, 0x00] +
    [0x00, 0x00, 0x00, 0x00, 0x00, 0x00] +
    [0xFF, 0xFF, 0xFF, 0xFF, 0x00, 0x00, 0x00, 0x00, 0x00, 0x00, 0x00, 0x00] +
    [0x08, 0x00, 0x00, 0x03, 0x00, 0x00, 0x00, 0x00]

  const END: Chunk :=
    [0x03, 0x01, 0x10, 0x00, 0x18, 0x00, 0x00, 0x00, 0x00, 0x00, 0x00, 0x00, 0xFF, 0xFF, 0xFF, 0xFF,
     0xFF, 0xFF, 0xFF, 0xFF, 0x00, 0x00, 0x00, 0x00]

  const SAMPLE := Manifest([0x03, 0x00, 0x08, 0x00], POOL, [START, END])

  lemma PoolFields()
    ensures |POOL| == 40 && U16(POOL, 0) == 1 && U16(POOL, 2) == 28 && U32(POOL, 4) == 40
    ensures U32(POOL, 8) == 1 && U32(POOL, 12) == 0 && U32(POOL, 16) == 0 && U32(POOL, 20) == 32
    ensures U32(POOL, 28) == 0 && U16(POOL, 32) == 1 && POOL[34..36] == [0x75, 0x00]
  {
    assert POOL[0] == 1 && POOL[1] == 0 && POOL[2] == 0x1C && POOL[3] == 0 && POOL[4] == 0x28;
    assert forall i :: 5 <= i < 8 || 9 <= i < 20 || 21 <= i < 32 || i == 33 || i == 35 ==> POOL[i] == 0;
    assert POOL[8] == 1 && POOL[20] == 0x20 && POOL[32] == 1 && POOL[34] == 0x75;
  }

  lemma TagDecodes()
    ensures Decode([0x75, 0x00]) == Some(TAG)
  {
    var b: seq<byte> := [0x75, 0x00];
    assert b[2..] == [] && U16(b, 0) == 0x75;
    var none: text := [];
    assert Decode(b[2..]) == Some(none) && TAG == [0x75] + none;
  }

  lemma PoolIsOk()
    ensures PoolOk(POOL) && Count(POOL) == 1 && Strings(POOL) == [Some(TAG)]
  {
    hide U16, U32, Decode;
    PoolFields();
    TagDecodes();
    assert PoolHead(POOL) && Base(POOL, 0) == 32 && Inside(POOL, 0);
    assert Units(POOL, 0) == POOL[34..36];
  }

  lemma StartFields()
    ensures |START| == 56 && U16(START, 0) == START_ELEMENT && U32(START, 4) == 56 && U32(START, 20) == 0
    ensures U16(START, 24) == 20 && U16(START, 26) == 20 && U16(START, 28) == 1
    ensures RecordAt(START, 36) == RawAttr(NO_REF, 0, 0, 3, 0)
  {
    assert START[0] == 2 && START[1] == 1 && START[4] == 0x38;
    assert START[5] == 0 && START[6] == 0 && START[7] == 0;
    assert START[20] == 0 && START[21] == 0 && START[22] == 0 && START[23] == 0;
    assert START[24] == 20 && START[25] == 0 && START[26] == 20 && START[27] == 0 && START[28] == 1 && START[29] == 0;
    assert forall i :: 36 <= i < 40 ==> START[i] == 0xFF;
    assert forall i :: 40 <= i < 48 || 52 <= i < 56 ==> START[i] == 0;
    assert START[51] == 3;
  }

  lemma StartIsOk()
    ensures ChunkOk(START, 1) && StartOk(START, 1) && ChunkShape(START)
    ensures Kind(START) == START_ELEMENT && AttrCount(START) == 1 && U32(START, 20) == 0
  {
    hide U16, U32, RecordAt;
    StartFields();
    assert Rec(START, 0) == 36;
  }

  lemma EndIsOk()
    ensures ChunkOk(END, 1) && ChunkShape(END) && |END| == 24 && Kind(END) == END_ELEMENT && U32(END, 20) == 0
  {
    assert END[0] == 3 && END[1] == 1 && END[4] == 24 && END[5] == 0 && END[6] == 0 && END[7] == 0;
    assert END[20] == 0 && END[21] == 0 && END[22] == 0 && END[23] == 0;
  }

  lemma SampleGrowth()
    ensures Storable(TAG) && GrowthOf(TAG) == 12 && Added([TAG], 80) == 92
  {
    assert Encode(TAG) == EncodeOne(0x75) + Encode([]) by {
      assert TAG[1..] == [];
    }
    assert [TAG][1..] == [];
  }

  lemma SampleValid()
    ensures Valid(SAMPLE) && FileSize(SAMPLE) == 128
  {
    hide U16, U32, PoolOk, StartOk, ChunkOk, Flatten;
    PoolIsOk();
    PoolFields();
    StartIsOk();
    StartFields();
    EndIsOk();
    FlattenPair(START, END);
  }

  /** Its one string keeps clear of the others, so that it can be overwritten. */
  lemma SampleSeparate()
    ensures PoolOk(POOL) && Count(POOL) == 1 && Separate(POOL, 0) && Room(POOL, 0, TAG)
  {
    hide U16, U32;
    PoolIsOk();
    PoolFields();
    SampleEncoding();
  }

  lemma SampleEncoding()
    ensures |Encode(TAG)| == 2
  {
    assert TAG[1..] == [];
  }

  lemma SampleNested()
    ensures Valid(SAMPLE) && Nested(SAMPLE)
  {
    hide U16, U32, PoolOk, StartOk, ChunkOk, Valid, FileSize, Nest;
    SampleValid();
    ValidNamed(SAMPLE);
    StartIsOk();
    EndIsOk();
    NestPair(START, END, []);
  }

  lemma SampleFirst()
    ensures Valid(SAMPLE) && IsFirstTemplate(SAMPLE, TAG, 0)
  {
    hide U16, U32, PoolOk, StartOk, ChunkOk, Strings, Valid, FileSize;
    SampleValid();
    PoolIsOk();
    StartIsOk();
    EndIsOk();
  }

  lemma SampleFits()
    ensures Valid(SAMPLE) && Fits(SAMPLE, 0, [TAG])
  {
    hide U16, U32, Valid, FileSize, Storable, GrowthOf, Added;
    SampleValid();
    SampleGrowth();
    StartFields();
    EndIsOk();
  }

  /** The sample is a valid, well-nested manifest whose first leaf is a template, with room for more. */
  lemma SampleMeetsTheRecipe()
    ensures Valid(SAMPLE) && Nested(SAMPLE) && IsFirstTemplate(SAMPLE, TAG, 0) && Fits(SAMPLE, 0, [TAG])
  {
    hide *;
    SampleNested();
    SampleFirst();
    SampleFits();
  }
}

/**
 Any interleaving of the patcher's edits. The state is a file's view and the cached header; only an
 append re-parses, the other edits leave the cache alone.
 */
module AxmlRuns {
  import opened Wrappers
  import opened Bytes
  import opened Utf16
  import opened AxmlReader
  import opened AxmlFormat
  import opened AxmlLookup
  import opened AxmlEdits
  import opened AxmlElements
  import opened AxmlManifest
  import opened AxmlInPlace

  datatype Edit =
    | Append(value: text)
    | Duplicate(template: nat, idx: nat)
    | SetData(chunk: nat, attr: nat, data: nat)
    | Overwrite(index: nat, value: text)

  datatype State = State(m: Manifest, cache: PoolHeader)

  /** The call goes through, and an overwrite ends inside the pool. */
  ghost predicate Possible(m: Manifest, e: Edit)
    requires Valid(m)
  {
    match e
    case Append(v) => Storable(v) && FileSize(m) + GrowthOf(v) < TWO_32
    case Duplicate(i, x) => IsTemplate(m, i) && x < 0x8000_0000 && FileSize(m) + LeafSize(m, i) < TWO_32
    case SetData(k, i, x) => HasAttr(m, k, i) && x < TWO_32 && Rec(m.chunks[k], i) + 20 <= |m.chunks[k]|
    case Overwrite(i, v) => i < Count(m.pool) && Encodable(v) && Room(m.pool, i, v)
  }

  /** Every string the edit refers to is there, and no overwritten length field announces too much. */
  ghost predicate Sound(m: Manifest, e: Edit)
    requires Valid(m) && Possible(m, e)
  {
    match e
    case Append(v) => true
    case Duplicate(i, x) => x < Count(m.pool)
    case SetData(k, i, x) => m.chunks[k][Rec(m.chunks[k], i) + 15] == TYPE_STRING ==> x < Count(m.pool)
    case Overwrite(i, v) => LengthsFit(m.pool, Rewritten(m.pool, i, v))
  }

  ghost function Apply(m: Manifest, e: Edit): Manifest
    requires Valid(m) && Possible(m, e)
  {
    match e
    case Append(v) => AppendTo(m, v)
    case Duplicate(i, x) => DuplicateAt(m, i, x)
    case SetData(k, i, x) => WithData(m, k, i, x)
    case Overwrite(i, v) => m.(pool := Rewritten(m.pool, i, v))
  }

  /** One edit leaves the file well formed exactly when it is sound, and only an append changes the pool header. */
  lemma EditKeeps(m: Manifest, e: Edit)
    requires Valid(m) && Possible(m, e)
    ensures var m' := Apply(m, e);
      && (Valid(m') <==> Sound(m, e))
      && m'.magic == m.magic && FileSize(m') >= FileSize(m) && |m'.chunks| >= |m.chunks| && PoolHead(m'.pool)
      && (!e.Append? ==> HeaderOf(m'.pool) == HeaderOf(m.pool))
      && Count(m'.pool) == Count(m.pool) + if e.Append? then 1 else 0
  {
    hide U16, U32, Flatten, GrowPool, StartOk, ChunkOk, Retarget, PutField, Rewritten, Units, Inside, LengthsFit;
    match e
    case Append(v) =>
      AppendValid(m, v);
    case Duplicate(i, x) =>
      DuplicateValidExact(m, i, x);
      DuplicateSize(m, i, x);
    case SetData(k, i, x) =>
      SetDataValid(m, k, i, x);
      WithDataSize(m, k, i, x);
    case Overwrite(i, v) =>
      RewrittenHead(m.pool, i, v);
      LengthsExact(m.pool, i, v);
  }

  /** The sizes of an edited file are right whether or not its references are. */
  lemma ApplyShaped(m: Manifest, e: Edit)
    requires Valid(m) && Possible(m, e)
    ensures Shaped(Apply(m, e))
  {
    hide U16, U32, Flatten, GrowPool, StartOk, Retarget, Rewritten, Units, Inside, PoolOk, Put, Le32, Rec;
    ValidShapes(m);
    match e
    case Append(v) =>
      AppendValid(m, v);
      ValidIsShaped(AppendTo(m, v));
    case Duplicate(i, x) =>
      DuplicateSize(m, i, x);
      RetargetShape(m, i, x);
    case SetData(k, i, x) =>
      WithDataSize(m, k, i, x);
      AttrStart(m, k, i);
      PutFieldHeader(m.chunks[k], i, DATA_FIELD, x);
    case Overwrite(i, v) =>
      ValidHead(m);
      RewrittenHead(m.pool, i, v);
  }

  lemma ValidHead(m: Manifest)
    requires Valid(m)
    ensures PoolHead(m.pool)
  {
    hide PoolHead, ChunkOk, Flatten;
  }

  lemma AttrStart(m: Manifest, k: nat, i: nat)
    requires Valid(m) && HasAttr(m, k, i)
    ensures U16(m.chunks[k], 24) >= 20
  {
    hide U16, U32, PoolOk, Flatten, Rec;
    assert ChunkOk(m.chunks[k], Count(m.pool));
  }

  lemma RetargetShape(m: Manifest, i: nat, x: nat)
    requires Valid(m) && IsTemplate(m, i) && x < TWO_32
    ensures forall c <- DuplicateAt(m, i, x).chunks :: ChunkShape(c)
  {
    hide U16, U32, Flatten, PoolOk, Put, Le32, Rec, ChunkShape, RecordOk;
    ValidShapes(m);
    TemplateRecord(m, i);
    var c := m.chunks[i];
    PutFieldHeader(c, 0, RAW_FIELD, x);
    PutFieldHeader(PutField(c, 0, RAW_FIELD, x), 0, DATA_FIELD, x);
  }

  /** An overwrite of a string that keeps clear of the others is sound. */
  lemma SeparateIsSound(m: Manifest, i: nat, v: text)
    requires Valid(m) && Possible(m, Overwrite(i, v)) && Separate(m.pool, i) && Bmp(v)
    ensures Sound(m, Overwrite(i, v))
  {
    hide U16, U32, Rewritten, Apart, Units, Inside, LengthsFit, ChunkOk, Flatten, Encodable, Bmp;
    RewrittenStrings(m.pool, i, v);
    LengthsExact(m.pool, i, v);
  }

  lemma DuplicateSize(m: Manifest, i: nat, x: nat)
    requires Valid(m) && IsTemplate(m, i) && x < TWO_32
    ensures var m' := DuplicateAt(m, i, x);
      FileSize(m') == FileSize(m) + LeafSize(m, i) && |m'.chunks| == |m.chunks| + 2
  {
    hide U16, U32, Flatten, Retarget, StartOk;
    TemplateRecord(m, i);
    FlattenInserted(m.chunks, i + 2, Retarget(m.chunks[i], x), m.chunks[i + 1]);
  }

  lemma WithDataSize(m: Manifest, k: nat, i: nat, x: nat)
    requires HasAttr(m, k, i) && Rec(m.chunks[k], i) + 20 <= |m.chunks[k]| && x < TWO_32
    ensures FileSize(WithData(m, k, i, x)) == FileSize(m) && |WithData(m, k, i, x).chunks| == |m.chunks|
  {
    hide U16, U32, Flatten, Rec, PutField;
    FlattenUpdate(m.chunks, k, PutField(m.chunks[k], i, DATA_FIELD, x));
  }

  ghost function Step(s: State, e: Edit): State
    requires Valid(s.m) && Possible(s.m, e) && Sound(s.m, e)
  {
    var m' := Apply(s.m, e);
    EditKeeps(s.m, e);
    State(m', if e.Append? then HeaderOf(m'.pool) else s.cache)
  }

  /** Every edit of the run is possible and sound when its turn comes. */
  ghost predicate AllSound(m: Manifest, es: seq<Edit>)
    requires Valid(m)
    decreases |es|
  {
    || es == []
    || (Possible(m, es[0]) && Sound(m, es[0]) && (EditKeeps(m, es[0]); AllSound(Apply(m, es[0]), es[1..])))
  }

  ghost function Run(s: State, es: seq<Edit>): State
    requires Valid(s.m) && AllSound(s.m, es)
    decreases |es|
  {
    if es == [] then s
    else
      EditKeeps(s.m, es[0]);
      Run(Step(s, es[0]), es[1..])
  }

  function Appends(es: seq<Edit>): nat {
    if es == [] then 0 else (if es[0].Append? then 1 else 0) + Appends(es[1..])
  }

  /**
   After every run the bytes are a well-formed file with exactly the appended strings added, and the
   cached header is what a fresh parse of those bytes gives.
   */
  lemma {:induction false} RunKeepsCacheFresh(s: State, es: seq<Edit>)
    requires Valid(s.m) && s.cache == HeaderOf(s.m.pool) && AllSound(s.m, es)
    ensures var t := Run(s, es);
      && Valid(t.m) && WellFormed(Serialize(t.m)) && View(Serialize(t.m)) == t.m
      && ParsePool(Serialize(t.m)) == Ok(t.cache)
      && Count(t.m.pool) == Count(s.m.pool) + Appends(es)
      && FileSize(t.m) >= FileSize(s.m)
    decreases |es|
  {
    hide Possible, Sound, Apply, View, Serialize, WellFormed, ParsePool, FileSize, Flatten, U16, U32, ChunkOk, PoolOk;
    if es == [] {
      ViewSerialize(s.m);
      ParseView(Serialize(s.m));
    } else {
      EditKeeps(s.m, es[0]);
      RunKeepsCacheFresh(Step(s, es[0]), es[1..]);
    }
  }
}

/**
 What a manifest says: its chunks with every string index looked up. The recipe that adds permissions
 (append a string, duplicate the template, point the copy at the string) is stated at this level.
 */
module AxmlDocument {
  import opened Wrappers
  import opened Bytes
  import opened Utf16
  import opened AxmlReader
  import opened AxmlFormat
  import opened AxmlLookup
  import opened AxmlEdits
  import opened AxmlElements
  import opened AxmlManifest

  type Pool = seq<Option<text>>

  /** An attribute with its strings looked up; `value` is the typed value where that is a string. */
  datatype Attribute = Attribute(
    ns: Option<text>, name: Option<text>, raw: Option<text>, kind: byte, data: nat, value: Option<text>)

  datatype Event =
    | Start(name: Option<text>, attrs: seq<Attribute>)
    | End(name: Option<text>)
    | Other(bytes: Chunk)

  function LookUp(strs: Pool, u: nat): Option<text> {
    if u < |strs| then strs[u] else None
  }

  function Resolve(strs: Pool, a: RawAttr): Attribute {
    Attribute(LookUp(strs, a.ns), LookUp(strs, a.name), LookUp(strs, a.raw), a.kind, a.data,
              if a.kind == TYPE_STRING then LookUp(strs, a.data) else None)
  }

  ghost function EventOf(strs: Pool, c: Chunk, count: nat): Event
    requires ChunkOk(c, count)
  {
    if Kind(c) == START_ELEMENT then
      Start(LookUp(strs, U32(c, 20)),
            seq(AttrCount(c), i requires 0 <= i < AttrCount(c) =>
              assert RecordOk(c, Rec(c, i), count); Resolve(strs, RecordAt(c, Rec(c, i)))))
    else if Kind(c) == END_ELEMENT then End(LookUp(strs, U32(c, 20)))
    else Other(c)
  }

  ghost function Events(strs: Pool, cs: seq<Chunk>, count: nat): (es: seq<Event>)
    requires forall c <- cs :: ChunkOk(c, count)
    ensures |es| == |cs|
  {
    seq(|cs|, i requires 0 <= i < |cs| => EventOf(strs, cs[i], count))
  }

  ghost function Document(m: Manifest): (es: seq<Event>)
    requires Valid(m)
    ensures |es| == |m.chunks|
  {
    Events(Strings(m.pool), m.chunks, Count(m.pool))
  }

  /** A longer pool with the same beginning changes nothing a chunk says. */
  lemma EventStable(strs: Pool, strs': Pool, c: Chunk)
    requires strs <= strs' && |strs'| <= NO_REF
    requires ChunkOk(c, |strs|) && ChunkOk(c, |strs'|)
    ensures EventOf(strs', c, |strs'|) == EventOf(strs, c, |strs|)
  {
    hide U16, U32, Rec;
    if Kind(c) == START_ELEMENT {
      var e, e' := EventOf(strs, c, |strs|), EventOf(strs', c, |strs'|);
      forall i | 0 <= i < AttrCount(c)
        ensures e'.attrs[i] == e.attrs[i]
      {
        assert RecordOk(c, Rec(c, i), |strs|);
      }
      assert e'.attrs == e.attrs;
    }
  }

  /** The entry and the offset table are within the file, so the pool never fills the index space. */
  lemma CountBound(p: seq<byte>)
    requires PoolOk(p)
    ensures Count(p) < 0x4000_0000
  {
    hide U32, U16, Inside;
    U32Bound(p, 4);
  }

  /** Appending a string changes no element of the document. */
  lemma AppendKeepsDocument(m: Manifest, v: text)
    requires Valid(m) && Storable(v) && FileSize(m) + GrowthOf(v) < TWO_32
    ensures Valid(AppendTo(m, v)) && Document(AppendTo(m, v)) == Document(m)
  {
    hide PoolOk, ChunkOk, GrowPool, EventOf, Strings, Flatten, Decode;
    var m' := AppendTo(m, v);
    AppendValid(m, v);
    GrowStrings(m.pool, v);
    CountBound(m'.pool);
    StringsCount(m.pool);
    StringsCount(m'.pool);
    forall i | 0 <= i < |m.chunks|
      ensures Document(m')[i] == Document(m)[i]
    {
      EventStable(Strings(m.pool), Strings(m'.pool), m.chunks[i]);
    }
  }

  lemma StringsCount(p: seq<byte>)
    requires PoolOk(p)
    ensures |Strings(p)| == Count(p)
  {
  }

  /** The template's event, granting string `x` of the pool instead. */
  ghost function Granting(e: Event, p: Option<text>, x: nat): Event
    requires e.Start? && |e.attrs| == 1
  {
    var a := e.attrs[0];
    e.(attrs := [a.(raw := p, data := x, value := if a.kind == TYPE_STRING then p else None)])
  }

  lemma TemplateEvent(m: Manifest, i: nat)
    requires Valid(m) && IsTemplate(m, i)
    ensures Document(m)[i].Start? && |Document(m)[i].attrs| == 1 && Document(m)[i + 1].End?
  {
    hide U16, U32, Strings, Flatten, PoolOk, RecordOk;
    TemplateRecord(m, i);
  }

  lemma RetargetEvent(strs: Pool, c: Chunk, x: nat)
    requires ChunkOk(c, |strs|) && Kind(c) == START_ELEMENT && AttrCount(c) == 1 && x < |strs| < TWO_32
    ensures Rec(c, 0) + 20 <= |c| && U16(c, 24) >= 20 && ChunkOk(Retarget(c, x), |strs|)
    ensures var e := EventOf(strs, c, |strs|);
      e.Start? && |e.attrs| == 1 && EventOf(strs, Retarget(c, x), |strs|) == Granting(e, strs[x], x)
  {
    hide U16, U32, Retarget, RecordAt, Rec;
    RetargetEffect(c, x, |strs|);
    assert RecordOk(c, Rec(c, 0), |strs|);
    var e, e' := EventOf(strs, c, |strs|), EventOf(strs, Retarget(c, x), |strs|);
    assert e'.attrs[0] == Granting(e, strs[x], x).attrs[0];
    assert e'.attrs == Granting(e, strs[x], x).attrs;
  }

  /** Duplicating inserts one pair right after the template and changes nothing else. */
  lemma DuplicateDocument(m: Manifest, i: nat, x: nat)
    requires Valid(m) && IsTemplate(m, i) && x < Count(m.pool)
    requires FileSize(m) + LeafSize(m, i) < TWO_32
    ensures var m', doc := DuplicateAt(m, i, x), Document(m);
      && Valid(m') && doc[i].Start? && |doc[i].attrs| == 1 && x < |Strings(m.pool)|
      && Document(m')
         == doc[..i + 2] + [Granting(doc[i], Strings(m.pool)[x], x), doc[i + 1]] + doc[i + 2..]
  {
    hide U16, U32, Strings, Flatten, PoolOk, ChunkOk, StartOk, EventOf, Retarget;
    CountBound(m.pool);
    var m', doc, strs := DuplicateAt(m, i, x), Document(m), Strings(m.pool);
    TemplateRecord(m, i);
    TemplateEvent(m, i);
    StringsCount(m.pool);
    DuplicateValid(m, i, x);
    RetargetEvent(strs, m.chunks[i], x);
    var doc' := Document(m');
    var pair := [Granting(doc[i], strs[x], x), doc[i + 1]];
    assert |doc'| == |doc| + 2 && |m'.chunks| == |m.chunks| + 2;
    assert forall j :: 0 <= j < i + 2 ==> m'.chunks[j] == m.chunks[j];
    assert m'.chunks[i + 2] == Retarget(m.chunks[i], x) && m'.chunks[i + 3] == m.chunks[i + 1];
    assert forall j :: i + 4 <= j < |m'.chunks| ==> m'.chunks[j] == m.chunks[j - 2];
    assert forall j :: 0 <= j < |doc'| ==> doc'[j] == (doc[..i + 2] + pair + doc[i + 2..])[j];
  }
}

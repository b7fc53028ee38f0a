/**
 The manifest recipe: for each permission, append its name to the pool and duplicate the first leaf
 `uses-permission` for it.
 */
module AxmlRecipe {
  import opened Wrappers
  import opened Bytes
  import opened Utf16
  import opened AxmlReader
  import opened AxmlFormat
  import opened AxmlLookup
  import opened AxmlEdits
  import opened AxmlElements
  import opened AxmlManifest
  import opened AxmlDocument

  /** The search finds chunk `i`, and it has exactly one attribute. */
  ghost predicate IsFirstTemplate(m: Manifest, tag: text, i: nat)
    requires Valid(m)
  {
    && AllOk(m.chunks, |Strings(m.pool)|)
    && FirstLeaf(Strings(m.pool), m.chunks, 0, tag) == Ok(i)
    && IsTemplate(m, i)
  }

  /** What a reader gets back for an appended string. */
  function Stored(p: text): Option<text>
    requires Storable(p)
  {
    EncodedLength(p);
    Decode(Encode(p)[..2 * |p|])
  }

  /** Bytes added for the permissions `ps` when the template takes `leaf` bytes. */
  function Added(ps: seq<text>, leaf: nat): nat
    requires forall p <- ps :: Storable(p)
  {
    if ps == [] then 0 else GrowthOf(ps[0]) + leaf + Added(ps[1..], leaf)
  }

  ghost predicate Fits(m: Manifest, i: nat, ps: seq<text>) {
    && i + 1 < |m.chunks|
    && (forall p <- ps :: Storable(p))
    && FileSize(m) + Added(ps, LeafSize(m, i)) < TWO_32
  }

  lemma AppendKeepsTemplate(m: Manifest, i: nat, p: text)
    requires Valid(m) && IsTemplate(m, i) && Storable(p) && FileSize(m) + GrowthOf(p) < TWO_32
    ensures var m' := AppendTo(m, p); Valid(m') && IsTemplate(m', i)
  {
    hide U16, U32, PoolOk, Flatten, RecordOk, GrowPool;
    AppendValid(m, p);
    var m' := AppendTo(m, p);
    assert ChunkOk(m'.chunks[i], Count(m'.pool));
  }

  /** One round of the recipe. */
  ghost function Grant(m: Manifest, i: nat, p: text): Manifest
    requires Valid(m) && IsTemplate(m, i) && Fits(m, i, [p])
  {
    assert Added([p], LeafSize(m, i)) == GrowthOf(p) + LeafSize(m, i);
    AppendKeepsTemplate(m, i, p);
    CountBound(m.pool);
    DuplicateAt(AppendTo(m, p), i, Count(m.pool))
  }

  lemma GrantEffect(m: Manifest, i: nat, p: text)
    requires Valid(m) && IsTemplate(m, i) && Fits(m, i, [p])
    ensures var m', doc, n := Grant(m, i, p), Document(m), Count(m.pool);
      && Valid(m') && IsTemplate(m', i)
      && FileSize(m') == FileSize(m) + GrowthOf(p) + LeafSize(m, i) && LeafSize(m', i) == LeafSize(m, i)
      && Count(m'.pool) == n + 1
      && Strings(m'.pool) == Strings(m.pool) + [Stored(p)]
      && doc[i].Start? && |doc[i].attrs| == 1
      && Document(m') == doc[..i + 2] + [Granting(doc[i], Stored(p), n), doc[i + 1]] + doc[i + 2..]
  {
    hide U16, U32, Flatten, GrowPool, Strings, StartOk, ChunkOk, PoolOk, Document, Decode, Encode, GrowthOf;
    assert Added([p], LeafSize(m, i)) == GrowthOf(p) + LeafSize(m, i);
    AppendValid(m, p);
    AppendKeepsTemplate(m, i, p);
    AppendKeepsDocument(m, p);
    GrowStrings(m.pool, p);
    StringsCount(m.pool);
    CountBound(m.pool);
    var a := AppendTo(m, p);
    DuplicateValid(a, i, Count(m.pool));
    DuplicateDocument(a, i, Count(m.pool));
  }

  /** The search looks no further than the END chunk of the leaf it finds. */
  lemma {:induction false} FirstLeafStable(
      strs: Pool, cs: seq<Chunk>, strs': Pool, cs': seq<Chunk>, k: nat, tag: text, i: nat)
    requires AllOk(cs, |strs|) && AllOk(cs', |strs'|) && FirstLeaf(strs, cs, k, tag) == Ok(i)
    requires strs <= strs' && i + 1 < |cs| && i + 1 < |cs'| && cs[..i + 2] == cs'[..i + 2]
    ensures FirstLeaf(strs', cs', k, tag) == Ok(i)
    decreases |cs| - k
  {
    hide U16, U32, RecordOk;
    FirstLeafIsFirst(strs, cs, k, tag);
    assert cs[k] == cs[..i + 2][k] == cs'[k] && cs[i + 1] == cs[..i + 2][i + 1] == cs'[i + 1];
    assert k < i ==> cs[k + 1] == cs[..i + 2][k + 1] == cs'[k + 1];
    if k < i {
      assert ChunkOk(cs[k], |strs|);
      FirstLeafStable(strs, cs, strs', cs', k + 1, tag, i);
    }
  }

  /** Every round works on the same template. */
  lemma GrantKeepsFirst(m: Manifest, tag: text, i: nat, p: text)
    requires Valid(m) && IsFirstTemplate(m, tag, i) && Fits(m, i, [p])
    ensures var m' := Grant(m, i, p); Valid(m') && IsFirstTemplate(m', tag, i)
  {
    hide U16, U32, Flatten, GrowPool, Strings, StartOk, PoolOk, Document, Decode, Encode, GrowthOf;
    var m' := Grant(m, i, p);
    GrantEffect(m, i, p);
    StringsCount(m.pool);
    StringsCount(m'.pool);
    assert m.chunks[..i + 2] == m'.chunks[..i + 2];
    assert AllOk(m'.chunks, |Strings(m'.pool)|);
    FirstLeafStable(Strings(m.pool), m.chunks, Strings(m'.pool), m'.chunks, 0, tag, i);
  }

  /** The whole recipe. */
  ghost function GrantAll(m: Manifest, i: nat, ps: seq<text>): Manifest
    requires Valid(m) && IsTemplate(m, i) && Fits(m, i, ps)
    decreases |ps|
  {
    if ps == [] then m
    else
      FitsStep(m, i, ps);
      GrantAll(Grant(m, i, ps[0]), i, ps[1..])
  }

  lemma FitsStep(m: Manifest, i: nat, ps: seq<text>)
    requires Valid(m) && IsTemplate(m, i) && Fits(m, i, ps) && ps != []
    ensures Fits(m, i, [ps[0]])
    ensures var m' := Grant(m, i, ps[0]); Valid(m') && IsTemplate(m', i) && Fits(m', i, ps[1..])
  {
    hide U16, U32, Flatten, GrowPool, Strings, StartOk, PoolOk, Document, Grant, GrowthOf, IsTemplate, Valid;
    assert Added([ps[0]], LeafSize(m, i)) == GrowthOf(ps[0]) + LeafSize(m, i);
    GrantEffect(m, i, ps[0]);
  }

  /** The new elements: the last permission first, each with its own END. */
  ghost function Grants(e: Event, end: Event, ps: seq<text>, n: nat): seq<Event>
    requires e.Start? && |e.attrs| == 1 && forall p <- ps :: Storable(p)
  {
    if ps == [] then [] else Grants(e, end, ps[1..], n + 1) + [Granting(e, Stored(ps[0]), n), end]
  }

  /**
   After the recipe the document is the old one with the granted elements right after the template:
   nothing else is added, lost, moved or read differently.
   */
  lemma {:induction false} RecipeDocument(m: Manifest, i: nat, ps: seq<text>)
    requires Valid(m) && IsTemplate(m, i) && Fits(m, i, ps)
    ensures var m', doc := GrantAll(m, i, ps), Document(m);
      && Valid(m') && IsTemplate(m', i)
      && FileSize(m') == FileSize(m) + Added(ps, LeafSize(m, i))
      && doc[i].Start? && |doc[i].attrs| == 1
      && Document(m') == doc[..i + 2] + Grants(doc[i], doc[i + 1], ps, Count(m.pool)) + doc[i + 2..]
    decreases |ps|
  {
    hide U16, U32, Flatten, GrowPool, Strings, StartOk, PoolOk, Document, Grant, GrowthOf, IsTemplate, Granting;
    var doc := Document(m);
    TemplateEvent(m, i);
    if ps == [] {
      assert doc == doc[..i + 2] + [] + doc[i + 2..];
    } else {
      FitsStep(m, i, ps);
      var m1 := Grant(m, i, ps[0]);
      GrantEffect(m, i, ps[0]);
      RecipeDocument(m1, i, ps[1..]);
      var doc1, pair := Document(m1), [Granting(doc[i], Stored(ps[0]), Count(m.pool)), doc[i + 1]];
      assert doc1[..i + 2] == doc[..i + 2] && doc1[i + 2..] == pair + doc[i + 2..];
      assert doc1[i] == doc1[..i + 2][i] == doc[i] && doc1[i + 1] == doc1[..i + 2][i + 1] == doc[i + 1];
      var later := Grants(doc[i], doc[i + 1], ps[1..], Count(m.pool) + 1);
      assert doc[..i + 2] + later + (pair + doc[i + 2..]) == doc[..i + 2] + (later + pair) + doc[i + 2..];
    }
  }

  /** The copied pairs, the last permission's first: the template pointed at string `n`, `n + 1`, ... and its END. */
  ghost function Copies(s: Chunk, e: Chunk, ps: seq<text>, n: nat): seq<Chunk>
    requires |s| >= 36 && Rec(s, 0) + 20 <= |s| && U16(s, 24) >= 20 && n + |ps| <= TWO_32
  {
    if ps == [] then [] else Copies(s, e, ps[1..], n + 1) + [Retarget(s, n), e]
  }

  /** On the bytes: every old chunk stays as it is, and the copies go in right behind the template. */
  lemma {:induction false} RecipeChunks(m: Manifest, i: nat, ps: seq<text>)
    requires Valid(m) && IsTemplate(m, i) && Fits(m, i, ps)
    ensures var m', cs, n := GrantAll(m, i, ps), m.chunks, Count(m.pool);
      && |cs[i]| >= 36 && Rec(cs[i], 0) + 20 <= |cs[i]| && U16(cs[i], 24) >= 20 && n + |ps| <= TWO_32
      && m'.magic == m.magic && m'.chunks == cs[..i + 2] + Copies(cs[i], cs[i + 1], ps, n) + cs[i + 2..]
    decreases |ps|
  {
    hide U16, U32, Flatten, GrowPool, Strings, RecordOk, PoolOk, Document, GrowthOf, Rec, Retarget, Granting;
    hide ChunkOk, ChunkShape;
    TemplateRecord(m, i);
    CountBound(m.pool);
    var cs, n := m.chunks, Count(m.pool);
    if ps == [] {
      assert cs == cs[..i + 2] + [] + cs[i + 2..];
    } else {
      FitsStep(m, i, ps);
      GrantEffect(m, i, ps[0]);
      var m1 := Grant(m, i, ps[0]);
      RecipeChunks(m1, i, ps[1..]);
      var cs1, pair := m1.chunks, [Retarget(cs[i], n), cs[i + 1]];
      assert cs1 == cs[..i + 2] + pair + cs[i + 2..];
      assert cs1[i] == cs[i] && cs1[i + 1] == cs[i + 1];
      assert cs1[..i + 2] == cs[..i + 2] && cs1[i + 2..] == pair + cs[i + 2..];
      var later := Copies(cs[i], cs[i + 1], ps[1..], n + 1);
      assert cs[..i + 2] + later + (pair + cs[i + 2..]) == cs[..i + 2] + (later + pair) + cs[i + 2..];
    }
  }

  /** Nesting survives the whole recipe. */
  lemma {:induction false} RecipeNested(m: Manifest, i: nat, ps: seq<text>)
    requires Valid(m) && IsTemplate(m, i) && Fits(m, i, ps) && Nested(m)
    ensures var m' := GrantAll(m, i, ps); Valid(m') && Nested(m')
    decreases |ps|
  {
    hide U16, U32, Flatten, GrowPool, Strings, StartOk, PoolOk, Document, GrowthOf, DuplicateAt, Nest, Granting;
    if ps != [] {
      FitsStep(m, i, ps);
      GrantEffect(m, i, ps[0]);
      assert Added([ps[0]], LeafSize(m, i)) == GrowthOf(ps[0]) + LeafSize(m, i);
      AppendKeepsTemplate(m, i, ps[0]);
      AppendValid(m, ps[0]);
      DuplicateNested(AppendTo(m, ps[0]), i, Count(m.pool));
      RecipeNested(Grant(m, i, ps[0]), i, ps[1..]);
    }
  }

  // ---------------------------------------------------------------- the list of permissions

  /** A childless element with this name. */
  predicate LeafEvent(a: Event, b: Event, tag: text) {
    a.Start? && a.name == Some(tag) && b.End?
  }

  /** The permission a leaf names: the string its first attribute holds. */
  function Permission(e: Event): Option<text>
    requires e.Start?
  {
    if e.attrs == [] then None
    else if e.attrs[0].kind == TYPE_STRING then e.attrs[0].value
    else e.attrs[0].raw
  }

  /** The permissions of a document, in order. */
  function Permissions(es: seq<Event>, tag: text): seq<Option<text>> {
    if |es| < 2 then []
    else (if LeafEvent(es[0], es[1], tag) then [Permission(es[0])] else []) + Permissions(es[1..], tag)
  }

  lemma {:induction false} PermissionsConcat(a: seq<Event>, b: seq<Event>, tag: text)
    requires a == [] || !a[|a| - 1].Start? || b == [] || !b[0].End?
    ensures Permissions(a + b, tag) == Permissions(a, tag) + Permissions(b, tag)
  {
    if a == [] {
      assert a + b == b;
    } else {
      assert (a + b)[0] == a[0] && (a + b)[1..] == a[1..] + b;
      assert |a| > 1 ==> (a + b)[1] == a[1] && a[1..][|a| - 2] == a[|a| - 1];
      PermissionsConcat(a[1..], b, tag);
    }
  }

  lemma {:induction false} NoPermissions(es: seq<Event>, tag: text)
    requires forall k :: 0 <= k < |es| - 1 ==> !LeafEvent(es[k], es[k + 1], tag)
    ensures Permissions(es, tag) == []
  {
    if |es| >= 2 {
      assert !LeafEvent(es[0], es[0 + 1], tag);
      forall k | 0 <= k < |es[1..]| - 1
        ensures !LeafEvent(es[1..][k], es[1..][k + 1], tag)
      {
        assert !LeafEvent(es[k + 1], es[k + 1 + 1], tag);
      }
      NoPermissions(es[1..], tag);
    }
  }

  /** A chunk-level leaf is an event-level one. */
  lemma LeafEvents(m: Manifest, tag: text, k: nat)
    requires Valid(m) && AllOk(m.chunks, |Strings(m.pool)|) && k + 1 < |m.chunks|
    ensures IsLeaf(Strings(m.pool), m.chunks, k, tag)
       <==> LeafEvent(Document(m)[k], Document(m)[k + 1], tag)
  {
    hide U16, U32, RecordOk, Strings, Flatten, PoolOk;
    StringsCount(m.pool);
    assert ChunkOk(m.chunks[k], Count(m.pool)) && ChunkOk(m.chunks[k + 1], Count(m.pool));
  }

  function Somes(ps: seq<text>): seq<Option<text>> {
    if ps == [] then [] else Somes(ps[1..]) + [Some(ps[0])]
  }

  /** `Somes` is the reversed list. */
  lemma {:induction false} SomesReverses(ps: seq<text>, k: nat)
    requires k < |ps|
    ensures |Somes(ps)| == |ps| && Somes(ps)[k] == Some(ps[|ps| - 1 - k])
  {
    if |ps| > 1 {
      SomesReverses(ps[1..], if k < |ps| - 1 then k else 0);
    }
  }

  lemma {:induction false} GrantsPermissions(e: Event, end: Event, ps: seq<text>, n: nat, tag: text)
    requires LeafEvent(e, end, tag) && |e.attrs| == 1 && forall p <- ps :: Storable(p) && Bmp(p)
    ensures Permissions(Grants(e, end, ps, n), tag) == Somes(ps)
    ensures var g := Grants(e, end, ps, n); g == [] || !g[|g| - 1].Start?
    decreases |ps|
  {
    hide Decode, Encode;
    if ps != [] {
      var later, pair := Grants(e, end, ps[1..], n + 1), [Granting(e, Stored(ps[0]), n), end];
      GrantsPermissions(e, end, ps[1..], n + 1, tag);
      PermissionsConcat(later, pair, tag);
      ShortReadExact(ps[0]);
      PairPermissions(pair[0], end, tag);
    }
  }

  /**
   The recipe's promise. The permissions afterwards are the old first one, the new ones in reverse,
   then the other old ones.
   */
  lemma RecipePermissions(m: Manifest, tag: text, i: nat, ps: seq<text>)
    requires Valid(m) && IsFirstTemplate(m, tag, i) && Fits(m, i, ps)
    requires forall p <- ps :: Bmp(p)
    ensures var before := Permissions(Document(m), tag);
      && before != [] && Valid(GrantAll(m, i, ps))
      && Permissions(Document(GrantAll(m, i, ps)), tag) == [before[0]] + Somes(ps) + before[1..]
  {
    hide U16, U32, Strings, Flatten, PoolOk, Document, GrantAll, Granting, FirstLeaf, Added, Encodable, Bmp;
    hide IsTemplate, Permissions;
    var doc := Document(m);
    RecipeDocument(m, i, ps);
    FirstLeafIsFirst(Strings(m.pool), m.chunks, 0, tag);
    forall k | 0 <= k <= i
      ensures LeafEvent(doc[k], doc[k + 1], tag) <==> k == i
    {
      LeafEvents(m, tag, k);
    }
    SplitPermissions(doc, i, [], tag);
    GrantsPermissions(doc[i], doc[i + 1], ps, Count(m.pool), tag);
    SplitPermissions(doc, i, Grants(doc[i], doc[i + 1], ps, Count(m.pool)), tag);
    assert doc[..i + 2] + [] + doc[i + 2..] == doc;
    NoPermissions([], tag);
    assert Permissions(doc, tag)[1..] == Permissions(doc[i + 2..], tag);
  }

  lemma PairPermissions(a: Event, b: Event, tag: text)
    requires LeafEvent(a, b, tag)
    ensures Permissions([a, b], tag) == [Permission(a)]
  {
    hide Permission;
    assert [a, b][1..] == [b];
  }

  lemma SplitPermissions(doc: seq<Event>, i: nat, g: seq<Event>, tag: text)
    requires i + 1 < |doc| && LeafEvent(doc[i], doc[i + 1], tag)
    requires forall k :: 0 <= k < i ==> !LeafEvent(doc[k], doc[k + 1], tag)
    requires g == [] || !g[|g| - 1].Start?
    ensures Permissions(doc[..i + 2] + g + doc[i + 2..], tag)
         == [Permission(doc[i])] + Permissions(g, tag) + Permissions(doc[i + 2..], tag)
  {
    hide Permission, Permissions;
    var a, pair, b := doc[..i], [doc[i], doc[i + 1]], doc[i + 2..];
    NoPermissions(a, tag);
    PermissionsConcat(g, b, tag);
    PermissionsConcat(pair, g + b, tag);
    PermissionsConcat(a, pair + (g + b), tag);
    PairPermissions(doc[i], doc[i + 1], tag);
    assert doc[..i + 2] + g + b == a + (pair + (g + b));
  }
}

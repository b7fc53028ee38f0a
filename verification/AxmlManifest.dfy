/** The patcher's two growing edits on a whole file, and what each keeps. */
module AxmlManifest {
  import opened Wrappers
  import opened Bytes
  import opened Utf16
  import opened AxmlReader
  import opened AxmlFormat
  import opened AxmlLookup
  import opened AxmlEdits
  import opened AxmlElements

  /** A larger pool resolves everything a smaller one did. */
  lemma ChunkOkMonotone(c: Chunk, n: nat, n': nat)
    requires ChunkOk(c, n) && n <= n'
    ensures ChunkOk(c, n')
  {
    hide U16, U32, Rec;
    if U16(c, 0) == START_ELEMENT {
      forall i: nat | i < AttrCount(c)
        ensures RecordOk(c, Rec(c, i), n')
      {
        assert RecordOk(c, Rec(c, i), n);
      }
    }
  }

  function AppendTo(m: Manifest, v: text): Manifest
    requires PoolOk(m.pool) && Storable(v) && |m.pool| + GrowthOf(v) < TWO_32
  {
    m.(pool := GrowPool(m.pool, v))
  }

  /** Appending a string grows the pool and the file by the same amount and keeps the file well formed. */
  lemma AppendValid(m: Manifest, v: text)
    requires Valid(m) && Storable(v) && FileSize(m) + GrowthOf(v) < TWO_32
    ensures var m' := AppendTo(m, v);
      && Valid(m') && FileSize(m') == FileSize(m) + GrowthOf(v) && Count(m'.pool) == Count(m.pool) + 1
  {
    hide PoolOk, ChunkOk, Flatten, GrowPool, Strings;
    GrowStrings(m.pool, v);
    forall c | c in m.chunks
      ensures ChunkOk(c, Count(m.pool) + 1)
    {
      ChunkOkMonotone(c, Count(m.pool), Count(m.pool) + 1);
    }
  }

  /** An element that can be copied: a START chunk with one attribute, then an END chunk. */
  ghost predicate IsTemplate(m: Manifest, i: nat)
    requires Valid(m)
  {
    && i + 1 < |m.chunks|
    && ChunkShape(m.chunks[i]) && ChunkShape(m.chunks[i + 1])
    && U16(m.chunks[i], 0) == START_ELEMENT && U16(m.chunks[i + 1], 0) == END_ELEMENT
    && StartOk(m.chunks[i], Count(m.pool)) && AttrCount(m.chunks[i]) == 1
  }

  lemma TemplateRecord(m: Manifest, i: nat)
    requires Valid(m) && IsTemplate(m, i)
    ensures Rec(m.chunks[i], 0) + 20 <= |m.chunks[i]| && U16(m.chunks[i], 24) >= 20
    ensures ChunkOk(m.chunks[i], Count(m.pool)) && ChunkOk(m.chunks[i + 1], Count(m.pool))
  {
    hide U16, U32, Rec, PoolOk, Flatten;
    assert RecordOk(m.chunks[i], Rec(m.chunks[i], 0), Count(m.pool));
  }

  ghost function DuplicateAt(m: Manifest, i: nat, x: nat): Manifest
    requires Valid(m) && IsTemplate(m, i) && x < TWO_32
  {
    TemplateRecord(m, i);
    var cs := m.chunks;
    m.(chunks := cs[..i + 2] + [Retarget(cs[i], x), cs[i + 1]] + cs[i + 2..])
  }

  ghost function LeafSize(m: Manifest, i: nat): nat
    requires i + 1 < |m.chunks|
  {
    |m.chunks[i]| + |m.chunks[i + 1]|
  }

  lemma FlattenPair(a: Chunk, b: Chunk)
    ensures Flatten([a, b]) == a + b
  {
    assert [a, b][1..] == [b] && [b][1..] == [];
    assert Flatten([b]) == b + [];
  }

  lemma FlattenInserted(cs: seq<Chunk>, k: nat, a: Chunk, b: Chunk)
    requires k <= |cs|
    ensures Flatten(cs[..k] + [a, b] + cs[k..]) == Flatten(cs[..k]) + (a + b) + Flatten(cs[k..])
    ensures Flatten(cs) == Flatten(cs[..k]) + Flatten(cs[k..])
  {
    hide Flatten;
    FlattenPair(a, b);
    FlattenConcat(cs[..k] + [a, b], cs[k..]);
    FlattenConcat(cs[..k], [a, b]);
    FlattenConcat(cs[..k], cs[k..]);
    assert cs == cs[..k] + cs[k..];
  }

  /** Copying a leaf keeps the file well formed and grows it by the leaf. */
  lemma DuplicateValid(m: Manifest, i: nat, x: nat)
    requires Valid(m) && IsTemplate(m, i) && x < Count(m.pool)
    requires FileSize(m) + LeafSize(m, i) < TWO_32
    ensures var m' := DuplicateAt(m, i, x);
      && Valid(m') && FileSize(m') == FileSize(m) + LeafSize(m, i) && IsTemplate(m', i)
  {
    hide PoolOk, ChunkOk, StartOk, Flatten, Retarget, U16, U32;
    var cs, n := m.chunks, Count(m.pool);
    TemplateRecord(m, i);
    U32Bound(m.pool, 8);
    RetargetEffect(cs[i], x, n);
    FlattenInserted(cs, i + 2, Retarget(cs[i], x), cs[i + 1]);
    var cs' := DuplicateAt(m, i, x).chunks;
    assert cs'[i] == cs[i] && cs'[i + 1] == cs[i + 1];
    forall c | c in cs'
      ensures ChunkOk(c, n)
    {
      assert c in cs[..i + 2] || c == Retarget(cs[i], x) || c == cs[i + 1] || c in cs[i + 2..];
    }
  }

  /** A copy leaves the file well formed exactly when it is pointed at a string of the pool. */
  lemma DuplicateValidExact(m: Manifest, i: nat, x: nat)
    requires Valid(m) && IsTemplate(m, i) && x < NO_REF && FileSize(m) + LeafSize(m, i) < TWO_32
    ensures Valid(DuplicateAt(m, i, x)) <==> x < Count(m.pool)
  {
    hide PoolOk, Flatten, Retarget, U16, U32, Rec, ChunkShape;
    var c, n := m.chunks[i], Count(m.pool);
    TemplateRecord(m, i);
    RetargetResolves(c, x, n);
    if x < n {
      DuplicateValid(m, i, x);
    }
    assert DuplicateAt(m, i, x).chunks[i + 2] == Retarget(c, x);
  }

  // ---------------------------------------------------------------- nesting

  ghost predicate Named(cs: seq<Chunk>) {
    forall c <- cs :: |c| >= 8 && (Kind(c) == START_ELEMENT || Kind(c) == END_ELEMENT ==> |c| >= 24)
  }

  /** Open elements (innermost first) after reading `cs`; `None` when an END chunk does not match. */
  ghost function Nest(cs: seq<Chunk>, open: seq<nat>): Option<seq<nat>>
    requires Named(cs)
  {
    if cs == [] then Some(open)
    else if Kind(cs[0]) == START_ELEMENT then Nest(cs[1..], [U32(cs[0], 20)] + open)
    else if Kind(cs[0]) == END_ELEMENT then
      if open == [] || open[0] != U32(cs[0], 20) then None else Nest(cs[1..], open[1..])
    else Nest(cs[1..], open)
  }

  ghost predicate WellNested(cs: seq<Chunk>)
    requires Named(cs)
  {
    Nest(cs, []) == Some([])
  }

  /** Chunk `j` closes what chunk `i` opens: the first point at which nothing opened since is left open. */
  ghost predicate Closes(cs: seq<Chunk>, i: nat, j: nat)
    requires Named(cs) && i <= j < |cs|
  {
    && Nest(cs[i..j + 1], []) == Some([])
    && forall k :: i < k <= j ==> Nest(cs[i..k], []) != Some([])
  }

  lemma {:induction false} NestConcat(a: seq<Chunk>, b: seq<Chunk>, open: seq<nat>)
    requires Named(a) && Named(b)
    ensures Named(a + b)
    ensures Nest(a + b, open) == if Nest(a, open).None? then None else Nest(b, Nest(a, open).value)
  {
    hide U16, U32;
    if a == [] {
      assert a + b == b;
    } else {
      assert (a + b)[0] == a[0] && (a + b)[1..] == a[1..] + b;
      var open' :=
        if Kind(a[0]) == START_ELEMENT then [U32(a[0], 20)] + open
        else if Kind(a[0]) == END_ELEMENT && open != [] then open[1..]
        else open;
      NestConcat(a[1..], b, open');
    }
  }

  lemma ValidNamed(m: Manifest)
    requires Valid(m)
    ensures Named(m.chunks)
  {
    hide U16, U32, Flatten, PoolOk, RecordOk;
  }

  /** The chunks of a valid file that open and close elements do so in pairs. */
  ghost predicate Nested(m: Manifest)
    requires Valid(m)
  {
    ValidNamed(m);
    WellNested(m.chunks)
  }

  lemma NestPair(s: Chunk, e: Chunk, open: seq<nat>)
    requires |s| >= 24 && |e| >= 24 && Kind(s) == START_ELEMENT && Kind(e) == END_ELEMENT
    ensures Named([s, e]) && Named([s]) && Nest([s], open) == Some([U32(s, 20)] + open)
    ensures Nest([s, e], open) == if U32(s, 20) == U32(e, 20) then Some(open) else None
  {
    hide U16, U32;
    assert [s, e][1..] == [e] && ([U32(s, 20)] + open)[1..] == open;
    assert Nest([e], [U32(s, 20)] + open) == if U32(s, 20) == U32(e, 20) then Some(open) else None;
  }

  /** In a well-nested file the END chunk the search settles for is the matching one. */
  lemma LeafEndCloses(cs: seq<Chunk>, i: nat)
    requires Named(cs) && WellNested(cs) && i + 1 < |cs|
    requires Kind(cs[i]) == START_ELEMENT && Kind(cs[i + 1]) == END_ELEMENT
    ensures Closes(cs, i, i + 1) && U32(cs[i], 20) == U32(cs[i + 1], 20)
  {
    hide U16, U32, Nest;
    var s, e := cs[i], cs[i + 1];
    assert cs == cs[..i] + ([s, e] + cs[i + 2..]);
    NestConcat(cs[..i], [s, e] + cs[i + 2..], []);
    var open := Nest(cs[..i], []).value;
    NestConcat([s, e], cs[i + 2..], open);
    NestPair(s, e, open);
    NestPair(s, e, []);
    assert cs[i..i + 2] == [s, e] && cs[i..i + 1] == [s];
  }

  /** Copying a leaf of a well-nested file gives a well-nested file. */
  lemma DuplicateNested(m: Manifest, i: nat, x: nat)
    requires Valid(m) && IsTemplate(m, i) && x < Count(m.pool) && Nested(m)
    ensures var cs' := DuplicateAt(m, i, x).chunks; Named(cs') && WellNested(cs') && Closes(cs', i + 2, i + 3)
  {
    hide U16, U32, Nest, Retarget, StartOk;
    var cs := m.chunks;
    ValidNamed(m);
    TemplateRecord(m, i);
    U32Bound(m.pool, 8);
    RetargetEffect(cs[i], x, Count(m.pool));
    var s', e := Retarget(cs[i], x), cs[i + 1];
    LeafEndCloses(cs, i);
    NestConcat(cs[..i + 2], cs[i + 2..], []);
    assert cs == cs[..i + 2] + cs[i + 2..];
    var open := Nest(cs[..i + 2], []).value;
    NestPair(s', e, open);
    NestConcat(cs[..i + 2], [s', e], []);
    NestConcat(cs[..i + 2] + [s', e], cs[i + 2..], []);
    var cs' := cs[..i + 2] + [s', e] + cs[i + 2..];
    assert cs'[i + 2] == s' && cs'[i + 3] == e;
    LeafEndCloses(cs', i + 2);
  }
}

/**
 Finding and rewriting the two functions of `ipsecd` that go through the property service: the scan for
 calls, the walk back to the prologues, telling getter from setter, and the two edits.
 */
module IpsecdPatch {
  import opened Wrappers
  import opened Bytes
  import opened A64
  import opened PltLayout
  import opened ElfSections
  import opened Sequences

  datatype PatchError =
    | NotElf | MissingSection | MissingImports | BadRead | WrongCallCount | NoPrologue | SameFunction | NoGetter

  datatype Outcome = Outcome(data: seq<byte>, getter: nat, setter: nat)

  const SCAN_LIMIT := 0x800

  // ---------------------------------------------------------------- what is looked for

  /** Offsets the scan visits: every fourth byte of `.text`. */
  predicate OnGrid(text: Section, o: nat) {
    text.off <= o < text.off + text.size && (o - text.off) % 4 == 0
  }

  /** Every word the scan visits lies inside the file. */
  predicate Readable(d: seq<byte>, text: Section) {
    forall o: nat | o < text.off + text.size :: OnGrid(text, o) ==> o + 4 <= |d|
  }

  predicate CallAt(d: seq<byte>, text: Section, o: nat, target: int) {
    o + 4 <= |d| && IsBl(U32(d, o)) && Target(Va(text, o), U32(d, o)) == target
  }

  predicate PrologueAt(d: seq<byte>, o: nat) {
    o + 4 <= |d| && d[o..o + 4] == PACIASP
  }

  /** The last prologue before `o`. */
  ghost predicate Nearest(d: seq<byte>, text: Section, o: nat, p: nat) {
    && OnGrid(text, p) && p < o && PrologueAt(d, p)
    && forall q: nat :: OnGrid(text, q) && p < q < o ==> !PrologueAt(d, q)
  }

  /** A call to one of `marks` before the next prologue and before the scan limit. */
  ghost predicate MarkedAt(d: seq<byte>, text: Section, marks: set<int>, fn: nat, o: nat) {
    && fn <= o < fn + SCAN_LIMIT && OnGrid(text, o)
    && (exists m :: m in marks && CallAt(d, text, o, m))
    && forall q: nat :: OnGrid(text, q) && fn < q <= o ==> !PrologueAt(d, q)
  }

  ghost predicate GetterFn(d: seq<byte>, text: Section, marks: set<int>, fn: nat) {
    exists o: nat :: MarkedAt(d, text, marks, fn, o)
  }

  /** The shape the patcher insists on, with the two functions it picks. */
  ghost predicate Plan(d: seq<byte>, text: Section, svc: int, marks: set<int>, getter: nat, setter: nat) {
    && getter != setter && GetterFn(d, text, marks, getter)
    && exists cg: nat, cs: nat ::
         TwoCalls(d, text, svc, cg, cs) && Nearest(d, text, cg, getter) && Nearest(d, text, cs, setter)
  }

  /** `a` and `b` are the only calls to `svc`. */
  ghost predicate TwoCalls(d: seq<byte>, text: Section, svc: int, a: nat, b: nat) {
    && a != b
    && forall o: nat :: OnGrid(text, o) && CallAt(d, text, o, svc) <==> o == a || o == b
  }

  /** `bl` over `k` words: 100101 and the distance in 26 bits. */
  ghost function BlWord(k: int): int {
    0x9400_0000 + if k < 0 then k + 0x400_0000 else k
  }

  /** A call is a `bl` whose signed distance in words leads from where it is loaded to the target. */
  lemma CallExact(d: seq<byte>, text: Section, o: nat, target: int)
    ensures CallAt(d, text, o, target) <==>
      o + 4 <= |d| && exists k: int ::
        -0x200_0000 <= k < 0x200_0000 && U32(d, o) == BlWord(k) && text.addr + (o - text.off) + 4 * k == target
  {
    hide U32, BlWord, IsBl, Distance;
    if o + 4 <= |d| {
      var w := U32(d, o);
      U32Bound(d, o);
      BlExact(w);
      if CallAt(d, text, o, target) {
        assert w == BlWord(Distance(w));
      }
    }
  }

  lemma BlExact(w: nat)
    requires w < TWO_32
    ensures forall k: int :: -0x200_0000 <= k < 0x200_0000 ==> (w == BlWord(k) <==> IsBl(w) && Distance(w) == k)
    ensures -0x200_0000 <= Distance(w) < 0x200_0000
  {
    forall k: int | -0x200_0000 <= k < 0x200_0000
      ensures w == BlWord(k) <==> IsBl(w) && Distance(w) == k
    {
      BlDistance(w, k);
    }
    BlDistance(w, 0);
  }

  lemma BlDistance(w: nat, k: int)
    requires w < TWO_32 && -0x200_0000 <= k < 0x200_0000
    ensures w == BlWord(k) <==> IsBl(w) && Distance(w) == k
    ensures -0x200_0000 <= Distance(w) < 0x200_0000
  {
    var q, r := w / 0x400_0000, w % 0x400_0000;
    assert w == q * 0x400_0000 + r && 0 <= r < 0x400_0000;
    assert r / 0x200_0000 == if r >= 0x200_0000 then 1 else 0;
  }

  /** `paciasp`, byte by byte. */
  lemma PrologueExact(d: seq<byte>, o: nat)
    ensures PrologueAt(d, o) <==>
      o + 4 <= |d| && d[o] == 0x3F && d[o + 1] == 0x23 && d[o + 2] == 0x03 && d[o + 3] == 0xD5
  {
    if o + 4 <= |d| {
      assert d[o..o + 4] == [d[o], d[o + 1], d[o + 2], d[o + 3]];
    }
  }

  /** The scan reads four bytes at every fourth byte of `.text`. */
  lemma ReadableExact(d: seq<byte>, text: Section)
    ensures Readable(d, text) <==> forall k: nat :: 4 * k < text.size ==> text.off + 4 * k + 4 <= |d|
  {
    forall k: nat | 4 * k < text.size
      ensures OnGrid(text, text.off + 4 * k)
    {
    }
    forall o: nat | OnGrid(text, o)
      ensures o == text.off + 4 * ((o - text.off) / 4) && 4 * ((o - text.off) / 4) < text.size
    {
    }
    if Readable(d, text) {
      forall k: nat | 4 * k < text.size
        ensures text.off + 4 * k + 4 <= |d|
      {
        assert OnGrid(text, text.off + 4 * k);
      }
    }
  }

  /** A getter calls a marker before its next prologue and within 2048 bytes, or `.text` ends first. */
  lemma GetterFnExact(d: seq<byte>, text: Section, marks: set<int>, fn: nat)
    ensures GetterFn(d, text, marks, fn) <==>
      exists o: nat, m: int :: m in marks && CallAt(d, text, o, m)
        && fn <= o < fn + 2048 && text.off <= o < text.off + text.size && (o - text.off) % 4 == 0
        && !(exists q: nat :: fn < q <= o && text.off <= q && (q - text.off) % 4 == 0 && PrologueAt(d, q))
  {
    hide CallAt, PrologueAt;
    forall o: nat, m: int | m in marks && CallAt(d, text, o, m)
        && fn <= o < fn + 2048 && text.off <= o < text.off + text.size && (o - text.off) % 4 == 0
        && !(exists q: nat :: fn < q <= o && text.off <= q && (q - text.off) % 4 == 0 && PrologueAt(d, q))
      ensures MarkedAt(d, text, marks, fn, o)
    {
    }
    forall o: nat | MarkedAt(d, text, marks, fn, o)
      ensures !(exists q: nat :: fn < q <= o && text.off <= q && (q - text.off) % 4 == 0 && PrologueAt(d, q))
    {
      forall q: nat | fn < q <= o && text.off <= q && (q - text.off) % 4 == 0
        ensures !PrologueAt(d, q)
      {
        assert OnGrid(text, q);
      }
    }
  }

  lemma CallIsNoPrologue(d: seq<byte>, text: Section, o: nat, target: int)
    requires CallAt(d, text, o, target)
    ensures !PrologueAt(d, o)
  {
    hide U16, U32, Target;
    if PrologueAt(d, o) {
      FixedWords();
      SameRead(d, o, PACIASP, 0, 4, 0);
    }
  }

  lemma NearestUnique(d: seq<byte>, text: Section, o: nat, p: nat, p': nat)
    requires Nearest(d, text, o, p) && Nearest(d, text, o, p')
    ensures p == p'
  {
    hide PrologueAt;
  }

  // ---------------------------------------------------------------- the loops

  /** The offsets of exactly the words of `.text` that call `target`, in increasing order. */
  method FindCalls(d: seq<byte>, text: Section, target: int) returns (r: Result<seq<nat>, PatchError>)
    ensures r.Ok? <==> Readable(d, text)
    ensures r.Err? ==> r.error == BadRead
    ensures r.Ok? ==>
      && (forall o: nat :: o in r.value <==> OnGrid(text, o) && CallAt(d, text, o, target))
      && forall i, j :: 0 <= i < j < |r.value| ==> r.value[i] < r.value[j]
  {
    hide U16, U32, IsBl, Distance;
    var calls: seq<nat>, o := [], text.off;
    while o < text.off + text.size
      invariant text.off <= o && (o - text.off) % 4 == 0
      invariant forall q: nat :: OnGrid(text, q) && q < o ==> q + 4 <= |d|
      invariant forall q: nat :: q in calls <==> OnGrid(text, q) && q < o && CallAt(d, text, q, target)
      invariant forall i, j :: 0 <= i < j < |calls| ==> calls[i] < calls[j]
      decreases text.off + text.size - o
    {
      if o + 4 > |d| {
        assert OnGrid(text, o);
        return Err(BadRead);
      }
      var w := U32(d, o);
      if IsBl(w) {
        var va := text.addr + (o - text.off) + 4 * Distance(w);
        if va == target {
          assert forall k :: 0 <= k < |calls| ==> calls[k] in calls;
          calls := calls + [o];
        }
      }
      GridStep(text, o);
      o := o + 4;
    }
    return Ok(calls);
  }

  lemma GridStep(text: Section, o: nat)
    requires text.off <= o && (o - text.off) % 4 == 0
    ensures forall q: nat :: OnGrid(text, q) && q < o + 4 ==> q < o || q == o
  {
  }

  /** The nearest prologue before `o`, if there is one. */
  method PrologueBefore(d: seq<byte>, text: Section, o: nat) returns (r: Result<nat, PatchError>)
    requires OnGrid(text, o)
    ensures r.Ok? ==> Nearest(d, text, o, r.value)
    ensures r.Err? ==> r.error == NoPrologue && forall q: nat :: OnGrid(text, q) && q < o ==> !PrologueAt(d, q)
  {
    hide PrologueAt;
    var p := o;
    while p > text.off
      invariant text.off <= p <= o && (p - text.off) % 4 == 0
      invariant forall q: nat :: OnGrid(text, q) && p <= q < o ==> !PrologueAt(d, q)
    {
      p := p - 4;
      GridStep(text, p);
      if PrologueHere(d, p) {
        return Ok(p);
      }
    }
    return Err(NoPrologue);
  }

  /** `data[p:p + 4] == PACIASP`, with the slice clamped at the end of the file. */
  function PrologueHere(d: seq<byte>, p: nat): (b: bool)
    ensures b <==> PrologueAt(d, p)
  {
    Slice(d, p, p + 4) == PACIASP
  }

  /** Whether the function at `fn` calls a marker before it ends. */
  method IsGetter(d: seq<byte>, text: Section, marks: set<int>, fn: nat) returns (b: bool)
    requires OnGrid(text, fn) && Readable(d, text)
    ensures b <==> GetterFn(d, text, marks, fn)
  {
    hide U16, U32, IsBl, Distance, PrologueAt;
    var end := if fn + SCAN_LIMIT < text.off + text.size then fn + SCAN_LIMIT else text.off + text.size;
    var o := fn;
    while o < end
      invariant fn <= o && (o - text.off) % 4 == 0
      invariant forall q: nat :: OnGrid(text, q) && fn < q < o ==> !PrologueAt(d, q)
      invariant forall q: nat :: q < o ==> !MarkedAt(d, text, marks, fn, q)
      decreases end - o
    {
      GridStep(text, o);
      assert OnGrid(text, o);
      if o != fn && PrologueHere(d, o) {
        assert forall q: nat :: o <= q ==> !MarkedAt(d, text, marks, fn, q);
        return false;
      }
      var w := U32(d, o);
      if IsBl(w) && text.addr + (o - text.off) + 4 * Distance(w) in marks {
        assert CallAt(d, text, o, text.addr + (o - text.off) + 4 * Distance(w));
        assert MarkedAt(d, text, marks, fn, o);
        return true;
      }
      assert forall q: nat :: MarkedAt(d, text, marks, fn, q) && q < o + 4 ==> OnGrid(text, q);
      o := o + 4;
    }
    assert forall q: nat :: MarkedAt(d, text, marks, fn, q) ==> OnGrid(text, q) && q < end;
    return false;
  }

  // ---------------------------------------------------------------- what a plan implies

  /** No prologue lies between a marked call and its function, and no call is a prologue. */
  lemma MarkBeforeNext(d: seq<byte>, text: Section, marks: set<int>, fn: nat, o: nat, next: nat)
    requires MarkedAt(d, text, marks, fn, o) && OnGrid(text, next) && PrologueAt(d, next) && fn < next
    ensures o < next
  {
    hide PrologueAt, CallAt;
  }

  /** Calls and the distinct prologues found for them alternate. */
  lemma CallsSeparated(d: seq<byte>, text: Section, svc: int, c1: nat, c2: nat, p1: nat, p2: nat)
    requires c1 < c2 && OnGrid(text, c1) && OnGrid(text, c2)
    requires CallAt(d, text, c1, svc) && CallAt(d, text, c2, svc)
    requires Nearest(d, text, c1, p1) && Nearest(d, text, c2, p2) && p1 != p2
    ensures p1 < c1 < p2 < c2
  {
    CallIsNoPrologue(d, text, c1, svc);
    hide PrologueAt, CallAt;
  }

  lemma GridGap(text: Section, a: nat, b: nat)
    requires OnGrid(text, a) && OnGrid(text, b) && a < b
    ensures a + 4 <= b && (b - a) % 4 == 0
  {
  }

  /** The calls and the marked call behind a plan, none of them a prologue. */
  lemma PlanParts(d: seq<byte>, text: Section, svc: int, marks: set<int>, getter: nat, setter: nat)
      returns (cg: nat, cs: nat, o: nat, m: int)
    requires Plan(d, text, svc, marks, getter, setter)
    ensures TwoCalls(d, text, svc, cg, cs) && Nearest(d, text, cg, getter) && Nearest(d, text, cs, setter)
    ensures MarkedAt(d, text, marks, getter, o) && m in marks && CallAt(d, text, o, m)
    ensures OnGrid(text, cg) && OnGrid(text, cs) && OnGrid(text, o) && getter < cg && setter < cs && getter < o
    ensures CallAt(d, text, cg, svc) && CallAt(d, text, cs, svc)
    ensures OnGrid(text, getter) && OnGrid(text, setter) && PrologueAt(d, getter) && PrologueAt(d, setter)
    ensures !PrologueAt(d, cg) && !PrologueAt(d, o) && getter != setter
  {
    hide U16, U32, IsBl, Target, PrologueAt, OnGrid, CallAt;
    cg, cs :| TwoCalls(d, text, svc, cg, cs) && Nearest(d, text, cg, getter) && Nearest(d, text, cs, setter);
    o :| MarkedAt(d, text, marks, getter, o);
    m :| m in marks && CallAt(d, text, o, m);
    assert OnGrid(text, cg) && CallAt(d, text, cg, svc) && OnGrid(text, cs) && CallAt(d, text, cs, svc);
    CallIsNoPrologue(d, text, o, m);
    CallIsNoPrologue(d, text, cg, svc);
  }

  lemma CallTargets(d: seq<byte>, text: Section, a: nat, m: int, b: nat, m': int)
    requires CallAt(d, text, a, m) && CallAt(d, text, b, m') && m != m'
    ensures a != b
  {
    hide U32, Target;
  }

  /** The function at `g` is `paciasp; bl svc`, and the `paciasp` behind it is the nearest before another `bl svc`. */
  ghost predicate Collides(d: seq<byte>, text: Section, svc: int, g: nat) {
    && OnGrid(text, g + 4) && CallAt(d, text, g + 4, svc)
    && exists c: nat :: OnGrid(text, c) && CallAt(d, text, c, svc) && Nearest(d, text, c, g + 8)
  }

  predicate Apart(getter: nat, setter: nat) {
    setter + 4 <= getter || getter + 12 <= setter
  }

  /**
   The patcher checks neither that its two edits are apart nor that they fit `.text`. They overlap exactly
   when the setter is the third word of the getter; the words say so; and the stub is then a marker.
   */
  lemma EditsApart(d: seq<byte>, text: Section, svc: int, marks: set<int>, getter: nat, setter: nat)
    requires Plan(d, text, svc, marks, getter, setter)
    ensures Apart(getter, setter) <==> setter != getter + 8
    ensures setter == getter + 8 <==> Collides(d, text, svc, getter)
    ensures Collides(d, text, svc, getter) ==> svc in marks
  {
    hide U16, U32, IsBl, Target, PrologueAt, OnGrid, CallAt, Plan, GetterFn;
    var cg, cs, o, m := PlanParts(d, text, svc, marks, getter, setter);
    GridGap(text, getter, cg);
    GridGap(text, getter, o);
    if getter < setter {
      GridGap(text, getter, setter);
      assert cg < setter;
    } else {
      GridGap(text, setter, getter);
    }
    if setter == getter + 8 {
      GridGap(text, cg, setter);
      assert cg == getter + 4;
      assert Collides(d, text, svc, getter);
    }
    if Collides(d, text, svc, getter) {
      var c: nat :| OnGrid(text, c) && CallAt(d, text, c, svc) && Nearest(d, text, c, getter + 8);
      assert getter + 4 == cg || getter + 4 == cs;
      NearestUnique(d, text, cs, setter, getter + 8);
      MarkBeforeNext(d, text, marks, getter, o, getter + 8);
      GridGap(text, o, getter + 8);
      assert o == getter + 4;
      if m != svc {
        CallTargets(d, text, o, m, getter + 4, svc);
      }
    }
  }

  /** The setter's edit is always inside `.text`; the getter's is exactly when it has three words before the end. */
  lemma EditsInside(d: seq<byte>, text: Section, svc: int, marks: set<int>, getter: nat, setter: nat)
    requires Readable(d, text) && Plan(d, text, svc, marks, getter, setter)
    ensures InText(text, setter, 4, |d|) && getter + 4 <= |d|
    ensures InText(text, getter, 12, |d|) <==> getter + 12 <= text.off + text.size
    ensures svc !in marks ==> getter + 8 < text.off + text.size
    ensures svc !in marks && text.size % 4 == 0 ==> getter + 12 <= text.off + text.size
  {
    hide Plan, U16, U32, PrologueAt, CallAt, OnGrid, InText, TwoCalls;
    var cg, cs, o, m := PlanParts(d, text, svc, marks, getter, setter);
    WordsInside(d, text, setter, 1, cs);
    GridGap(text, setter, cs);
    WordsInside(d, text, getter, 3, cg);
    if svc !in marks {
      CallTargets(d, text, cg, svc, o, m);
      GridGap(text, getter, cg);
      GridGap(text, getter, o);
      if cg < o {
        GridGap(text, cg, o);
        WordsInside(d, text, o, 1, o);
      } else {
        GridGap(text, o, cg);
        WordsInside(d, text, cg, 1, cg);
      }
    }
  }

  /** A run of words that starts on the grid is inside `.text` when it ends there. */
  lemma WordsInside(d: seq<byte>, text: Section, p: nat, n: nat, c: nat)
    requires Readable(d, text) && OnGrid(text, p) && OnGrid(text, c) && 1 <= n
    ensures c < text.off + text.size && (text.size % 4 == 0 ==> c + 4 <= text.off + text.size) && p + 4 <= |d|
    ensures InText(text, p, 4 * n, |d|) <==> p + 4 * n <= text.off + text.size
  {
    if p + 4 * n <= text.off + text.size {
      assert OnGrid(text, p + 4 * (n - 1));
    }
  }

  /** The getter's three words reach no other function, exactly when no prologue is its third word. */
  lemma EditStaysInFunction(d: seq<byte>, text: Section, svc: int, marks: set<int>, getter: nat, setter: nat)
    requires Plan(d, text, svc, marks, getter, setter)
    ensures (forall q: nat :: OnGrid(text, q) && getter < q < getter + 12 ==> !PrologueAt(d, q))
         <==> !(OnGrid(text, getter + 8) && PrologueAt(d, getter + 8))
    ensures svc !in marks ==> !(OnGrid(text, getter + 8) && PrologueAt(d, getter + 8))
  {
    hide U16, U32, IsBl, Target, PrologueAt, CallAt, Plan, GetterFn;
    var cg, cs, o, m := PlanParts(d, text, svc, marks, getter, setter);
    forall q: nat | OnGrid(text, q) && getter < q < getter + 12 && PrologueAt(d, q)
      ensures q == getter + 8
    {
      GridGap(text, getter, cg);
      assert q != getter + 4 || cg != q;
    }
    if svc !in marks {
      CallTargets(d, text, cg, svc, o, m);
    }
  }

  // ---------------------------------------------------------------- which files are safe to patch

  /** A getter-like function that starts less than three words before the end of `.text`. */
  ghost predicate Overhangs(d: seq<byte>, text: Section, svc: int, marks: set<int>, g: nat) {
    && g + 12 > text.off + text.size && GetterFn(d, text, marks, g)
    && exists c: nat :: OnGrid(text, c) && CallAt(d, text, c, svc) && Nearest(d, text, c, g)
  }

  ghost predicate Hazard(d: seq<byte>, text: Section, svc: int, marks: set<int>, g: nat) {
    || (svc in marks && OnGrid(text, g) && PrologueAt(d, g) && Collides(d, text, svc, g))
    || Overhangs(d, text, svc, marks, g)
  }

  /** A prologue, a call, another prologue and another call make a plan of the two, if the first looks like a getter. */
  lemma PlanOf(d: seq<byte>, text: Section, svc: int, marks: set<int>, g0: nat, s0: nat, c: nat, g: nat)
      returns (s: nat)
    requires Plan(d, text, svc, marks, g0, s0) && GetterFn(d, text, marks, g)
    requires OnGrid(text, c) && CallAt(d, text, c, svc) && Nearest(d, text, c, g)
    ensures Plan(d, text, svc, marks, g, s)
  {
    hide U16, U32, IsBl, Target, PrologueAt, OnGrid, CallAt, GetterFn, Nearest;
    var a: nat, b: nat :| TwoCalls(d, text, svc, a, b) && Nearest(d, text, a, g0) && Nearest(d, text, b, s0);
    if c == a {
      NearestUnique(d, text, c, g, g0);
      s := s0;
    } else {
      NearestUnique(d, text, c, g, s0);
      s := g0;
      assert TwoCalls(d, text, svc, b, a);
    }
  }

  /** A colliding function whose stub is a marker is itself a getter, and the patcher may choose it. */
  lemma CollisionIsPlan(d: seq<byte>, text: Section, svc: int, marks: set<int>, g0: nat, s0: nat, g: nat)
      returns (s: nat)
    requires Plan(d, text, svc, marks, g0, s0)
    requires svc in marks && OnGrid(text, g) && PrologueAt(d, g) && Collides(d, text, svc, g)
    ensures Plan(d, text, svc, marks, g, s)
  {
    hide U16, U32, IsBl, Target, PrologueAt, CallAt, Plan;
    CallIsNoPrologue(d, text, g + 4, svc);
    assert forall q: nat :: OnGrid(text, q) && g < q <= g + 4 ==> q == g + 4;
    assert Nearest(d, text, g + 4, g);
    assert MarkedAt(d, text, marks, g, g + 4);
    s := PlanOf(d, text, svc, marks, g0, s0, g + 4, g);
  }

  ghost predicate Clean(text: Section, g: nat, s: nat, length: nat) {
    Apart(g, s) && InText(text, g, 12, length) && InText(text, s, 4, length)
  }

  lemma CleanPlan(d: seq<byte>, text: Section, svc: int, marks: set<int>, g: nat, s: nat)
    requires Readable(d, text) && Plan(d, text, svc, marks, g, s)
    ensures Clean(text, g, s, |d|) <==> !Hazard(d, text, svc, marks, g)
  {
    hide PrologueAt, CallAt, Collides, InText, Apart, Readable, GetterFn, TwoCalls;
    EditsApart(d, text, svc, marks, g, s);
    EditsInside(d, text, svc, marks, g, s);
    var cg, cs, o, m := PlanParts(d, text, svc, marks, g, s);
  }

  lemma HazardPlan(d: seq<byte>, text: Section, svc: int, marks: set<int>, g0: nat, s0: nat, g: nat)
      returns (s: nat)
    requires Plan(d, text, svc, marks, g0, s0) && Hazard(d, text, svc, marks, g)
    ensures Plan(d, text, svc, marks, g, s)
  {
    hide Plan, PrologueAt, CallAt, Collides, GetterFn, Nearest;
    if Overhangs(d, text, svc, marks, g) {
      var c: nat :| OnGrid(text, c) && CallAt(d, text, c, svc) && Nearest(d, text, c, g);
      s := PlanOf(d, text, svc, marks, g0, s0, c, g);
    } else {
      s := CollisionIsPlan(d, text, svc, marks, g0, s0, g);
    }
  }

  /**
   For a file that can be patched at all: whichever getter is chosen, the edits are apart and inside
   `.text`, exactly when no function of the file is a hazard.
   */
  lemma SafeExact(d: seq<byte>, text: Section, svc: int, marks: set<int>)
    requires Readable(d, text) && exists g: nat, s: nat :: Plan(d, text, svc, marks, g, s)
    ensures (forall g: nat, s: nat :: Plan(d, text, svc, marks, g, s) ==> Clean(text, g, s, |d|))
         <==> forall g: nat :: !Hazard(d, text, svc, marks, g)
  {
    hide Plan, Hazard, Clean, Readable;
    var g0: nat, s0: nat :| Plan(d, text, svc, marks, g0, s0);
    forall g: nat, s: nat | Plan(d, text, svc, marks, g, s)
      ensures Clean(text, g, s, |d|) <==> !Hazard(d, text, svc, marks, g)
    {
      CleanPlan(d, text, svc, marks, g, s);
    }
    forall g: nat | Hazard(d, text, svc, marks, g)
      ensures exists s: nat :: Plan(d, text, svc, marks, g, s)
    {
      var s := HazardPlan(d, text, svc, marks, g0, s0, g);
    }
  }

  /** When only one of the two functions looks like a getter, the plan does not depend on which is tried first. */
  lemma PlanUnique(d: seq<byte>, text: Section, svc: int, marks: set<int>, g: nat, s: nat, g': nat, s': nat)
    requires Plan(d, text, svc, marks, g, s) && Plan(d, text, svc, marks, g', s')
    requires !GetterFn(d, text, marks, s)
    ensures g' == g && s' == s
  {
    hide U16, U32, IsBl, Target, CallAt, PrologueAt, GetterFn;
    var cg: nat, cs: nat :| TwoCalls(d, text, svc, cg, cs) && Nearest(d, text, cg, g) && Nearest(d, text, cs, s);
    var cg': nat, cs': nat :|
      TwoCalls(d, text, svc, cg', cs') && Nearest(d, text, cg', g') && Nearest(d, text, cs', s');
    SamePair(d, text, svc, cg, cs, cg', cs');
    if cg' == cg {
      NearestUnique(d, text, cg, g, g');
      NearestUnique(d, text, cs, s, s');
    } else {
      NearestUnique(d, text, cs, s, g');
    }
  }

  lemma SamePair(d: seq<byte>, text: Section, svc: int, a: nat, b: nat, a': nat, b': nat)
    requires TwoCalls(d, text, svc, a, b) && TwoCalls(d, text, svc, a', b')
    ensures (a' == a && b' == b) || (a' == b && b' == a)
  {
    hide OnGrid, CallAt;
    assert OnGrid(text, a) && CallAt(d, text, a, svc);
    assert OnGrid(text, b) && CallAt(d, text, b, svc);
    assert OnGrid(text, a') && CallAt(d, text, a', svc);
    assert OnGrid(text, b') && CallAt(d, text, b', svc);
  }

  // ---------------------------------------------------------------- the edits

  /** The getter's three new words. */
  function GetterCode(text: Section, getter: nat, pget: int): (c: seq<byte>)
    ensures |c| == 12
  {
    MOV_X0_X2 + MOV_X2_XZR + Le32(EncodeB(Va(text, getter + 8), pget))
  }

  function Edited(d: seq<byte>, text: Section, pget: int, getter: nat, setter: nat): seq<byte>
    requires getter <= |d| && setter <= |d|
  {
    Assign(Assign(d, setter, RET), getter, GetterCode(text, getter, pget))
  }

  /** Equal length, the two edits in place, and every byte outside them as before. */
  lemma EditedFrame(d: seq<byte>, text: Section, pget: int, getter: nat, setter: nat)
    requires Apart(getter, setter) && getter + 12 <= |d| && setter + 4 <= |d|
    ensures var e := Edited(d, text, pget, getter, setter);
      && |e| == |d| && e[setter..setter + 4] == RET
      && e[getter..getter + 12] == GetterCode(text, getter, pget)
      && forall i :: 0 <= i < |d| && !(setter <= i < setter + 4) && !(getter <= i < getter + 12) ==> e[i] == d[i]
  {
    hide GetterCode;
    var code := GetterCode(text, getter, pget);
    var d1 := Assign(d, setter, RET);
    var e := Assign(d1, getter, code);
    assert forall i :: 0 <= i < |d| && !(setter <= i < setter + 4) ==> d1[i] == d[i];
    assert forall i :: 0 <= i < |d| && !(getter <= i < getter + 12) ==> e[i] == d1[i];
    assert d1[setter..setter + 4] == RET;
    assert forall i :: setter <= i < setter + 4 ==> e[i] == d1[i] == d1[setter..setter + 4][i - setter];
  }

  /** What goes wrong otherwise: a colliding setter does not return, an overhanging getter makes the file longer. */
  lemma EditedExact(d: seq<byte>, text: Section, svc: int, marks: set<int>, pget: int, getter: nat, setter: nat)
    requires Plan(d, text, svc, marks, getter, setter) && getter <= |d| && setter + 4 <= |d|
    ensures var e := Edited(d, text, pget, getter, setter);
      && (|e| == |d| <==> getter + 12 <= |d|)
      && |e| >= setter + 4
      && (e[setter..setter + 4] == RET <==> setter != getter + 8)
  {
    hide Plan, GetterCode, Assign, EncodeB, Collides;
    EditsApart(d, text, svc, marks, getter, setter);
    var code := GetterCode(text, getter, pget);
    var d1 := Assign(d, setter, RET);
    EditLengths(d, setter, RET);
    EditLengths(d1, getter, code);
    if setter == getter + 8 {
      BranchCode(text, getter, pget);
      AssignSlices(d1, getter, code);
      var e := Edited(d, text, pget, getter, setter);
      SliceOfSlice(e, getter, getter + 12, 8, 12);
      assert e[setter..setter + 4] == code[8..12];
    } else if getter + 12 <= |d| {
      EditedFrame(d, text, pget, getter, setter);
    } else {
      AssignSlices(d, setter, RET);
      AssignSlices(d1, getter, code);
      SliceOfSlice(Edited(d, text, pget, getter, setter), 0, getter, setter, setter + 4);
      SliceOfSlice(d1, 0, getter, setter, setter + 4);
    }
  }

  lemma EditLengths(d: seq<byte>, o: nat, s: seq<byte>)
    requires o <= |d|
    ensures |Assign(d, o, s)| == if o + |s| <= |d| then |d| else o + |s|
  {
  }

  /** The getter's third word is not a return. */
  lemma BranchCode(text: Section, getter: nat, pget: int)
    ensures GetterCode(text, getter, pget)[8..12] != RET
  {
    hide EncodeB, Opcode;
    var w := EncodeB(Va(text, getter + 8), pget);
    BranchRoundTrip(Va(text, getter + 8), pget);
    FixedWords();
    RetOpcode();
    assert GetterCode(text, getter, pget)[8..12] == Le32(w) && U32(Le32(w), 0) == w;
  }

  lemma RetOpcode()
    ensures Opcode(0xD65F_03C0) != OP_B
  {
  }

  /**
   The patched program. Every call of the setter returns at once with nothing changed; every call of the
   getter arrives at `property_get` with the key first and no default, the rest unchanged.
   */
  lemma PatchedRuns(
      d: seq<byte>, text: Section, svc: int, marks: set<int>, pget: int, getter: nat, setter: nat, s: State)
    requires Readable(d, text) && Plan(d, text, svc, marks, getter, setter) && |s.x| == 31
    requires setter != getter + 8 && getter + 12 <= text.off + text.size
    ensures getter <= |d| && setter <= |d|
    ensures var e := Edited(d, text, pget, getter, setter);
      && (s.pc == Va(text, setter) ==> Step(e, text, s) == Some(s.(pc := s.x[30] as int)))
      && (s.pc == Va(text, getter) && InRange(Va(text, getter + 8), pget) ==>
            Run(e, text, s, 3) == Some(s.(pc := pget, x := s.x[0 := s.x[2]][2 := 0])))
  {
    hide U16, U32, Plan, Readable, Step, Run, InRange, EncodeB, Le32, Edited, Collides;
    EditsApart(d, text, svc, marks, getter, setter);
    EditsInside(d, text, svc, marks, getter, setter);
    EditedFrame(d, text, pget, getter, setter);
    var e := Edited(d, text, pget, getter, setter);
    if s.pc == Va(text, setter) {
      SetterRuns(e, text, setter, s);
    }
    if s.pc == Va(text, getter) && InRange(Va(text, getter + 8), pget) {
      GetterRuns(e, text, getter, pget, s);
    }
  }

  // ---------------------------------------------------------------- imports

  predicate IsService(n: Name) {
    Contains(n, Ascii("IProperty")) && Contains(n, Ascii("getService"))
  }

  predicate IsMark(n: Name) {
    n == Ascii("property_get") || Contains(n, Ascii("hidl_string5c_strEv"))
  }

  datatype Imports = Imports(svc: int, pget: int, marks: set<int>)

  /** A dictionary keeps the order in which its keys first came, so this is its first service name. */
  function FirstService(names: seq<Name>): (r: Option<Name>)
    ensures r.Some? ==> r.value in names && IsService(r.value)
    ensures r.None? ==> forall n <- names :: !IsService(n)
  {
    if names == [] then None else if IsService(names[0]) then Some(names[0]) else FirstService(names[1..])
  }

  /** The stubs the patcher needs: the first service import, `property_get`, and the getter's markers. */
  function ImportsOf(names: seq<Name>, plt: map<Name, int>): Option<Imports>
    requires forall n <- names :: n in plt
  {
    var svc := FirstService(names);
    if svc.None? || Ascii("property_get") !in plt then None
    else Some(Imports(plt[svc.value], plt[Ascii("property_get")], set n | n in plt && IsMark(n) :: plt[n]))
  }

  // ---------------------------------------------------------------- the imports, from the entries

  /** The bytes are the characters of an ASCII text. */
  ghost predicate BytesOf(b: seq<byte>, s: string) {
    |b| == |s| && forall k :: 0 <= k < |s| ==> b[k] as int == s[k] as int
  }

  /** The characters of `s` stand somewhere in the name. */
  ghost predicate Holds(n: Name, s: string) {
    exists a: seq<byte>, part: seq<byte>, b: seq<byte> :: n == a + part + b && BytesOf(part, s)
  }

  lemma AsciiBytes(b: seq<byte>, s: string)
    requires forall c <- s :: c as int < 0x80
    ensures BytesOf(b, s) <==> b == Ascii(s)
  {
    assert forall k :: 0 <= k < |s| ==> s[k] in s;
  }

  lemma HoldsExact(n: Name, s: string)
    requires forall c <- s :: c as int < 0x80
    ensures Holds(n, s) <==> Contains(n, Ascii(s))
  {
    hide Ascii, BytesOf, Contains;
    ContainsExact(n, Ascii(s));
    AsciiBytes(Ascii(s), s);
    forall a: seq<byte>, part: seq<byte>, b: seq<byte> | n == a + part + b && BytesOf(part, s)
      ensures part == Ascii(s)
    {
      AsciiBytes(part, s);
    }
  }

  /** A name of the property service's `getService`. */
  ghost predicate ServiceName(n: Name) {
    Holds(n, "IProperty") && Holds(n, "getService")
  }

  /** `property_get`, or a name of `hidl_string::c_str() const`. */
  ghost predicate GetterName(n: Name) {
    BytesOf(n, "property_get") || Holds(n, "hidl_string5c_strEv")
  }

  lemma NamesExact(n: Name)
    ensures (IsService(n) <==> ServiceName(n)) && (IsMark(n) <==> GetterName(n))
    ensures n == Ascii("property_get") <==> BytesOf(n, "property_get")
  {
    hide Contains, Ascii, Holds, BytesOf;
    HoldsExact(n, "IProperty");
    HoldsExact(n, "getService");
    HoldsExact(n, "hidl_string5c_strEv");
    AsciiBytes(n, "property_get");
  }

  /** Entry `i` is the last one of its name, and its stub is at `va`. */
  ghost predicate StubOf(names: seq<Name>, l: Layout, i: nat, va: int) {
    && i < |names| && (forall j :: i < j < |names| ==> names[j] != names[i])
    && va == l.pltAddr + 0x20 + i * ((l.pltSize - 0x20) / |names|)
  }

  lemma StubOfName(names: seq<Name>, l: Layout, n: Name, va: int)
    ensures n in PltOf(names, l) <==> n in names
    ensures n in names ==>
      (PltOf(names, l)[n] == va <==> exists i: nat :: i < |names| && StubOf(names, l, i, va) && names[i] == n)
  {
    hide Addresses;
    var base, stub := l.pltAddr + PLT_HEADER, Stub(l.pltSize, |names|);
    AddressesKeys(names, base, stub);
    if n in names {
      var i := LastOf(names, n);
      AddressOf(names, base, stub, i);
      StubNumber(l, |names|, i);
      assert PltOf(names, l)[n] == va ==> StubOf(names, l, i, va);
      forall j: nat | StubOf(names, l, j, va) && names[j] == n
        ensures j == i
      {
      }
    }
  }

  lemma StubNumber(l: Layout, n: nat, i: nat)
    requires n > 0
    ensures l.pltAddr + PLT_HEADER + i * Stub(l.pltSize, n) == l.pltAddr + 0x20 + i * ((l.pltSize - 0x20) / n)
  {
  }

  lemma {:induction false} FirstServiceExact(names: seq<Name>) returns (i: nat)
    requires FirstService(names).Some?
    ensures i < |names| && names[i] == FirstService(names).value && IsService(names[i])
    ensures forall j :: 0 <= j < i ==> !IsService(names[j])
  {
    hide IsService;
    if IsService(names[0]) {
      i := 0;
    } else {
      var k := FirstServiceExact(names[1..]);
      i := k + 1;
    }
  }

  /** The first name of the service is `n`. */
  ghost predicate FirstNamed(names: seq<Name>, n: Name) {
    exists i: nat :: i < |names| && names[i] == n && ServiceName(n)
      && forall j :: 0 <= j < i ==> !ServiceName(names[j])
  }

  /** The stubs of the first service name and of `property_get`, and those of all marking names. */
  ghost predicate ImportsAre(names: seq<Name>, l: Layout, im: Imports) {
    && (exists n: Name, i: nat ::
          i < |names| && FirstNamed(names, n) && StubOf(names, l, i, im.svc) && names[i] == n)
    && (exists i: nat :: i < |names| && StubOf(names, l, i, im.pget) && BytesOf(names[i], "property_get"))
    && (forall m: int :: m in im.marks <==>
          exists i: nat :: i < |names| && StubOf(names, l, i, m) && GetterName(names[i]))
  }

  /**
   The imports, from the entries of the relocation table: whether they are there, and which stubs they are.
   A repeated name has the stub of its last entry.
   */
  lemma ImportsExact(names: seq<Name>, l: Layout)
    ensures forall n <- names :: n in PltOf(names, l)
    ensures var im := ImportsOf(names, PltOf(names, l));
      && (im.Some? <==> (exists n <- names :: ServiceName(n)) && exists n <- names :: BytesOf(n, "property_get"))
      && (im.Some? ==> ImportsAre(names, l, im.value))
  {
    hide PltOf, IsService, IsMark, Ascii, BytesOf, ServiceName, GetterName, StubOf, FirstService;
    var plt := PltOf(names, l);
    forall n: Name
      ensures (IsService(n) <==> ServiceName(n)) && (IsMark(n) <==> GetterName(n))
      ensures n == Ascii("property_get") <==> BytesOf(n, "property_get")
      ensures n in plt <==> n in names
      ensures n in names ==> exists i: nat :: i < |names| && StubOf(names, l, i, plt[n]) && names[i] == n
    {
      NamesExact(n);
      StubOfName(names, l, n, 0);
      if n in names {
        StubOfName(names, l, n, plt[n]);
      }
    }
    if FirstService(names).Some? {
      var i := FirstServiceExact(names);
      assert FirstNamed(names, names[i]);
    }
    var im := ImportsOf(names, plt);
    if im.Some? {
      forall m: int
        ensures m in im.value.marks <==> exists i: nat :: i < |names| && StubOf(names, l, i, m) && GetterName(names[i])
      {
        MarksExact(names, l, m);
      }
    }
  }

  lemma MarksExact(names: seq<Name>, l: Layout, m: int)
    ensures (exists n :: n in PltOf(names, l) && IsMark(n) && PltOf(names, l)[n] == m)
       <==> exists i: nat :: i < |names| && StubOf(names, l, i, m) && GetterName(names[i])
  {
    hide PltOf, IsMark, GetterName, BytesOf, StubOf;
    forall n: Name
      ensures n in PltOf(names, l) <==> n in names
      ensures n in names ==>
        (PltOf(names, l)[n] == m <==> exists i: nat :: i < |names| && StubOf(names, l, i, m) && names[i] == n)
    {
      StubOfName(names, l, n, m);
    }
    forall i: nat | i < |names|
      ensures IsMark(names[i]) <==> GetterName(names[i])
    {
      NamesExact(names[i]);
    }
  }

  // ---------------------------------------------------------------- the whole patch

  ghost predicate EntriesOk(elf: seq<byte>, l: Layout) {
    forall i: nat :: i < l.relaSize / ENTRY ==> EntryName(elf, l, i).Ok?
  }

  /** What each refusal says about a readable file with the needed imports. */
  ghost predicate Diagnosed(d: seq<byte>, text: Section, svc: int, marks: set<int>, e: PatchError) {
    match e
    case WrongCallCount => forall a: nat, b: nat :: !TwoCalls(d, text, svc, a, b)
    case NoPrologue =>
      exists c: nat, c': nat :: TwoCalls(d, text, svc, c, c')
        && forall q: nat :: OnGrid(text, q) && q < c ==> !PrologueAt(d, q)
    case SameFunction =>
      exists c: nat, c': nat, p: nat ::
        TwoCalls(d, text, svc, c, c') && Nearest(d, text, c, p) && Nearest(d, text, c', p)
    case NoGetter =>
      exists c: nat, c': nat, p: nat, p': nat ::
        TwoCalls(d, text, svc, c, c') && Nearest(d, text, c, p) && Nearest(d, text, c', p')
        && p != p' && !GetterFn(d, text, marks, p) && !GetterFn(d, text, marks, p')
    case _ => false
  }

  const ELF_MAGIC: seq<byte> := [0x7F, 0x45, 0x4C, 0x46]

  function PltOf(names: seq<Name>, l: Layout): map<Name, int> {
    Addresses(names, l.pltAddr + PLT_HEADER, Stub(l.pltSize, |names|))
  }

  lemma TwoMeansTwo(d: seq<byte>, text: Section, svc: int, calls: seq<nat>, a: nat, b: nat)
    requires forall o: nat :: o in calls <==> OnGrid(text, o) && CallAt(d, text, o, svc)
    requires forall i, j :: 0 <= i < j < |calls| ==> calls[i] < calls[j]
    requires TwoCalls(d, text, svc, a, b)
    ensures |calls| == 2
  {
    hide CallAt, OnGrid;
    DistinctCount(calls);
    assert Members(calls) == {a, b};
  }

  function Members(s: seq<nat>): set<nat> {
    set o | o in s
  }

  lemma {:induction false} DistinctCount(s: seq<nat>)
    requires forall i, j :: 0 <= i < j < |s| ==> s[i] < s[j]
    ensures |Members(s)| == |s|
  {
    if s == [] {
    } else {
      var front, last := s[..|s| - 1], s[|s| - 1];
      DistinctCount(front);
      assert forall o :: o in s <==> o in front || o == last;
      assert last !in front;
      assert Members(s) == Members(front) + {last};
    }
  }

  lemma NotTwoCalls(d: seq<byte>, text: Section, svc: int, calls: seq<nat>)
    requires forall o: nat :: o in calls <==> OnGrid(text, o) && CallAt(d, text, o, svc)
    requires forall i, j :: 0 <= i < j < |calls| ==> calls[i] < calls[j]
    requires |calls| != 2
    ensures forall a: nat, b: nat :: !TwoCalls(d, text, svc, a, b)
  {
    hide CallAt, OnGrid, TwoCalls;
    forall a: nat, b: nat
      ensures !TwoCalls(d, text, svc, a, b)
    {
      if TwoCalls(d, text, svc, a, b) {
        TwoMeansTwo(d, text, svc, calls, a, b);
      }
    }
  }

  lemma NoPlan(d: seq<byte>, text: Section, svc: int, marks: set<int>)
    requires forall a: nat, b: nat :: !TwoCalls(d, text, svc, a, b)
    ensures forall g: nat, s: nat :: !Plan(d, text, svc, marks, g, s)
  {
    hide TwoCalls, Nearest, GetterFn;
  }

  lemma TwoScanned(d: seq<byte>, text: Section, svc: int, calls: seq<nat>)
    requires forall o: nat :: o in calls <==> OnGrid(text, o) && CallAt(d, text, o, svc)
    requires |calls| == 2 && calls[0] < calls[1]
    ensures TwoCalls(d, text, svc, calls[0], calls[1]) && TwoCalls(d, text, svc, calls[1], calls[0])
    ensures OnGrid(text, calls[0]) && OnGrid(text, calls[1])
  {
    hide CallAt, OnGrid;
    assert calls[0] in calls && calls[1] in calls;
  }

  lemma NoFunction(d: seq<byte>, text: Section, svc: int, marks: set<int>, c: nat, c': nat)
    requires TwoCalls(d, text, svc, c, c')
    requires forall q: nat :: OnGrid(text, q) && q < c ==> !PrologueAt(d, q)
    ensures forall g: nat, s: nat :: !Plan(d, text, svc, marks, g, s)
  {
    hide CallAt, OnGrid, GetterFn, PrologueAt;
    forall g: nat, s: nat | Plan(d, text, svc, marks, g, s)
      ensures false
    {
      var a: nat, b: nat :| TwoCalls(d, text, svc, a, b) && Nearest(d, text, a, g) && Nearest(d, text, b, s);
      SamePair(d, text, svc, c, c', a, b);
    }
  }

  /** The only possible plans, once both calls have their prologues. */
  lemma PlanCases(d: seq<byte>, text: Section, svc: int, marks: set<int>, c0: nat, c1: nat, p0: nat, p1: nat)
    requires TwoCalls(d, text, svc, c0, c1) && TwoCalls(d, text, svc, c1, c0)
    requires Nearest(d, text, c0, p0) && Nearest(d, text, c1, p1)
    ensures forall g: nat, s: nat :: Plan(d, text, svc, marks, g, s) <==>
      p0 != p1 && GetterFn(d, text, marks, g) && ((g == p0 && s == p1) || (g == p1 && s == p0))
  {
    hide CallAt, OnGrid, GetterFn, PrologueAt, Nearest;
    forall g: nat, s: nat | Plan(d, text, svc, marks, g, s)
      ensures p0 != p1 && ((g == p0 && s == p1) || (g == p1 && s == p0))
    {
      var a: nat, b: nat :| TwoCalls(d, text, svc, a, b) && Nearest(d, text, a, g) && Nearest(d, text, b, s);
      SamePair(d, text, svc, c0, c1, a, b);
      if a == c0 {
        NearestUnique(d, text, c0, g, p0);
        NearestUnique(d, text, c1, s, p1);
      } else {
        NearestUnique(d, text, c1, g, p1);
        NearestUnique(d, text, c0, s, p0);
      }
    }
  }

  lemma NearestInFile(d: seq<byte>, text: Section, o: nat, p: nat)
    requires Nearest(d, text, o, p)
    ensures p + 4 <= |d| && OnGrid(text, p)
  {
  }

  /**
   Success exactly when the file has the expected shape, with the two functions of a plan edited, and what
   each refusal says. Which of two getter-like functions is the getter is left open, as it is in the original.
   */
  ghost predicate Patches(
      d: seq<byte>, text: Section, l: Layout, r: Result<Outcome, PatchError>, names: seq<Name>)
  {
    if !EntriesOk(d, l) then r == Err(BadRead)
    else
      && |names| == l.relaSize / ENTRY
      && (forall i: nat :: i < |names| ==> EntryName(d, l, i) == Ok(names[i]))
      && (forall n <- names :: n in PltOf(names, l))
      && var im := ImportsOf(names, PltOf(names, l));
      && (r.Ok? <==> im.Some? && Readable(d, text)
                     && exists g: nat, s: nat :: Plan(d, text, im.value.svc, im.value.marks, g, s))
      && (r.Ok? ==>
            && Plan(d, text, im.value.svc, im.value.marks, r.value.getter, r.value.setter)
            && r.value.getter <= |d| && r.value.setter <= |d|
            && r.value.data == Edited(d, text, im.value.pget, r.value.getter, r.value.setter))
      && (im.None? ==> r == Err(MissingImports))
      && (im.Some? && !Readable(d, text) ==> r == Err(BadRead))
      && (im.Some? && Readable(d, text) && r.Err? ==> Diagnosed(d, text, im.value.svc, im.value.marks, r.error))
  }

  /** The patch, once the sections are known. */
  method PatchText(input: seq<byte>, text: Section, l: Layout)
      returns (r: Result<Outcome, PatchError>, names: seq<Name>)
    ensures Patches(input, text, l, r, names)
  {
    hide EntryName, ImportsOf, Plan, Readable, Assign, GetterCode, Addresses, Stub, Nearest, GetterFn, CallAt;
    hide OnGrid, PrologueAt;
    names := [];
    var data := input;
    var targets := PltTargets(data, l);
    if targets.Err? {
      return Err(BadRead), names;
    }
    var plt;
    names, plt := targets.value.0, targets.value.1;
    AddressesKeys(names, l.pltAddr + PLT_HEADER, Stub(l.pltSize, |names|));
    var imports := ImportsOf(names, plt);
    if imports.None? {
      return Err(MissingImports), names;
    }
    var Imports(svc, pget, marks) := imports.value;
    var scan := FindCalls(data, text, svc);
    if scan.Err? {
      return Err(scan.error), names;
    }
    var calls := scan.value;
    if |calls| != 2 {
      NotTwoCalls(data, text, svc, calls);
      NoPlan(data, text, svc, marks);
      return Err(WrongCallCount), names;
    }
    TwoScanned(data, text, svc, calls);
    var first := PrologueBefore(data, text, calls[0]);
    if first.Err? {
      NoFunction(data, text, svc, marks, calls[0], calls[1]);
      return Err(NoPrologue), names;
    }
    var second := PrologueBefore(data, text, calls[1]);
    if second.Err? {
      NoFunction(data, text, svc, marks, calls[1], calls[0]);
      return Err(NoPrologue), names;
    }
    PlanCases(data, text, svc, marks, calls[0], calls[1], first.value, second.value);
    NearestInFile(data, text, calls[0], first.value);
    NearestInFile(data, text, calls[1], second.value);
    if first.value == second.value {
      return Err(SameFunction), names;
    }
    var f, g := first.value, second.value;
    if * {
      f, g := second.value, first.value;
    }
    var getter, setter := f, g;
    var looksRight := IsGetter(data, text, marks, f);
    if !looksRight {
      looksRight := IsGetter(data, text, marks, g);
      if !looksRight {
        return Err(NoGetter), names;
      }
      getter, setter := g, f;
    }
    assert Plan(input, text, svc, marks, getter, setter);
    data := Assign(data, setter, RET);
    data := Assign(data, getter, GetterCode(text, getter, pget));
    return Ok(Outcome(data, getter, setter)), names;
  }

  /** What a refusal or success says about the entries of the relocation table themselves. */
  lemma PatchedImports(
      d: seq<byte>, text: Section, l: Layout, r: Result<Outcome, PatchError>, names: seq<Name>)
    requires Patches(d, text, l, r, names) && EntriesOk(d, l)
    ensures |names| == l.relaSize / 24 && forall i: nat :: i < |names| ==> EntryName(d, l, i) == Ok(names[i])
    ensures r == Err(MissingImports) <==>
      !((exists n <- names :: ServiceName(n)) && exists n <- names :: BytesOf(n, "property_get"))
    ensures r.Ok? ==> exists im ::
      && ImportsAre(names, l, im) && r.value.getter <= |d| && r.value.setter <= |d|
      && Plan(d, text, im.svc, im.marks, r.value.getter, r.value.setter)
      && r.value.data == Edited(d, text, im.pget, r.value.getter, r.value.setter)
    ensures r.Err? && r.error != MissingImports && r.error != BadRead ==> exists im ::
      ImportsAre(names, l, im) && Diagnosed(d, text, im.svc, im.marks, r.error)
  {
    hide PltOf, ImportsOf, ImportsAre, ServiceName, BytesOf, Plan, Edited, Readable, EntryName;
    ImportsExact(names, l);
    var im := ImportsOf(names, PltOf(names, l));
    if im.Some? {
      assert ImportsAre(names, l, im.value);
    }
  }

  /** The file begins with 7F and `ELF`. */
  predicate IsElf(d: seq<byte>) {
    |d| >= 4 && d[0] == 0x7F && d[1] == 0x45 && d[2] == 0x4C && d[3] == 0x46
  }

  lemma MagicExact(d: seq<byte>)
    ensures Slice(d, 0, 4) == ELF_MAGIC <==> IsElf(d)
  {
    if |d| >= 4 {
      assert d[0..4] == [d[0], d[1], d[2], d[3]];
    }
  }

  /** The whole patch, from the bytes of the file alone. */
  method PatchIpsecd(input: seq<byte>) returns (r: Result<Outcome, PatchError>, names: seq<Name>)
    ensures !IsElf(input) ==> r == Err(NotElf)
    ensures IsElf(input) ==>
      var secs := Sections(input);
      && (secs.Err? ==> r == Err(BadRead))
      && (secs.Ok? && Located(secs.value).None? ==> r == Err(MissingSection))
      && (secs.Ok? && Located(secs.value).Some? ==>
            var (text, l) := Located(secs.value).value; Patches(input, text, l, r, names))
  {
    hide Patches, Sections, Located;
    MagicExact(input);
    names := [];
    if Slice(input, 0, 4) != ELF_MAGIC {
      return Err(NotElf), names;
    }
    var secs := ReadSections(input);
    if secs.Err? {
      return Err(BadRead), names;
    }
    var found := Located(secs.value);
    if found.None? {
      return Err(MissingSection), names;
    }
    var (text, l) := found.value;
    r, names := PatchText(input, text, l);
  }
}

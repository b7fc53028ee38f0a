/**
 The calls on bytes are the edits of the view: each call that goes through on a well-formed file, and
 whole runs of calls, refused ones included.
 */
module AxmlRefinement {
  import opened Wrappers
  import opened Bytes
  import opened Utf16
  import opened AxmlReader
  import opened AxmlFormat
  import opened AxmlLookup
  import opened AxmlEdits
  import opened AxmlElements
  import opened AxmlManifest
  import opened AxmlInPlace
  import opened AxmlPatcher
  import opened Sequences
  import Calls = AxmlCalls
  import Runs = AxmlRuns

  /** A well-formed file with a fresh cache. */
  ghost predicate Ready(s: Calls.State) {
    |s.d| >= 36 && WellFormed(s.d) && Calls.Fresh(s)
  }

  lemma FreshIsReady(s: Calls.State)
    requires WellFormed(s.d) && Calls.Fresh(s)
    ensures Ready(s)
  {
    hide WellFormed, ParsePool, Framed, PoolHead;
    AppendCallView(s.d, s.cache, []);
  }

  // ---------------------------------------------------------------- one call

  /** The call goes through, and is the edit `e` of the view. */
  ghost predicate Does(s: Calls.State, c: Calls.Call, e: Runs.Edit)
    requires Ready(s)
  {
    ViewPool(s.d);
    var m := View(s.d);
    match c
    case Append(v) => e == Runs.Append(v) && Calls.AppendCall(s.d, s.cache, v).1.Ok?
    case Duplicate(tag, idx) =>
      && Calls.DuplicateCall(s.d, s.cache, tag, idx).1.Ok?
      && e.Duplicate? && Found(m, tag) == Ok(e.template) && e.idx == idx
    case Overwrite(i, v) =>
      && Calls.OverwriteCall(s.d, s.cache, i, v).1.Ok?
      && e == Runs.Overwrite(i, v) && i < Count(m.pool) && Room(m.pool, i, v)
    case SetData(off, v) =>
      && e.SetData? && HasAttr(m, e.chunk, e.attr) && e.data == v % TWO_32
      && off == ChunkOff(m, e.chunk) + Rec(m.chunks[e.chunk], e.attr) + DATA_FIELD
  }

  /** The call raises and touches nothing. */
  ghost predicate Refused(s: Calls.State, c: Calls.Call)
    requires Ready(s)
  {
    ViewPool(s.d);
    match c
    case Append(v) => !Storable(v)
    case Duplicate(tag, idx) => Choose(View(s.d), tag, idx).Err? && !TooLarge(View(s.d), tag, idx)
    case Overwrite(i, v) => Calls.OverwriteCall(s.d, s.cache, i, v).1.Err?
    case SetData(off, v) => off + 4 > |s.d|
  }

  lemma RefusedIdles(s: Calls.State, c: Calls.Call)
    requires Ready(s) && Refused(s, c)
    ensures Calls.Step(s, c) == s
  {
    hide View, WellFormed, ParsePool, Choose, TooLarge, Encodable, FindLeaf, ReadString;
    hide Calls.DuplicateCall, Calls.SizesCall, Calls.SpliceCall;
    ViewPool(s.d);
    match c
    case Append(v) =>
    case Duplicate(tag, idx) =>
      DuplicateCallView(s.d, s.cache, tag, idx);
    case Overwrite(i, v) =>
    case SetData(off, v) =>
  }

  /** What a call does, as far as its edit is concerned. */
  ghost predicate IsEdit(s: Calls.State, c: Calls.Call, e: Runs.Edit)
    requires Ready(s)
  {
    ViewPool(s.d);
    var m := View(s.d);
    && Runs.Possible(m, e)
    && var m' := Runs.Apply(m, e); var s' := Calls.Step(s, c);
    && FileSize(m') < TWO_32 && s'.d == Serialize(m') && PoolHead(m'.pool) && s'.cache == HeaderOf(m'.pool)
  }

  lemma AppendIsEdit(s: Calls.State, v: text)
    requires Ready(s) && Does(s, Calls.Append(v), Runs.Append(v))
    ensures IsEdit(s, Calls.Append(v), Runs.Append(v))
  {
    hide U16, U32, View, ParsePool, Calls.AppendCall, GrowPool, Serialize, PoolOk, Flatten, PoolHead, Encodable;
    hide Tiles, Chunks, ChunkOk, GrowthOf;
    ViewPool(s.d);
    AppendStart(s.d, s.cache);
    AppendCallView(s.d, s.cache, v);
    var d' := Calls.AppendCall(s.d, s.cache, v).0;
    SerializeView(d');
  }

  lemma DuplicateIsEdit(s: Calls.State, tag: text, idx: int, e: Runs.Edit)
    requires Ready(s) && Does(s, Calls.Duplicate(tag, idx), e)
    ensures IsEdit(s, Calls.Duplicate(tag, idx), e)
  {
    hide U16, U32, View, ParsePool, Calls.DuplicateCall, Serialize, PoolOk, Flatten, PoolHead, Retarget;
    hide Tiles, Chunks, ChunkOk, Found, TooLarge, WellFormed, StartOk;
    ViewPool(s.d);
    AppendStart(s.d, s.cache);
    DuplicateCallView(s.d, s.cache, tag, idx);
  }

  lemma OverwriteIsEdit(s: Calls.State, i: nat, v: text)
    requires Ready(s) && Does(s, Calls.Overwrite(i, v), Runs.Overwrite(i, v))
    ensures IsEdit(s, Calls.Overwrite(i, v), Runs.Overwrite(i, v))
  {
    hide U16, U32, View, ParsePool, ReadString, Serialize, PoolOk, Flatten, PoolHead, Rewritten, Room, Assign;
    hide Tiles, Chunks, ChunkOk, Encodable, Encode, LengthsFit, Separate, WellFormed;
    ViewPool(s.d);
    AppendStart(s.d, s.cache);
    ReadCached(s.d, s.cache, i);
    OverwriteEnd(s.d, s.cache, i, v);
    Runs.EditKeeps(View(s.d), Runs.Overwrite(i, v));
  }

  lemma SetDataIsEdit(s: Calls.State, off: nat, v: int, e: Runs.Edit)
    requires Ready(s) && Does(s, Calls.SetData(off, v), e)
    ensures IsEdit(s, Calls.SetData(off, v), e)
  {
    hide U16, U32, View, ParsePool, Serialize, PoolOk, Flatten, PoolHead, Put, Le32, PutField;
    hide Tiles, Chunks, ChunkOk, Rec, WellFormed;
    ViewPool(s.d);
    AppendStart(s.d, s.cache);
    SetDataView(s.d, e.chunk, e.attr, e.data);
  }

  /**
   Every call that goes through leaves exactly the bytes of the edited view, and a fresh cache; the file
   is well formed afterwards exactly when the edit is sound.
   */
  lemma CallIsEdit(s: Calls.State, c: Calls.Call, e: Runs.Edit)
    requires Ready(s) && Does(s, c, e)
    ensures Valid(View(s.d)) && IsEdit(s, c, e) && Runs.Possible(View(s.d), e)
    ensures var m, s' := View(s.d), Calls.Step(s, c);
      && (WellFormed(s'.d) <==> Runs.Sound(m, e))
      && (Runs.Sound(m, e) ==> Ready(s') && View(s'.d) == Runs.Apply(m, e))
  {
    hide U16, U32, View, ParsePool, Serialize, Flatten, PoolHead, Calls.Step, WellFormed, Valid, Shaped;
    hide Runs.Apply, Runs.Possible, Runs.Sound, Does;
    ViewPool(s.d);
    var m, s' := View(s.d), Calls.Step(s, c);
    DoesIsEdit(s, c, e);
    Runs.EditKeeps(m, e);
    Runs.ApplyShaped(m, e);
    SerializeExact(Runs.Apply(m, e));
    if Runs.Sound(m, e) {
      ParseView(s'.d);
      FreshIsReady(s');
    }
  }

  lemma DoesIsEdit(s: Calls.State, c: Calls.Call, e: Runs.Edit)
    requires Ready(s) && Does(s, c, e)
    ensures IsEdit(s, c, e)
  {
    hide Ready, IsEdit;
    match c
    case Append(v) => AppendIsEdit(s, v);
    case Duplicate(tag, idx) => DuplicateIsEdit(s, tag, idx, e);
    case Overwrite(i, v) => OverwriteIsEdit(s, i, v);
    case SetData(off, v) => SetDataIsEdit(s, off, v, e);
  }

  /** No 32-bit size field covers such a file. */
  lemma TooLong(d: seq<byte>)
    requires |d| >= TWO_32
    ensures !WellFormed(d)
  {
    hide U32, U16, Tiles, Chunks, Valid, View;
    if WellFormed(d) {
      U32Bound(d, 4);
    }
  }

  lemma AppendTooLong(s: Calls.State, v: text)
    requires Ready(s) && Storable(v) && Calls.AppendCall(s.d, s.cache, v).1.Err?
    ensures !WellFormed(Calls.Step(s, Calls.Append(v)).d)
  {
    hide U32, U16, View, ParsePool, WellFormed, PoolHead, Encodable, Calls.SizesCall, Calls.SpliceCall, Flatten;
    hide GrowthOf;
    ViewPool(s.d);
    AppendCallView(s.d, s.cache, v);
    SpliceView(s.d, s.cache, v);
    TooLong(Calls.Step(s, Calls.Append(v)).d);
  }

  lemma DuplicateTooLong(s: Calls.State, tag: text, idx: int)
    requires Ready(s) && Valid(View(s.d)) && TooLarge(View(s.d), tag, idx)
    ensures !WellFormed(Calls.Step(s, Calls.Duplicate(tag, idx)).d)
  {
    hide U32, U16, View, ParsePool, WellFormed, PoolHead, Calls.DuplicateCall, Flatten, Found, Retarget, StartOk;
    hide ChunkOk, PoolOk;
    ViewPool(s.d);
    DuplicateCallView(s.d, s.cache, tag, idx);
    AppendStart(s.d, s.cache);
    FoundLeaf(View(s.d), tag);
    Runs.DuplicateSize(View(s.d), Found(View(s.d), tag).value, idx);
    TooLong(Calls.Step(s, Calls.Duplicate(tag, idx)).d);
  }

  /** An append or a duplication keeps a file well formed exactly when it is refused or does a sound edit. */
  lemma GrowingCallExact(s: Calls.State, c: Calls.Call)
    requires Ready(s) && Valid(View(s.d)) && (c.Append? || c.Duplicate?)
    ensures WellFormed(Calls.Step(s, c).d) <==>
      Refused(s, c)
      || exists e :: Does(s, c, e) && Runs.Possible(View(s.d), e) && Runs.Sound(View(s.d), e)
  {
    hide U32, U16, View, ParsePool, WellFormed, PoolHead, Calls.Step, Calls.AppendCall, Calls.DuplicateCall, Found;
    hide Valid, Runs.Possible, Runs.Sound, Choose, TooLarge, Encodable;
    ReadyValid(s);
    forall e | Does(s, c, e)
      ensures Runs.Possible(View(s.d), e) && (WellFormed(Calls.Step(s, c).d) <==> Runs.Sound(View(s.d), e))
    {
      CallIsEdit(s, c, e);
    }
    if Refused(s, c) {
      RefusedIdles(s, c);
    } else {
      NotRefused(s, c);
    }
  }

  lemma NotRefused(s: Calls.State, c: Calls.Call)
    requires Ready(s) && Valid(View(s.d)) && (c.Append? || c.Duplicate?) && !Refused(s, c)
    ensures !WellFormed(Calls.Step(s, c).d) || exists e :: Does(s, c, e)
  {
    hide U32, U16, View, ParsePool, WellFormed, PoolHead, Calls.Step, Calls.AppendCall, Calls.DuplicateCall;
    hide Valid, Encodable, Found, TooLarge;
    match c
    case Append(v) =>
      if Calls.AppendCall(s.d, s.cache, v).1.Ok? {
        assert Does(s, c, Runs.Append(v));
      } else {
        AppendTooLong(s, v);
      }
    case Duplicate(tag, idx) =>
      if TooLarge(View(s.d), tag, idx) {
        DuplicateTooLong(s, tag, idx);
      } else {
        DuplicateCallView(s.d, s.cache, tag, idx);
        assert Does(s, c, Runs.Duplicate(Choose(View(s.d), tag, idx).value, idx));
      }
  }

  // ---------------------------------------------------------------- runs

  /** The edits that `cs` amount to: `Some` for a call that goes through soundly, `None` for a refused one. */
  ghost predicate Trace(s: Calls.State, cs: seq<Calls.Call>, es: seq<Option<Runs.Edit>>)
    requires Ready(s)
    decreases |cs|
  {
    if cs == [] || es == [] then cs == [] && es == []
    else if es[0].None? then
      Refused(s, cs[0]) && (RefusedIdles(s, cs[0]); Trace(Calls.Step(s, cs[0]), cs[1..], es[1..]))
    else
      && Does(s, cs[0], es[0].value)
      && (CallIsEdit(s, cs[0], es[0].value);
          Runs.Sound(View(s.d), es[0].value) && Trace(Calls.Step(s, cs[0]), cs[1..], es[1..]))
  }

  function Made(es: seq<Option<Runs.Edit>>): seq<Runs.Edit> {
    if es == [] then [] else (if es[0].Some? then [es[0].value] else []) + Made(es[1..])
  }

  /**
   A run of calls on the bytes is the run of its edits on the view: at the end the bytes are a well-formed
   file, the view is the edited one, and the cached fields are what a fresh parse gives.
   */
  lemma {:induction false} RunIsEdits(s: Calls.State, cs: seq<Calls.Call>, es: seq<Option<Runs.Edit>>)
    requires Ready(s) && Trace(s, cs, es)
    ensures Valid(View(s.d)) && Runs.AllSound(View(s.d), Made(es))
    ensures var t := Calls.Run(s, cs);
      && Ready(t) && Count(View(t.d).pool) == Count(View(s.d).pool) + Runs.Appends(Made(es))
      && Runs.State(View(t.d), t.cache) == Runs.Run(Runs.State(View(s.d), s.cache), Made(es))
    decreases |cs|
  {
    hide View, Ready, Does, Refused, Calls.Step, Runs.Apply, Runs.Possible, Runs.Sound, Runs.Step, WellFormed, Valid;
    hide IsEdit, U16, U32;
    ReadyValid(s);
    if cs == [] {
    } else if es[0].None? {
      RefusedIdles(s, cs[0]);
      RunIsEdits(s, cs[1..], es[1..]);
      assert [] + Made(es[1..]) == Made(es[1..]);
    } else {
      var e := es[0].value;
      CallIsEdit(s, cs[0], e);
      CallIsStep(s, cs[0], e);
      RunIsEdits(Calls.Step(s, cs[0]), cs[1..], es[1..]);
      FirstRest(e, Made(es[1..]));
    }
  }

  lemma StepCache(s: Calls.State, c: Calls.Call, e: Runs.Edit)
    requires Ready(s) && Runs.Possible(View(s.d), e) && IsEdit(s, c, e) && Runs.Sound(View(s.d), e)
    ensures Runs.Step(Runs.State(View(s.d), s.cache), e)
         == Runs.State(Runs.Apply(View(s.d), e), Calls.Step(s, c).cache)
  {
    hide View, Ready, Calls.Step, Runs.Apply, Runs.Possible, Runs.Sound, WellFormed, Valid, PoolHead, U16, U32;
    ReadyValid(s);
    Runs.EditKeeps(View(s.d), e);
  }

  /** One sound call, as a step of both runs. */
  lemma CallIsStep(s: Calls.State, c: Calls.Call, e: Runs.Edit)
    requires Ready(s) && Does(s, c, e) && Valid(View(s.d)) && Runs.Possible(View(s.d), e) && Runs.Sound(View(s.d), e)
    ensures var s' := Calls.Step(s, c);
      && Ready(s') && Valid(View(s'.d)) && View(s'.d) == Runs.Apply(View(s.d), e)
      && Runs.Step(Runs.State(View(s.d), s.cache), e) == Runs.State(View(s'.d), s'.cache)
      && Count(View(s'.d).pool) == Count(View(s.d).pool) + if e.Append? then 1 else 0
  {
    hide View, Ready, Does, Calls.Step, Runs.Apply, Runs.Possible, Runs.Sound, WellFormed, Valid, PoolHead, IsEdit;
    hide U16, U32;
    ReadyValid(s);
    CallIsEdit(s, c, e);
    StepCache(s, c, e);
    ReadyValid(Calls.Step(s, c));
    Runs.EditKeeps(View(s.d), e);
  }

  lemma ReadyValid(s: Calls.State)
    requires Ready(s)
    ensures |s.d| >= 36 && WellFormed(s.d) && Valid(View(s.d)) && s.cache == HeaderOf(View(s.d).pool)
  {
    hide View, WellFormed, PoolHead, ParsePool;
    ViewPool(s.d);
    ParseView(s.d);
  }
}

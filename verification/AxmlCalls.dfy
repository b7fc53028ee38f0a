/**
 The patcher's editing calls on any buffer at all: what is written, in which order, and where a call
 raises half way. The cached fields are re-read by a completed append and by nothing else.
 */
module AxmlCalls {
  import opened Wrappers
  import opened Bytes
  import opened Utf16
  import opened AxmlReader
  import opened AxmlEdits

  /** `b[o:o] = s` with the position clamped. */
  function InsertAt(b: seq<byte>, o: nat, s: seq<byte>): (r: seq<byte>)
    ensures |r| == |b| + |s|
  {
    Insert(b, if o <= |b| then o else |b|, s)
  }

  // ---------------------------------------------------------------- the calls

  /** An append gets as far as touching the buffer. */
  predicate Begins(h: PoolHeader, v: text) {
    !h.isUtf8 && Storable(v) && 0 <= h.nextChunkOff - h.stringsStartAbs < TWO_32
  }

  /** The table entry, the record and the padding. */
  function SpliceCall(d: seq<byte>, h: PoolHeader, v: text): (r: seq<byte>)
    requires Begins(h, v)
    ensures |r| == |d| + GrowthOf(v)
  {
    var at := h.nextChunkOff + 4;
    var d1 := InsertAt(d, h.stringsStartAbs, Le32(h.nextChunkOff - h.stringsStartAbs));
    InsertAt(InsertAt(d1, at, Record(v)), at + |Record(v)|, Zeros(Padding(v)))
  }

  /** The count, size and string start of the pool and the size of the file, up to the first that overflows. */
  function SizesCall(d: seq<byte>, count: nat, n: nat): (r: (seq<byte>, Result<(), Error>))
    requires |d| >= 36
    ensures |r.0| == |d|
  {
    if count >= TWO_32 then (d, Err(StructError))
    else
      var d2 := Put(d, 16, Le32(count));
      if U32(d2, 12) + n >= TWO_32 then (d2, Err(StructError))
      else
        var d3 := Put(d2, 12, Le32(U32(d2, 12) + n));
        if U32(d3, 28) + 4 >= TWO_32 then (d3, Err(StructError))
        else
          var d4 := Put(d3, 28, Le32(U32(d3, 28) + 4));
          if U32(d4, 4) + n >= TWO_32 then (d4, Err(StructError))
          else (Put(d4, 4, Le32(U32(d4, 4) + n)), Ok(()))
  }

  /** `append_string`: the buffer afterwards and the result. */
  function AppendCall(d: seq<byte>, h: PoolHeader, v: text): (r: (seq<byte>, Result<nat, Error>))
    requires |d| >= 36
    ensures |r.0| >= 36
  {
    if h.isUtf8 then (d, Err(AssertionError))
    else if !Encodable(v) then (d, Err(UnicodeError))
    else if !Begins(h, v) then (d, Err(StructError))
    else
      var (d1, sized) := SizesCall(SpliceCall(d, h, v), h.stringCount + 1, GrowthOf(v));
      var parsed := ParsePool(d1);
      (d1, if sized.Err? then Err(sized.error) else if parsed.Err? then Err(parsed.error) else Ok(h.stringCount))
  }

  /** `duplicate_uses_permission`. */
  function DuplicateCall(d: seq<byte>, h: PoolHeader, tag: text, idx: int): (r: (seq<byte>, Result<nat, Error>))
    requires |d| >= 36
    ensures |r.0| >= 36
  {
    var found := FindLeaf(d, h, h.nextChunkOff, tag);
    if found.Err? then (d, Err(found.error))
    else
      var leaf := found.value;
      var end := leaf.endOff + leaf.endSize;
      var elem := Slice(d, leaf.startOff, end);
      if |elem| < 30 then (d, Err(StructError))
      else if U16(elem, 28) != 1 then (d, Err(AssertionError))
      else
        var rec := 16 + U16(elem, 24);
        if idx < 0 || idx >= 0x8000_0000 || rec + 20 > |elem| then (d, Err(StructError))
        else
          var copy := Put(Put(elem, rec + 8, Le32(idx)), rec + 16, Le32(idx));
          var d1 := InsertAt(d, end, copy);
          if U32(d1, 4) + |copy| >= TWO_32 then (d1, Err(StructError))
          else (Put(d1, 4, Le32(U32(d1, 4) + |copy|)), Ok(end))
  }

  /** `overwrite_utf16_string_inplace`. */
  function OverwriteCall(d: seq<byte>, h: PoolHeader, index: nat, v: text): (r: (seq<byte>, Result<(), Error>))
    requires |d| >= 36
    ensures |r.0| >= 36
  {
    var read := ReadString(d, h, index);
    if read.Err? then (d, Err(read.error))
    else if |v| != read.value.length then (d, Err(ValueError))
    else if !Encodable(v) then (d, Err(UnicodeError))
    else (Assign(d, read.value.base + 2, Encode(v)), Ok(()))
  }

  /** The appends that are refused before the buffer is touched, and with which error. */
  lemma AppendRefused(d: seq<byte>, h: PoolHeader, v: text)
    requires |d| >= 36
    ensures var r := AppendCall(d, h, v);
      var encodes := forall i :: 0 <= i < |v| ==> v[i] < 0xD800 || 0xDFFF < v[i];
      && (h.isUtf8 ==> r == (d, Err(AssertionError)))
      && (!h.isUtf8 && !encodes ==> r == (d, Err(UnicodeError)))
      && var rel := h.nextChunkOff - h.stringsStartAbs;
      && (!h.isUtf8 && encodes && (|v| >= 65536 || rel < 0 || rel >= 4294967296) ==> r == (d, Err(StructError)))
      && (!h.isUtf8 && encodes && |v| < 65536 && 0 <= rel < 4294967296 ==> |r.0| == |d| + GrowthOf(v))
  {
    hide U16, U32, SizesCall, SpliceCall, ParsePool, Encode;
    EncodableExact(v);
    if Begins(h, v) {
      SizesLength(SpliceCall(d, h, v), h.stringCount + 1, GrowthOf(v));
    }
  }

  lemma SizesLength(d: seq<byte>, count: nat, n: nat)
    requires |d| >= 36
    ensures |SizesCall(d, count, n).0| == |d|
  {
  }

  /** Every outcome of an overwrite: which error comes first, and the bytes of a success. */
  lemma OverwriteExact(d: seq<byte>, h: PoolHeader, index: nat, v: text)
    requires |d| >= 36
    ensures var read, r := ReadString(d, h, index), OverwriteCall(d, h, index, v);
      && (read.Err? ==> r == (d, Err(read.error)))
      && (read.Ok? && |v| != read.value.length ==> r == (d, Err(ValueError)))
      && (read.Ok? && |v| == read.value.length && (exists i :: 0 <= i < |v| && 0xD800 <= v[i] <= 0xDFFF) ==>
            r == (d, Err(UnicodeError)))
      && (read.Ok? && |v| == read.value.length && (forall i :: 0 <= i < |v| ==> v[i] < 0xD800 || 0xDFFF < v[i]) ==>
            && r.1.Ok? && var o, e := read.value.base + 2, Encode(v);
            && o <= |d| && |r.0| >= o + |e| && r.0[..o] == d[..o] && r.0[o..o + |e|] == e
            && r.0[o + |e|..] == (if o + |e| <= |d| then d[o + |e|..] else []))
  {
    hide U16, U32, Decode, Encode, ReadString;
    EncodableExact(v);
    if ReadString(d, h, index).Ok? {
      StringBehind(d, h, index);
    }
  }

  /** What a duplication checks of the element it found, in order, on any buffer. */
  lemma DuplicateRefused(d: seq<byte>, h: PoolHeader, tag: text, idx: int)
    requires |d| >= 36
    ensures var found, r := FindLeaf(d, h, h.nextChunkOff, tag), DuplicateCall(d, h, tag, idx);
      && (found.Err? ==> r == (d, Err(found.error)))
      && (found.Ok? ==>
            var elem := Slice(d, found.value.startOff, found.value.endOff + found.value.endSize);
            && (|elem| < 30 ==> r == (d, Err(StructError)))
            && (|elem| >= 30 && U16(elem, 28) != 1 ==> r == (d, Err(AssertionError)))
            && (|elem| >= 30 && U16(elem, 28) == 1 ==>
                  if idx < 0 || idx >= 2147483648 || U16(elem, 24) + 36 > |elem| then r == (d, Err(StructError))
                  else |r.0| == |d| + |elem|))
  {
    hide U16, U32, FindLeaf, Slice, Le32;
  }

  /** `set_attr_int_data`. */
  function SetDataCall(d: seq<byte>, dataOff: nat, v: int): (r: (seq<byte>, Result<(), Error>))
    requires |d| >= 36
    ensures |r.0| >= 36
  {
    if dataOff + 4 > |d| then (d, Err(StructError))
    else (Put(d, dataOff, Le32(v % TWO_32)), Ok(()))
  }

  /** A data write: the four bytes, low one first, of the value modulo 2^32, or an error past the end. */
  lemma SetDataExact(d: seq<byte>, dataOff: nat, v: int)
    requires |d| >= 36
    ensures var r := SetDataCall(d, dataOff, v);
      && (dataOff + 4 > |d| ==> r == (d, Err(StructError)))
      && (dataOff + 4 <= |d| ==>
            && r.1 == Ok(()) && |r.0| == |d| && U32(r.0, dataOff) == v % 4294967296
            && forall k :: 0 <= k < |d| && !(dataOff <= k < dataOff + 4) ==> r.0[k] == d[k])
  {
    hide U16, U32, Put, Le32;
    if dataOff + 4 <= |d| {
      forall k: nat | k < |d| && !(dataOff <= k < dataOff + 4)
        ensures Put(d, dataOff, Le32(v % TWO_32))[k] == d[k]
      {
        PutReads(d, dataOff, v % TWO_32, k);
      }
      PutReads(d, dataOff, v % TWO_32, 0);
    }
  }

  // ---------------------------------------------------------------- any calls in any order

  datatype Call =
    | Append(value: text)
    | Duplicate(tag: text, idx: int)
    | Overwrite(index: nat, text: text)
    | SetData(off: nat, data: int)

  datatype State = State(d: seq<byte>, cache: PoolHeader)

  /** The state after a call, whether it returns or raises. */
  function Step(s: State, c: Call): (s': State)
    requires |s.d| >= 36
    ensures |s'.d| >= 36
  {
    match c
    case Append(v) =>
      var r := AppendCall(s.d, s.cache, v);
      var parsed := ParsePool(r.0);
      State(r.0, if r.1.Ok? && parsed.Ok? then parsed.value else s.cache)
    case Duplicate(tag, idx) => State(DuplicateCall(s.d, s.cache, tag, idx).0, s.cache)
    case Overwrite(i, v) => State(OverwriteCall(s.d, s.cache, i, v).0, s.cache)
    case SetData(off, v) => State(SetDataCall(s.d, off, v).0, s.cache)
  }

  function Run(s: State, cs: seq<Call>): (s': State)
    requires |s.d| >= 36
    ensures |s'.d| >= 36
    decreases |cs|
  {
    if cs == [] then s else Run(Step(s, cs[0]), cs[1..])
  }

  /** The cached fields are what a fresh parse of the bytes gives. */
  predicate Fresh(s: State) {
    ParsePool(s.d) == Ok(s.cache)
  }

  /** The string data and the chunks are said to lie behind the 36 bytes of the two headers. */
  predicate Behind(s: State) {
    && |s.d| >= 36 && U16(s.d, 8) == STRING_POOL && U32(s.d, 12) >= 28 && U32(s.d, 28) >= 28
    && s.cache.stringsStartAbs >= 36 && s.cache.nextChunkOff >= 36
  }

  /** An attribute write that misses the pool header: the file size in front of it, or bytes behind it. */
  predicate Misses(c: Call) {
    c.SetData? ==> c.off >= 36 || c.off + 4 <= 8
  }

  /** An append that has begun writes header fields, starting with the count. */
  predicate Started(s: State, c: Call) {
    c.Append? && Begins(s.cache, c.value) && s.cache.stringCount + 1 < TWO_32
  }

  /** The call writes no byte of the pool header, other than the fields an append sets itself. */
  predicate OffHeader(s: State, c: Call) {
    match c
    case Append(v) => Started(s, c) || (Begins(s.cache, v) ==> s.cache.stringsStartAbs >= 36)
    case Duplicate(_, _) => s.cache.nextChunkOff >= 36
    case Overwrite(_, _) => s.cache.stringsStartAbs >= 36
    case SetData(_, _) => Misses(c)
  }

  /** A started append runs to its end: every header field still fits 32 bits. */
  predicate Completes(s: State, c: Call)
    requires |s.d| >= 36 && Started(s, c)
  {
    var n := GrowthOf(c.value);
    U32(s.d, 12) + n < TWO_32 && U32(s.d, 28) + 4 < TWO_32 && U32(s.d, 4) + n < TWO_32
  }

  // ---------------------------------------------------------------- what a call leaves alone

  /** The header fields in front of the offset table, as bytes. */
  function Head(d: seq<byte>): seq<byte>
    requires |d| >= 36
  {
    d[8..36]
  }

  /** Only the pool header behind the file header is cached. */
  lemma ParseFrame(d: seq<byte>, d': seq<byte>)
    requires |d| >= 36 && |d'| >= 36 && Head(d) == Head(d')
    ensures ParsePool(d') == ParsePool(d)
    ensures U16(d', 8) == U16(d, 8) && U32(d', 12) == U32(d, 12) && U32(d', 16) == U32(d, 16)
    ensures U32(d', 28) == U32(d, 28)
  {
    hide U16, U32;
    SameRead(d, 8, d', 8, 28, 0);
    SameRead(d, 8, d', 8, 28, 2);
    SameRead(d, 8, d', 8, 28, 4);
    SameRead(d, 8, d', 8, 28, 8);
    SameRead(d, 8, d', 8, 28, 12);
    SameRead(d, 8, d', 8, 28, 16);
    SameRead(d, 8, d', 8, 28, 20);
    SameRead(d, 8, d', 8, 28, 24);
  }

  lemma InsertBehind(d: seq<byte>, o: nat, s: seq<byte>)
    requires |d| >= 36 && o >= 36
    ensures Head(InsertAt(d, o, s)) == Head(d) && U32(InsertAt(d, o, s), 4) == U32(d, 4)
  {
    hide U16, U32;
    var r := InsertAt(d, o, s);
    assert r[0..36] == d[0..36];
    SameRead(r, 0, d, 0, 36, 4);
    SliceOfSlice(r, 0, 36, 8, 36);
    SliceOfSlice(d, 0, 36, 8, 36);
  }

  lemma PutOutside(d: seq<byte>, o: nat, s: seq<byte>)
    requires |d| >= 36 && o + |s| <= |d| && (o >= 36 || o + |s| <= 8)
    ensures Head(Put(d, o, s)) == Head(d)
  {
    PutSlice(d, o, s, 8, 36);
  }

  lemma AssignBehind(d: seq<byte>, o: nat, s: seq<byte>)
    requires 36 <= o <= |d|
    ensures Head(Assign(d, o, s)) == Head(d)
  {
    hide Assign;
    AssignSlices(d, o, s);
    SliceOfSlice(d, 0, o, 8, 36);
    SliceOfSlice(Assign(d, o, s), 0, o, 8, 36);
  }

  /** The leaf search never looks back. */
  lemma {:induction false} LeafBehind(d: seq<byte>, h: PoolHeader, off: nat, tag: text)
    requires FindLeaf(d, h, off, tag).Ok?
    ensures var leaf := FindLeaf(d, h, off, tag).value; off <= leaf.startOff <= leaf.endOff
    decreases |d| - off
  {
    hide U16, ReadString, ReadStart, ReadHeader;
    var size := ReadHeader(d, off).value.1;
    if FindLeaf(d, h, off + size, tag).Ok? && size != 0 {
      LeafBehind(d, h, off + size, tag);
    }
  }

  lemma StringBehind(d: seq<byte>, h: PoolHeader, i: nat)
    requires ReadString(d, h, i).Ok?
    ensures h.stringsStartAbs <= ReadString(d, h, i).value.base <= |d| - 2
  {
    hide U16, U32, Decode;
  }

  /** A duplication writes behind the pool header and in the file size. */
  lemma DuplicateKeepsHead(d: seq<byte>, h: PoolHeader, tag: text, idx: int)
    requires |d| >= 36 && h.nextChunkOff >= 36
    ensures Head(DuplicateCall(d, h, tag, idx).0) == Head(d)
  {
    hide U16, U32, Le32, Put, Slice, FindLeaf, InsertAt;
    var found := FindLeaf(d, h, h.nextChunkOff, tag);
    if found.Ok? {
      LeafBehind(d, h, h.nextChunkOff, tag);
      var leaf := found.value;
      var end := leaf.endOff + leaf.endSize;
      var elem := Slice(d, leaf.startOff, end);
      if |elem| >= 30 && 0 <= idx < 0x8000_0000 && 16 + U16(elem, 24) + 20 <= |elem| {
        var rec := 16 + U16(elem, 24);
        var copy := Put(Put(elem, rec + 8, Le32(idx)), rec + 16, Le32(idx));
        InsertBehind(d, end, copy);
        var d1 := InsertAt(d, end, copy);
        if U32(d1, 4) + |copy| < TWO_32 {
          PutOutside(d1, 4, Le32(U32(d1, 4) + |copy|));
        }
      }
    }
  }

  lemma OverwriteKeepsHead(d: seq<byte>, h: PoolHeader, i: nat, v: text)
    requires |d| >= 36 && h.stringsStartAbs >= 36
    ensures Head(OverwriteCall(d, h, i, v).0) == Head(d)
  {
    hide U16, U32, Assign, ReadString, Encode;
    if ReadString(d, h, i).Ok? {
      StringBehind(d, h, i);
      AssignBehind(d, ReadString(d, h, i).value.base + 2, Encode(v));
    }
  }

  lemma SetDataKeepsHead(d: seq<byte>, off: nat, v: int)
    requires |d| >= 36 && (off >= 36 || off + 4 <= 8)
    ensures Head(SetDataCall(d, off, v).0) == Head(d)
  {
    hide Put, Le32;
    if off + 4 <= |d| {
      PutOutside(d, off, Le32(v % TWO_32));
    }
  }

  // ---------------------------------------------------------------- appends

  lemma SpliceKeepsHead(d: seq<byte>, h: PoolHeader, v: text)
    requires |d| >= 36 && Begins(h, v) && h.stringsStartAbs >= 36
    ensures Head(SpliceCall(d, h, v)) == Head(d) && U32(SpliceCall(d, h, v), 4) == U32(d, 4)
  {
    hide U32, Le32, Record, Zeros, Padding, InsertAt;
    var at := h.nextChunkOff + 4;
    var d1 := InsertAt(d, h.stringsStartAbs, Le32(h.nextChunkOff - h.stringsStartAbs));
    InsertBehind(d, h.stringsStartAbs, Le32(h.nextChunkOff - h.stringsStartAbs));
    InsertBehind(d1, at, Record(v));
    InsertBehind(InsertAt(d1, at, Record(v)), at + |Record(v)|, Zeros(Padding(v)));
  }

  /** An append that has not started leaves the header bytes alone. */
  lemma NotStarted(s: State, c: Call)
    requires |s.d| >= 36 && c.Append? && !Started(s, c) && OffHeader(s, c)
    ensures AppendCall(s.d, s.cache, c.value).1.Err? && Head(AppendCall(s.d, s.cache, c.value).0) == Head(s.d)
  {
    hide U16, U32, Le32, Put, SpliceCall, ParsePool;
    if Begins(s.cache, c.value) {
      SpliceKeepsHead(s.d, s.cache, c.value);
    }
  }

  /** The header fields a started append reads and leaves behind, and when it comes to its end. */
  lemma StartedFields(s: State, c: Call)
    requires Behind(s) && Started(s, c)
    ensures var r := AppendCall(s.d, s.cache, c.value);
      && U16(r.0, 8) == STRING_POOL && U32(r.0, 16) == s.cache.stringCount + 1
      && U32(r.0, 12) >= U32(s.d, 12) && U32(r.0, 28) >= U32(s.d, 28)
      && (r.1.Ok? <==> Completes(s, c))
      && (r.1.Ok? ==> r.1 == Ok(s.cache.stringCount) && U32(r.0, 12) == U32(s.d, 12) + GrowthOf(c.value)
                      && U32(r.0, 28) == U32(s.d, 28) + 4 && U32(r.0, 4) == U32(s.d, 4) + GrowthOf(c.value))
      && (r.1.Err? ==> r.1 == Err(StructError))
  {
    hide U16, U32, Le32, Put, SpliceCall, ParsePool, GrowthOf;
    var d1 := SpliceCall(s.d, s.cache, c.value);
    SpliceKeepsHead(s.d, s.cache, c.value);
    ParseFrame(s.d, d1);
    var n := s.cache.stringCount + 1;
    var d2 := Put(d1, 16, Le32(n));
    FieldsAfter(d1, 16, n);
    var size := U32(d2, 12) + GrowthOf(c.value);
    if size < TWO_32 {
      var d3 := Put(d2, 12, Le32(size));
      FieldsAfter(d2, 12, size);
      if U32(d3, 28) + 4 < TWO_32 {
        var d4 := Put(d3, 28, Le32(U32(d3, 28) + 4));
        FieldsAfter(d3, 28, U32(d3, 28) + 4);
        var outer := U32(d4, 4) + GrowthOf(c.value);
        if outer < TWO_32 {
          FieldsAfter(d4, 4, outer);
          ParseOk(Put(d4, 4, Le32(outer)));
        }
      }
    }
  }

  /** The count is written before anything else can overflow, and stays. */
  lemma SizesCount(d: seq<byte>, count: nat, n: nat)
    requires |d| >= 36 && count < TWO_32
    ensures U32(SizesCall(d, count, n).0, 16) == count
  {
    hide U16, U32, Le32, Put;
    var d2 := Put(d, 16, Le32(count));
    FieldsAfter(d, 16, count);
    var size := U32(d2, 12) + n;
    if size < TWO_32 {
      var d3 := Put(d2, 12, Le32(size));
      FieldsAfter(d2, 12, size);
      if U32(d3, 28) + 4 < TWO_32 {
        var d4 := Put(d3, 28, Le32(U32(d3, 28) + 4));
        FieldsAfter(d3, 28, U32(d3, 28) + 4);
        if U32(d4, 4) + n < TWO_32 {
          FieldsAfter(d4, 4, U32(d4, 4) + n);
        }
      }
    }
  }

  lemma ParsedCount(d: seq<byte>)
    requires |d| >= 36 && ParsePool(d).Ok?
    ensures ParsePool(d).value.stringCount == U32(d, 16)
  {
    hide U16, U32;
  }

  /** Wherever its header says the data is: an append that starts leaves the cache fresh exactly when it returns. */
  lemma StartedFreshExact(s: State, v: text)
    requires |s.d| >= 36 && Started(s, Append(v))
    ensures Fresh(Step(s, Append(v))) <==> AppendCall(s.d, s.cache, v).1.Ok?
  {
    hide U16, U32, SpliceCall, SizesCall, ParsePool, GrowthOf;
    var s' := Step(s, Append(v));
    SizesCount(SpliceCall(s.d, s.cache, v), s.cache.stringCount + 1, GrowthOf(v));
    if ParsePool(s'.d).Ok? {
      ParsedCount(s'.d);
    }
  }

  /** One field written, the four others as before. */
  lemma FieldsAfter(d: seq<byte>, o: nat, v: nat)
    requires |d| >= 36 && v < TWO_32 && (o == 4 || o == 12 || o == 16 || o == 28)
    ensures var r := Put(d, o, Le32(v));
      && U16(r, 8) == U16(d, 8)
      && U32(r, 4) == (if o == 4 then v else U32(d, 4)) && U32(r, 12) == (if o == 12 then v else U32(d, 12))
      && U32(r, 16) == (if o == 16 then v else U32(d, 16)) && U32(r, 28) == (if o == 28 then v else U32(d, 28))
  {
    hide U16, U32, Le32, Put;
    PutReads(d, o, v, 4);
    PutReads(d, o, v, 8);
    PutReads(d, o, v, 12);
    PutReads(d, o, v, 16);
    PutReads(d, o, v, 28);
  }

  lemma ParseOk(d: seq<byte>)
    requires |d| >= 36 && U16(d, 8) == STRING_POOL
    ensures ParsePool(d).Ok?
    ensures var h := ParsePool(d).value;
      && h.size == U32(d, 12) && h.stringCount == U32(d, 16)
      && h.stringsStartAbs == 8 + U32(d, 28) && h.nextChunkOff == 8 + U32(d, 12)
  {
    hide U16, U32;
  }

  // ---------------------------------------------------------------- what an append does to the walk

  /** What lies from `n` on. */
  function Tail(b: seq<byte>, n: nat): seq<byte> {
    if n <= |b| then b[n..] else []
  }

  lemma InsertTail(b: seq<byte>, o: nat, s: seq<byte>, n: nat)
    requires o <= n
    ensures Tail(InsertAt(b, o, s), n + |s|) == Tail(b, n)
  {
  }

  lemma PutTail(b: seq<byte>, o: nat, s: seq<byte>, n: nat)
    requires o + |s| <= |b| && o + |s| <= n
    ensures Tail(Put(b, o, s), n) == Tail(b, n)
  {
    if n <= |b| {
      PutSlice(b, o, s, n, |b|);
      assert b[n..] == b[n..|b|] && Put(b, o, s)[n..] == Put(b, o, s)[n..|b|];
    }
  }

  lemma SpliceTail(d: seq<byte>, h: PoolHeader, v: text)
    requires Begins(h, v)
    ensures Tail(SpliceCall(d, h, v), h.nextChunkOff + GrowthOf(v)) == Tail(d, h.nextChunkOff)
  {
    hide Le32, Record, Zeros, Padding, InsertAt, Tail;
    var at := h.nextChunkOff + 4;
    var entry := Le32(h.nextChunkOff - h.stringsStartAbs);
    var d1 := InsertAt(d, h.stringsStartAbs, entry);
    InsertTail(d, h.stringsStartAbs, entry, h.nextChunkOff);
    InsertTail(d1, at, Record(v), at);
    InsertTail(InsertAt(d1, at, Record(v)), at + |Record(v)|, Zeros(Padding(v)), at + |Record(v)|);
  }

  lemma SizesTail(d: seq<byte>, count: nat, n: nat, k: nat)
    requires |d| >= 36 && k >= 32
    ensures Tail(SizesCall(d, count, n).0, k) == Tail(d, k)
  {
    hide U16, U32, Le32, Put, Tail;
    if count < TWO_32 {
      PutTail(d, 16, Le32(count), k);
      var d2 := Put(d, 16, Le32(count));
      if U32(d2, 12) + n < TWO_32 {
        var d3 := Put(d2, 12, Le32(U32(d2, 12) + n));
        PutTail(d2, 12, Le32(U32(d2, 12) + n), k);
        if U32(d3, 28) + 4 < TWO_32 {
          var d4 := Put(d3, 28, Le32(U32(d3, 28) + 4));
          PutTail(d3, 28, Le32(U32(d3, 28) + 4), k);
          if U32(d4, 4) + n < TWO_32 {
            PutTail(d4, 4, Le32(U32(d4, 4) + n), k);
          }
        }
      }
    }
  }

  /** The walk over equal tails, also when they are past the end. */
  lemma WalkOfTail(d: seq<byte>, off: nat, d': seq<byte>, off': nat)
    requires Tail(d, off) == Tail(d', off')
    ensures StartElements(d', off')
         == if StartElements(d, off).Err? then StartElements(d, off)
            else Ok(Shifted(StartElements(d, off).value, off' - off))
  {
    hide WalkStep;
    if off <= |d| && off' <= |d'| {
      WalkCommutesWithGrowth(d, off, d', off');
    } else {
      assert off >= |d| && off' >= |d'|;
      assert Shifted([], off' - off) == [];
    }
  }

  /**
   On any buffer, an append that touches it moves every element the walk yields by exactly the bytes
   added, or leaves its error; also when the append raises afterwards. When it returns from a fresh
   cache, the new cached position of the first chunk is the moved one.
   */
  lemma AppendShiftsWalk(s: State, v: text)
    requires |s.d| >= 36 && Begins(s.cache, v) && s.cache.nextChunkOff >= 24
    ensures var s', next := Step(s, Append(v)), s.cache.nextChunkOff;
      && StartElements(s'.d, next + GrowthOf(v))
         == (if StartElements(s.d, next).Err? then StartElements(s.d, next)
             else Ok(Shifted(StartElements(s.d, next).value, GrowthOf(v))))
      && (Behind(s) && Fresh(s) && AppendCall(s.d, s.cache, v).1.Ok? ==>
            s'.cache.nextChunkOff == next + GrowthOf(v))
  {
    hide U16, U32, SpliceCall, SizesCall, Tail, StartElements, Shifted, ParsePool, GrowthOf, Completes, Behind;
    var d1, next := SpliceCall(s.d, s.cache, v), s.cache.nextChunkOff;
    SpliceTail(s.d, s.cache, v);
    SizesTail(d1, s.cache.stringCount + 1, GrowthOf(v), next + GrowthOf(v));
    WalkOfTail(s.d, next, Step(s, Append(v)).d, next + GrowthOf(v));
    if Behind(s) && Fresh(s) && AppendCall(s.d, s.cache, v).1.Ok? {
      NextChunkMoves(s, v);
    }
  }

  lemma NextChunkMoves(s: State, v: text)
    requires Behind(s) && Fresh(s) && AppendCall(s.d, s.cache, v).1.Ok?
    ensures Begins(s.cache, v) && Step(s, Append(v)).cache.nextChunkOff == s.cache.nextChunkOff + GrowthOf(v)
  {
    hide U16, U32, SpliceCall, SizesCall, ParsePool, GrowthOf, Completes;
    var c := Append(v);
    if !Started(s, c) {
      NotStarted(s, c);
    }
    StartedFields(s, c);
    ParseOk(s.d);
    ParseOk(Step(s, c).d);
  }

  // ---------------------------------------------------------------- freshness

  /** Whether the cache is fresh after a call, from what is known before it. */
  predicate FreshAfter(s: State, c: Call, before: bool)
    requires |s.d| >= 36
  {
    if Started(s, c) then AppendCall(s.d, s.cache, c.value).1.Ok? else before
  }

  /**
   After one call, returned or raised, with any arguments: an append that starts leaves the cache fresh
   exactly when it returns; every other call off the pool header leaves it as fresh as it was.
   */
  lemma StepFreshExact(s: State, c: Call)
    requires |s.d| >= 36 && OffHeader(s, c)
    ensures Fresh(Step(s, c)) <==> FreshAfter(s, c, Fresh(s))
  {
    hide U16, U32, AppendCall, DuplicateCall, OverwriteCall, SetDataCall, ParsePool;
    var s' := Step(s, c);
    match c {
      case Append(v) =>
        if Started(s, c) {
          StartedFreshExact(s, v);
        } else {
          NotStarted(s, c);
          ParseFrame(s.d, s'.d);
        }
      case Duplicate(tag, idx) =>
        DuplicateKeepsHead(s.d, s.cache, tag, idx);
        ParseFrame(s.d, s'.d);
      case Overwrite(i, v) =>
        OverwriteKeepsHead(s.d, s.cache, i, v);
        ParseFrame(s.d, s'.d);
      case SetData(off, v) =>
        SetDataKeepsHead(s.d, off, v);
        ParseFrame(s.d, s'.d);
    }
  }

  /** Whether the cache is fresh at the end of a run: the last append that started returned. */
  predicate FreshAtEnd(s: State, cs: seq<Call>, before: bool)
    requires |s.d| >= 36
    decreases |cs|
  {
    if cs == [] then before else FreshAtEnd(Step(s, cs[0]), cs[1..], FreshAfter(s, cs[0], before))
  }

  predicate AllOffHeader(s: State, cs: seq<Call>)
    requires |s.d| >= 36
    decreases |cs|
  {
    cs == [] || (OffHeader(s, cs[0]) && AllOffHeader(Step(s, cs[0]), cs[1..]))
  }

  /** For every run of calls with any arguments, failing calls included. */
  lemma {:induction false} RunFreshExact(s: State, cs: seq<Call>)
    requires |s.d| >= 36 && AllOffHeader(s, cs)
    ensures Fresh(Run(s, cs)) <==> FreshAtEnd(s, cs, Fresh(s))
    decreases |cs|
  {
    hide U16, U32, Fresh, Step, FreshAfter, OffHeader;
    if cs != [] {
      StepFreshExact(s, cs[0]);
      RunFreshExact(Step(s, cs[0]), cs[1..]);
    }
  }

  /** A header in front of its data stays there, and then only an attribute write can hit it. */
  lemma BehindKeeps(s: State, c: Call)
    requires Behind(s) && Misses(c)
    ensures OffHeader(s, c) && Behind(Step(s, c))
  {
    hide U16, U32, AppendCall, DuplicateCall, OverwriteCall, SetDataCall, ParsePool, Completes;
    var s' := Step(s, c);
    match c {
      case Append(v) =>
        if Started(s, c) {
          StartedFields(s, c);
          ParseOk(s'.d);
        } else {
          NotStarted(s, c);
          ParseFrame(s.d, s'.d);
        }
      case Duplicate(tag, idx) =>
        DuplicateKeepsHead(s.d, s.cache, tag, idx);
        ParseFrame(s.d, s'.d);
      case Overwrite(i, v) =>
        OverwriteKeepsHead(s.d, s.cache, i, v);
        ParseFrame(s.d, s'.d);
      case SetData(off, v) =>
        SetDataKeepsHead(s.d, off, v);
        ParseFrame(s.d, s'.d);
    }
  }

  lemma {:induction false} BehindRun(s: State, cs: seq<Call>)
    requires Behind(s) && forall c <- cs :: Misses(c)
    ensures AllOffHeader(s, cs) && Behind(Run(s, cs))
    decreases |cs|
  {
    hide U16, U32, Fresh, Step, OffHeader, Misses;
    if cs != [] {
      BehindKeeps(s, cs[0]);
      BehindRun(Step(s, cs[0]), cs[1..]);
    }
  }

  /** No append of the run raises after it has started to write the header. */
  predicate NoTornAppend(s: State, cs: seq<Call>)
    requires |s.d| >= 36
    decreases |cs|
  {
    || cs == []
    || ((Started(s, cs[0]) ==> AppendCall(s.d, s.cache, cs[0].value).1.Ok?)
        && NoTornAppend(Step(s, cs[0]), cs[1..]))
  }

  /** Without a torn append, the cached fields equal a fresh parse after every interleaving. */
  lemma {:induction false} RunStaysFresh(s: State, cs: seq<Call>)
    requires |s.d| >= 36 && Fresh(s) && NoTornAppend(s, cs) && AllOffHeader(s, cs)
    ensures Fresh(Run(s, cs))
    decreases |cs|
  {
    hide U16, U32, Fresh, Step, Started, OffHeader, AppendCall;
    if cs != [] {
      StepFreshExact(s, cs[0]);
      RunStaysFresh(Step(s, cs[0]), cs[1..]);
    }
  }

  // An openable file whose outer size field is at its maximum.
  const FULL: seq<byte> :=
    [0x03, 0x00, 0x08, 0x00, 0xFF, 0xFF, 0xFF, 0xFF] +
    [0x01, 0x00, 0x1C, 0x00, 0x1C, 0x00, 0x00, 0x00] +
    [0x00, 0x00, 0x00, 0x00, 0x00, 0x00, 0x00, 0x00] +
    [0x00, 0x00, 0x00, 0x00, 0x1C, 0x00, 0x00, 0x00] +
    [0x00, 0x00, 0x00, 0x00]

  /** The append raises at the last field, after count, size and string start are written: the cache is stale. */
  lemma TornAppendIsStale()
    ensures |FULL| == 36 && ParsePool(FULL).Ok?
    ensures var s := State(FULL, ParsePool(FULL).value);
      Behind(s) && Fresh(s) && AppendCall(FULL, s.cache, []).1 == Err(StructError) && !Fresh(Step(s, Append([])))
  {
    hide U16, U32, AppendCall;
    FullFields();
    ParseOk(FULL);
    var s := State(FULL, ParsePool(FULL).value);
    StepFreshExact(s, Append([]));
    StartedFields(s, Append([]));
  }

  lemma FullFields()
    ensures |FULL| == 36 && U16(FULL, 8) == STRING_POOL && U32(FULL, 4) == TWO_32 - 1
    ensures U32(FULL, 12) == 28 && U32(FULL, 16) == 0 && U32(FULL, 28) == 28
    ensures ParsePool(FULL).Ok? && !ParsePool(FULL).value.isUtf8
  {
    assert FULL[4] == 0xFF && FULL[5] == 0xFF && FULL[6] == 0xFF && FULL[7] == 0xFF;
    assert FULL[8] == 1 && FULL[9] == 0 && FULL[12] == 28 && FULL[13] == 0 && FULL[14] == 0 && FULL[15] == 0;
    assert forall i :: 16 <= i < 28 ==> FULL[i] == 0;
    assert FULL[28] == 28 && FULL[29] == 0 && FULL[30] == 0 && FULL[31] == 0;
    assert U32(FULL, 24) == 0;
  }
}

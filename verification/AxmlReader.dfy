/**
 What the binary XML patcher reads, on any bytes at all: every `struct` read past the end of the
 buffer is an error, every slice is clamped.
 */
module AxmlReader {
  import opened Wrappers
  import opened Bytes
  import opened Utf16

  const STRING_POOL := 0x0001
  const START_ELEMENT := 0x0102
  const END_ELEMENT := 0x0103

  /** The cached fields of the patcher. */
  datatype PoolHeader = PoolHeader(
    size: nat, stringCount: nat, isUtf8: bool, stringsStartAbs: nat, offsetsOff: nat, nextChunkOff: nat)

  datatype StringRead = StringRead(text: text, base: nat, length: nat)

  datatype StartElement = StartElement(off: int, nameIdx: nat, arrOff: int, attrCount: nat, attrSize: nat)

  datatype Attr = Attr(recOff: nat, ns: int, nameIdx: nat, rawValue: int, valType: byte, valData: nat, dataOff: nat)

  datatype Leaf = Leaf(startOff: nat, startSize: nat, endOff: nat, endSize: nat)

  /** The string pool header, which is expected right behind the 8-byte file header. */
  function ParsePool(d: seq<byte>): Result<PoolHeader, Error> {
    var kind :- TryU16(d, 8);
    if kind != STRING_POOL then Err(AssertionError)
    else
      var headerSize :- TryU16(d, 10);
      var size :- TryU32(d, 12);
      var count :- TryU32(d, 16);
      var _ :- TryU32(d, 20);
      var flags :- TryU32(d, 24);
      var stringsStart :- TryU32(d, 28);
      var _ :- TryU32(d, 32);
      Ok(PoolHeader(size, count, flags / 0x100 % 2 == 1, 8 + stringsStart, 8 + headerSize, 8 + size))
  }

  function ReadString(d: seq<byte>, h: PoolHeader, index: nat): Result<StringRead, Error> {
    var rel :- TryU32(d, h.offsetsOff + 4 * index);
    var base := h.stringsStartAbs + rel;
    var length :- TryU16(d, base);
    var decoded := Decode(Slice(d, base + 2, base + 2 + 2 * length));
    if decoded.None? then Err(UnicodeError) else Ok(StringRead(decoded.value, base, length))
  }

  /** Type and size of the chunk at `off`; the header size in between is read and dropped. */
  function ReadHeader(d: seq<byte>, off: nat): Result<(nat, nat), Error> {
    var kind :- TryU16(d, off);
    var _ :- TryU16(d, off + 2);
    var size :- TryU32(d, off + 4);
    Ok((kind, size))
  }

  /** The fields of a START chunk that the walk yields. */
  function ReadStart(d: seq<byte>, off: nat): Result<StartElement, Error> {
    var _ :- TryU32(d, off + 16);
    var nameIdx :- TryU32(d, off + 20);
    var attrStart :- TryU16(d, off + 24);
    var attrSize :- TryU16(d, off + 26);
    var attrCount :- TryU16(d, off + 28);
    Ok(StartElement(off, nameIdx, off + 16 + attrStart, attrCount, attrSize))
  }

  /** One turn of the walk: what it yields, and how far it moves (0 to stop). */
  function WalkStep(d: seq<byte>, off: nat): Result<(seq<StartElement>, nat), Error> {
    var (kind, size) :- ReadHeader(d, off);
    if size == 0 || kind != START_ELEMENT then Ok(([], size))
    else
      var e :- ReadStart(d, off);
      Ok(([e], size))
  }

  /** The walk over the chunks from `off`: all START elements, or the error that ends it. */
  function StartElements(d: seq<byte>, off: nat): Result<seq<StartElement>, Error>
    decreases |d| - off
  {
    if off >= |d| then Ok([])
    else
      var (first, size) :- WalkStep(d, off);
      if size == 0 then Ok([])
      else
        var rest :- StartElements(d, off + size);
        Ok(first + rest)
  }

  /** The first START chunk named `tag` that is directly followed by an END chunk. */
  function FindLeaf(d: seq<byte>, h: PoolHeader, off: nat, tag: text): Result<Leaf, Error>
    decreases |d| - off
  {
    if off >= |d| then Err(ValueError)
    else
      var (kind, size) :- ReadHeader(d, off);
      if size == 0 then Err(ValueError)
      else if kind != START_ELEMENT then FindLeaf(d, h, off + size, tag)
      else
        var e :- ReadStart(d, off);
        var name :- ReadString(d, h, e.nameIdx);
        if name.text != tag then FindLeaf(d, h, off + size, tag)
        else
          var endKind :- TryU16(d, off + size);
          if endKind != END_ELEMENT then FindLeaf(d, h, off + size, tag)
          else
            var endSize :- TryU32(d, off + size + 4);
            Ok(Leaf(off, size, off + size, endSize))
  }

  function GetAttr(d: seq<byte>, arrOff: nat, i: nat, attrSize: nat): Result<Attr, Error> {
    var rec := arrOff + i * attrSize;
    var ns :- TryU32(d, rec);
    var nameIdx :- TryU32(d, rec + 4);
    var raw :- TryU32(d, rec + 8);
    var _ :- TryU16(d, rec + 12);
    if rec + 16 > |d| then Err(StructError)
    else
      var valData :- TryU32(d, rec + 16);
      Ok(Attr(rec, Signed(ns), nameIdx, Signed(raw), d[rec + 15], valData, rec + 16))
  }

  /** The parse, byte by byte: the kind of the chunk, then its header fields; UTF-8 is bit 8 of the flags. */
  lemma ParsePoolExact(d: seq<byte>)
    ensures ParsePool(d).Ok? <==> |d| >= 36 && d[8] == 0x01 && d[9] == 0x00
    ensures ParsePool(d) == Err(AssertionError) <==> |d| >= 10 && !(d[8] == 0x01 && d[9] == 0x00)
    ensures ParsePool(d) == Err(StructError) <==> |d| < 10 || (|d| < 36 && d[8] == 0x01 && d[9] == 0x00)
    ensures ParsePool(d).Ok? ==> var h := ParsePool(d).value;
      && h.size == U32(d, 12) && h.stringCount == U32(d, 16) && (h.isUtf8 <==> d[25] % 2 == 1)
      && h.stringsStartAbs == 8 + U32(d, 28) && h.offsetsOff == 8 + U16(d, 10) && h.nextChunkOff == 8 + U32(d, 12)
  {
  }

  /** One turn of the walk over a whole chunk header: kind 0102 yields the fields of the element. */
  lemma WalkStepExact(d: seq<byte>, off: nat)
    requires off + 30 <= |d|
    ensures WalkStep(d, off) == Ok((
      if d[off] == 0x02 && d[off + 1] == 0x01 && U32(d, off + 4) != 0
      then [StartElement(off, U32(d, off + 20), off + 16 + U16(d, off + 24), U16(d, off + 28), U16(d, off + 26))]
      else [],
      U32(d, off + 4)))
  {
  }

  /** Where the walk and the search end: behind the buffer, inside a header, or at a chunk of size 0. */
  lemma WalkEnds(d: seq<byte>, h: PoolHeader, off: nat, tag: text)
    ensures off >= |d| ==> StartElements(d, off) == Ok([]) && FindLeaf(d, h, off, tag) == Err(ValueError)
    ensures off < |d| < off + 8 ==>
      StartElements(d, off) == Err(StructError) && FindLeaf(d, h, off, tag) == Err(StructError)
    ensures off + 8 <= |d| && U32(d, off + 4) == 0 ==>
      StartElements(d, off) == Ok([]) && FindLeaf(d, h, off, tag) == Err(ValueError)
    ensures off + 30 <= |d| && U32(d, off + 4) != 0 ==>
      var rest, first := StartElements(d, off + U32(d, off + 4)), WalkStep(d, off).value.0;
      StartElements(d, off) == if rest.Err? then rest else Ok(first + rest.value)
  {
    WalkStepReads(d, off);
  }

  lemma WalkStepReads(d: seq<byte>, off: nat)
    ensures off + 30 <= |d| ==> WalkStep(d, off).Ok? && WalkStep(d, off).value.1 == U32(d, off + 4)
    ensures off + 8 <= |d| && U32(d, off + 4) == 0 ==> WalkStep(d, off) == Ok(([], 0))
    ensures off < |d| < off + 8 ==> WalkStep(d, off) == Err(StructError)
  {
  }

  /** String `index`: where its table entry, its length and its units are, and which error comes first. */
  lemma ReadStringExact(d: seq<byte>, h: PoolHeader, index: nat)
    ensures var r, at := ReadString(d, h, index), h.offsetsOff + 4 * index;
      && (at + 4 > |d| ==> r == Err(StructError))
      && (at + 4 <= |d| ==> var base := h.stringsStartAbs + U32(d, at);
            && (base + 2 > |d| ==> r == Err(StructError))
            && (base + 2 <= |d| ==>
                  var end := base + 2 + 2 * U16(d, base);
                  var units := d[base + 2..if end <= |d| then end else |d|];
                  r == if Decode(units).None? then Err(UnicodeError)
                       else Ok(StringRead(Decode(units).value, base, U16(d, base)))))
  {
    hide U16, U32, Decode;
    var at := h.offsetsOff + 4 * index;
    if at + 4 <= |d| && h.stringsStartAbs + U32(d, at) + 2 <= |d| {
      var base := h.stringsStartAbs + U32(d, at);
      var end := base + 2 + 2 * U16(d, base);
      assert Slice(d, base + 2, end) == d[base + 2..if end <= |d| then end else |d|];
    }
  }

  /** The fields of an attribute record; an absent namespace or raw value, FFFFFFFF, reads as -1. */
  lemma GetAttrExact(d: seq<byte>, arrOff: nat, i: nat, attrSize: nat)
    ensures var rec, r := arrOff + i * attrSize, GetAttr(d, arrOff, i, attrSize);
      && (r.Ok? <==> rec + 20 <= |d|) && (r.Err? ==> r == Err(StructError))
      && (r.Ok? ==>
            && var a := r.value;
            && a.recOff == rec && a.dataOff == rec + 16
            && a.nameIdx == U32(d, rec + 4) && a.valType == d[rec + 15] && a.valData == U32(d, rec + 16)
            && (U32(d, rec) == 0xFFFF_FFFF ==> a.ns == -1)
            && (U32(d, rec) < 0x8000_0000 ==> a.ns == U32(d, rec))
            && (U32(d, rec + 8) == 0xFFFF_FFFF ==> a.rawValue == -1)
            && (U32(d, rec + 8) < 0x8000_0000 ==> a.rawValue == U32(d, rec + 8)))
  {
    hide U16, U32;
    var rec := arrOff + i * attrSize;
    if rec + 20 <= |d| {
      U32Bound(d, rec);
      U32Bound(d, rec + 8);
    }
  }

  function Moved(e: StartElement, k: int): StartElement {
    e.(off := e.off + k, arrOff := e.arrOff + k)
  }

  /** The same elements, found `k` bytes further on. */
  function Shifted(es: seq<StartElement>, k: int): seq<StartElement> {
    seq(|es|, i requires 0 <= i < |es| => Moved(es[i], k))
  }

  /** One turn of the walk reads the same in front of equal tails. */
  lemma SameStep(d: seq<byte>, off: nat, d': seq<byte>, off': nat)
    requires off <= |d| && off' <= |d'| && d[off..] == d'[off'..]
    ensures WalkStep(d, off).Err? ==> WalkStep(d', off') == WalkStep(d, off)
    ensures WalkStep(d, off).Ok? ==>
      WalkStep(d', off') == Ok((Shifted(WalkStep(d, off).value.0, off' - off), WalkStep(d, off).value.1))
  {
    hide U16, U32;
    var n := |d| - off;
    assert |d[off..]| == n == |d'[off'..]|;
    assert d[off..off + n] == d[off..] == d'[off'..off' + n];
    SameRead(d, off, d', off', n, 0);
    SameRead(d, off, d', off', n, 4);
    SameRead(d, off, d', off', n, 20);
    SameRead(d, off, d', off', n, 24);
    SameRead(d, off, d', off', n, 26);
    SameRead(d, off, d', off', n, 28);
    if WalkStep(d, off).Ok? {
      assert WalkStep(d', off').Ok?;
      assert WalkStep(d', off').value.0 == Shifted(WalkStep(d, off).value.0, off' - off);
    }
  }

  /**
   The walk reads nothing in front of its position: over equal tails it yields equal elements, shifted
   by the distance between the tails, and fails in the same way. On any bytes.
   */
  lemma {:induction false} WalkCommutesWithGrowth(d: seq<byte>, off: nat, d': seq<byte>, off': nat)
    requires off <= |d| && off' <= |d'| && d[off..] == d'[off'..]
    ensures StartElements(d', off')
         == if StartElements(d, off).Err? then StartElements(d, off)
            else Ok(Shifted(StartElements(d, off).value, off' - off))
    decreases |d| - off
  {
    hide WalkStep;
    assert |d[off..]| == |d'[off'..]|;
    SameStep(d, off, d', off');
    assert Shifted([], off' - off) == [];
    if off < |d| && WalkStep(d, off).Ok? && WalkStep(d, off).value.1 != 0 {
      var (first, size) := WalkStep(d, off).value;
      if off + size <= |d| {
        assert d[off + size..] == d[off..][size..] == d'[off'..][size..] == d'[off' + size..];
        WalkCommutesWithGrowth(d, off + size, d', off' + size);
      }
      var rest := StartElements(d, off + size);
      if rest.Ok? {
        assert Shifted(first + rest.value, off' - off)
            == Shifted(first, off' - off) + Shifted(rest.value, off' - off);
      }
    }
  }
}

/**
 Python text and its UTF-16-LE codec. A Python string is a sequence of code points; its `len` counts
 code points, not the 16-bit units a string pool stores.
 */
module Utf16 {
  import opened Wrappers
  import opened Bytes

  type codepoint = x: int | 0 <= x < 0x11_0000
  type text = seq<codepoint>

  predicate IsSurrogate(c: int) {
    0xD800 <= c < 0xE000
  }

  /** `encode("utf-16-le")` succeeds: no lone surrogate. */
  predicate Encodable(v: text) {
    forall i :: 0 <= i < |v| ==> !IsSurrogate(v[i])
  }

  /** Every code point is in the Basic Multilingual Plane, so it takes one 16-bit unit. */
  predicate Bmp(v: text) {
    forall i :: 0 <= i < |v| ==> v[i] < 0x1_0000
  }

  function EncodeOne(c: codepoint): (b: seq<byte>)
    ensures |b| == if c < 0x1_0000 then 2 else 4
  {
    if c < 0x1_0000 then Le16(c)
    else Le16(0xD800 + (c - 0x1_0000) / 0x400) + Le16(0xDC00 + (c - 0x1_0000) % 0x400)
  }

  function Encode(v: text): (b: seq<byte>) {
    if v == [] then [] else EncodeOne(v[0]) + Encode(v[1..])
  }

  /** `decode("utf-16-le")`; `None` is the `UnicodeDecodeError`. */
  function Decode(b: seq<byte>): Option<text> {
    if b == [] then Some([])
    else if |b| < 2 then None
    else
      var u := U16(b, 0);
      if !IsSurrogate(u) then
        var rest := Decode(b[2..]);
        if rest.None? then None else Some([u] + rest.value)
      else if u < 0xDC00 && |b| >= 4 && 0xDC00 <= U16(b, 2) < 0xE000 then
        var rest := Decode(b[4..]);
        if rest.None? then None
        else Some([0x1_0000 + 0x400 * (u - 0xD800) + (U16(b, 2) - 0xDC00)] + rest.value)
      else None
  }

  /** The first code point of a decoded buffer, when one starts with `EncodeOne(c)`. */
  lemma DecodeOne(c: codepoint, rest: seq<byte>)
    requires !IsSurrogate(c)
    ensures Decode(EncodeOne(c) + rest)
         == if Decode(rest).None? then None else Some([c] + Decode(rest).value)
  {
    var one := EncodeOne(c);
    var b := one + rest;
    assert b[|one|..] == rest;
    assert forall i :: 0 <= i < |one| ==> b[i] == one[i];
    if c < 0x1_0000 {
      assert U16(b, 0) == U16(one, 0) == c;
    } else {
      var hi, lo := 0xD800 + (c - 0x1_0000) / 0x400, 0xDC00 + (c - 0x1_0000) % 0x400;
      assert U16(b, 0) == U16(Le16(hi), 0) == hi;
      assert U16(b, 2) == U16(Le16(lo), 0) == lo;
    }
  }

  lemma {:induction false} DecodeEncode(v: text)
    requires Encodable(v)
    ensures Decode(Encode(v)) == Some(v)
  {
    if v == [] {
    } else {
      DecodeEncode(v[1..]);
      DecodeOne(v[0], Encode(v[1..]));
      assert v == [v[0]] + v[1..];
    }
  }

  /** Which bytes the first decoded code point came from. */
  lemma DecodeHead(b: seq<byte>) returns (c: codepoint, n: nat)
    requires b != [] && Decode(b).Some?
    ensures 0 < n <= |b| && !IsSurrogate(c) && EncodeOne(c) == b[..n]
    ensures Decode(b[n..]).Some? && Decode(b).value == [c] + Decode(b[n..]).value
  {
    var u := U16(b, 0);
    if !IsSurrogate(u) {
      c, n := u, 2;
    } else {
      c, n := 0x1_0000 + 0x400 * (u - 0xD800) + (U16(b, 2) - 0xDC00), 4;
      assert (c - 0x1_0000) / 0x400 == u - 0xD800;
      assert b[..4] == b[..2] + b[2..4];
    }
  }

  lemma {:induction false} EncodeDecode(b: seq<byte>)
    requires Decode(b).Some?
    ensures Encodable(Decode(b).value) && Encode(Decode(b).value) == b
  {
    if b == [] {
    } else {
      var c, n := DecodeHead(b);
      EncodeDecode(b[n..]);
      assert Decode(b).value[1..] == Decode(b[n..]).value;
      assert b == b[..n] + b[n..];
    }
  }

  lemma {:induction false} EncodedLength(v: text)
    ensures |Encode(v)| >= 2 * |v| && |Encode(v)| % 2 == 0
    ensures |Encode(v)| == 2 * |v| <==> Bmp(v)
  {
    if v == [] {
    } else {
      EncodedLength(v[1..]);
      assert v == [v[0]] + v[1..];
      assert Bmp(v[1..]) && v[0] < 0x1_0000 ==> Bmp(v);
    }
  }

  /**
   A length field of `len(v)` units gives the text back exactly when it is all BMP: beyond the BMP
   the reader stops short of the last units.
   */
  lemma ShortReadExact(v: text)
    requires Encodable(v)
    ensures |Encode(v)| >= 2 * |v|
    ensures Decode(Encode(v)[..2 * |v|]) == Some(v) <==> Bmp(v)
  {
    EncodedLength(v);
    DecodeEncode(v);
    var cut := Encode(v)[..2 * |v|];
    if Bmp(v) {
      assert cut == Encode(v);
    } else if Decode(cut) == Some(v) {
      EncodeDecode(cut);
      assert false;
    }
  }

  /** Surrogates are the code points from D800 to DFFF; none of them encodes, and every other one does. */
  lemma EncodableExact(v: text)
    ensures Encodable(v) <==> forall i :: 0 <= i < |v| ==> v[i] < 0xD800 || 0xDFFF < v[i]
    ensures Bmp(v) <==> forall i :: 0 <= i < |v| ==> v[i] <= 0xFFFF
  {
  }

  /**
   One code point, as section 2.1 of RFC 2781 encodes it, low byte first: up to FFFF as itself, above as
   the high ten bits after D800 and then the low ten bits after DC00, of what is above 10000.
   */
  lemma EncodeOneExact(c: codepoint)
    ensures c <= 0xFFFF ==> |EncodeOne(c)| == 2 && U16(EncodeOne(c), 0) == c
    ensures c > 0xFFFF ==>
      && |EncodeOne(c)| == 4 && 0xD800 <= U16(EncodeOne(c), 0) <= 0xDBFF && 0xDC00 <= U16(EncodeOne(c), 2) <= 0xDFFF
      && 0x1_0000 + 0x400 * (U16(EncodeOne(c), 0) - 0xD800) + (U16(EncodeOne(c), 2) - 0xDC00) == c
  {
    if c > 0xFFFF {
      var hi, lo := 0xD800 + (c - 0x1_0000) / 0x400, 0xDC00 + (c - 0x1_0000) % 0x400;
      var b := EncodeOne(c);
      assert b[..2] == Le16(hi) && b[2..] == Le16(lo);
      assert U16(b, 0) == U16(Le16(hi), 0) && U16(b, 2) == U16(Le16(lo), 0);
    }
  }

  /** U+10345 is D800 DF45, and a lone half of a pair does not decode. */
  lemma PairExample()
    ensures EncodeOne(0x1_0345) == [0x00, 0xD8, 0x45, 0xDF]
    ensures Decode([0x00, 0xD8]) == None && Decode([0x45, 0xDF]) == None && Decode([0x41]) == None
  {
    assert U16([0x00, 0xD8], 0) == 0xD800 && U16([0x45, 0xDF], 0) == 0xDF45;
  }
}

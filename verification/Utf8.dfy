/** The UTF-8 codec that turns symbol names into Python strings (RFC 3629, section 3). */
module Utf8 {
  import opened Wrappers
  import opened Bytes
  import opened Utf16

  predicate Tail(b: byte) {
    0x80 <= b < 0xC0
  }

  /** Bytes of the sequence that starts with `b`, 0 for a byte that starts none. */
  function Length(b: byte): (n: nat)
    ensures n <= 4
  {
    if b < 0x80 then 1 else if 0xC2 <= b < 0xE0 then 2 else if 0xE0 <= b < 0xF0 then 3
    else if 0xF0 <= b < 0xF5 then 4 else 0
  }

  /** The first sequence is whole, and neither overlong, a surrogate, nor above the last code point. */
  predicate Starts(b: seq<byte>)
    requires b != []
  {
    var n := Length(b[0]);
    && 1 <= n <= |b| && (forall i :: 1 <= i < n ==> Tail(b[i]))
    && (b[0] == 0xE0 ==> b[1] >= 0xA0) && (b[0] == 0xED ==> b[1] < 0xA0)
    && (b[0] == 0xF0 ==> b[1] >= 0x90) && (b[0] == 0xF4 ==> b[1] < 0x90)
  }

  /** `decode()` succeeds. */
  predicate IsUtf8(b: seq<byte>) {
    b == [] || (Starts(b) && IsUtf8(b[Length(b[0])..]))
  }

  function One(c: codepoint): (b: seq<byte>)
    ensures 1 <= |b| <= 4
  {
    if c < 0x80 then [c]
    else if c < 0x800 then [0xC0 + c / 0x40, 0x80 + c % 0x40]
    else if c < 0x1_0000 then [0xE0 + c / 0x1000, 0x80 + c / 0x40 % 0x40, 0x80 + c % 0x40]
    else [0xF0 + c / 0x4_0000, 0x80 + c / 0x1000 % 0x40, 0x80 + c / 0x40 % 0x40, 0x80 + c % 0x40]
  }

  function Utf8(v: text): seq<byte> {
    if v == [] then [] else One(v[0]) + Utf8(v[1..])
  }

  /** The code point the first sequence encodes. */
  function First(b: seq<byte>): (c: int)
    requires b != [] && Starts(b)
  {
    var n, lead: int := Length(b[0]), b[0];
    if n == 1 then lead
    else if n == 2 then Join(lead - 0xC0, b[1])
    else if n == 3 then Join(Join(lead - 0xE0, b[1]), b[2])
    else Join(Join(Join(lead - 0xF0, b[1]), b[2]), b[3])
  }

  /** Six more bits. */
  function Join(hi: int, b: byte): (c: int)
    ensures Tail(b) ==> hi * 0x40 <= c < hi * 0x40 + 0x40 && c / 0x40 == hi && c % 0x40 == b as int - 0x80
  {
    hi * 0x40 + (b as int - 0x80)
  }

  lemma Two(x: byte, y: byte)
    requires 0xC2 <= x < 0xE0 && Tail(y)
    ensures var c := Join(x as int - 0xC0, y); 0x80 <= c < 0x800 && One(c) == [x, y]
  {
  }

  lemma Three(x: byte, y: byte, z: byte)
    requires 0xE0 <= x < 0xF0 && Tail(y) && Tail(z) && (x == 0xE0 ==> y >= 0xA0) && (x == 0xED ==> y < 0xA0)
    ensures var c := Join(Join(x as int - 0xE0, y), z);
      0x800 <= c < 0x1_0000 && !IsSurrogate(c) && One(c) == [x, y, z]
  {
    var hi: int := x as int - 0xE0;
    var mid := Join(hi, y);
    var c := Join(mid, z);
    assert mid == hi * 0x40 + (y as int - 0x80);
    hide Join;
    assert 0x20 <= mid < 0x400 && !(0x360 <= mid < 0x380);
    assert c / 0x1000 == mid / 0x40 == hi;
  }

  lemma Four(x: byte, y: byte, z: byte, w: byte)
    requires 0xF0 <= x < 0xF5 && Tail(y) && Tail(z) && Tail(w)
    requires (x == 0xF0 ==> y >= 0x90) && (x == 0xF4 ==> y < 0x90)
    ensures var c := Join(Join(Join(x as int - 0xF0, y), z), w);
      0x1_0000 <= c < 0x11_0000 && One(c) == [x, y, z, w]
  {
    var hi := Join(x as int - 0xF0, y);
    var mid := Join(hi, z);
    var c := Join(mid, w);
    hide Join;
    assert 0x10 <= hi < 0x110;
    assert c / 0x1000 == hi && c / 0x4_0000 == hi / 0x40;
  }

  /** The first sequence is the one encoding of a code point that is no surrogate. */
  lemma FirstOne(b: seq<byte>)
    requires b != [] && Starts(b)
    ensures 0 <= First(b) < 0x11_0000 && !IsSurrogate(First(b)) && One(First(b)) == b[..Length(b[0])]
  {
    var n := Length(b[0]);
    if n == 2 {
      Two(b[0], b[1]);
    } else if n == 3 {
      Three(b[0], b[1], b[2]);
    } else if n == 4 {
      Four(b[0], b[1], b[2], b[3]);
    }
  }

  lemma OneStarts(c: codepoint, rest: seq<byte>)
    requires !IsSurrogate(c)
    ensures Starts(One(c) + rest) && Length(One(c)[0]) == |One(c)|
  {
  }

  lemma {:induction false} EncodedIsUtf8(v: text)
    requires Encodable(v)
    ensures IsUtf8(Utf8(v))
  {
    if v != [] {
      EncodedIsUtf8(v[1..]);
      OneStarts(v[0], Utf8(v[1..]));
      var b := Utf8(v);
      assert b[|One(v[0])|..] == Utf8(v[1..]);
    }
  }

  /** The text that bytes decode to. */
  lemma {:induction false} Decoded(b: seq<byte>) returns (v: text)
    requires IsUtf8(b)
    ensures Encodable(v) && Utf8(v) == b
  {
    hide Starts, First, Length, One;
    v := [];
    if b != [] {
      var n := Length(b[0]);
      FirstWhole(b);
      FirstOne(b);
      var rest := Decoded(b[n..]);
      v := [First(b)] + rest;
      assert v[1..] == rest;
      assert b == b[..n] + b[n..];
    }
  }

  lemma FirstWhole(b: seq<byte>)
    requires b != [] && Starts(b)
    ensures Length(b[0]) <= |b|
  {
  }

  /** The bytes that decode are exactly the encodings of texts without surrogates. */
  lemma IsUtf8Exact(b: seq<byte>)
    ensures IsUtf8(b) <==> exists v: text :: Encodable(v) && Utf8(v) == b
  {
    hide IsUtf8, Utf8, Encodable;
    if IsUtf8(b) {
      var v := Decoded(b);
    }
    forall v: text | Encodable(v) && Utf8(v) == b
      ensures IsUtf8(b)
    {
      EncodedIsUtf8(v);
    }
  }

  lemma {:induction false} AsciiIsUtf8(b: seq<byte>)
    requires forall c <- b :: c < 0x80
    ensures IsUtf8(b)
  {
    if b != [] {
      assert b[0] in b && forall c <- b[1..] :: c in b;
      AsciiIsUtf8(b[1..]);
    }
  }

  /** The boundary code points of section 3 of RFC 3629, one for each length, and what is not allowed. */
  lemma OneExamples()
    ensures One(0x7F) == [0x7F] && One(0x80) == [0xC2, 0x80] && One(0x7FF) == [0xDF, 0xBF]
    ensures One(0x800) == [0xE0, 0xA0, 0x80] && One(0x20AC) == [0xE2, 0x82, 0xAC] && One(0xFFFF) == [0xEF, 0xBF, 0xBF]
    ensures One(0x1_0000) == [0xF0, 0x90, 0x80, 0x80] && One(0x10_FFFF) == [0xF4, 0x8F, 0xBF, 0xBF]
    ensures !IsUtf8([0x80]) && !IsUtf8([0xC0, 0x80]) && !IsUtf8([0xE0, 0x80, 0x80]) && !IsUtf8([0xED, 0xA0, 0x80])
    ensures !IsUtf8([0xF4, 0x90, 0x80, 0x80]) && !IsUtf8([0xC2])
  {
  }
}

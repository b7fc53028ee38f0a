/** Which stub each imported symbol has: `.rela.plt` in order, one fixed-size stub per entry. */
module PltLayout {
  import opened Arithmetic
  import opened Wrappers
  import opened Bytes
  import opened Utf8

  /** A symbol name as its bytes in `.dynstr`, which stand for a text when they are UTF-8. */
  type Name = seq<byte>

  datatype PltError = OutOfRange | Unterminated | NotUtf8

  /** File offsets of the dynamic symbol and string tables and of `.rela.plt`, and where `.plt` is loaded. */
  datatype Layout = Layout(dynsymOff: nat, dynstrOff: nat, relaOff: nat, relaSize: nat, pltAddr: nat, pltSize: nat)

  const PLT_HEADER := 0x20
  const ENTRY := 24

  /** `elf.index(b"\0", o)`. */
  function ZeroFrom(elf: seq<byte>, o: nat): (r: Option<nat>)
    ensures r.Some? ==> o <= r.value < |elf| && elf[r.value] == 0 && forall k :: o <= k < r.value ==> elf[k] != 0
    ensures r.None? ==> forall k :: o <= k < |elf| ==> elf[k] != 0
    decreases |elf| - o
  {
    if o >= |elf| then None else if elf[o] == 0 then Some(o) else ZeroFrom(elf, o + 1)
  }

  function NameFrom(elf: seq<byte>, start: nat): Result<Name, PltError> {
    var end := ZeroFrom(elf, start);
    if end.None? then Err(Unterminated)
    else if !IsUtf8(elf[start..end.value]) then Err(NotUtf8)
    else Ok(elf[start..end.value])
  }

  /** The symbol name of relocation entry `i`. */
  function EntryName(elf: seq<byte>, l: Layout, i: nat): Result<Name, PltError> {
    var info := l.relaOff + i * ENTRY + 8;
    if info + 8 > |elf| then Err(OutOfRange)
    else
      var sym := l.dynsymOff + U32(elf, info + 4) * ENTRY;
      if sym + 4 > |elf| then Err(OutOfRange)
      else
        var start := l.dynstrOff + U32(elf, sym);
        NameFrom(elf, start)
  }

  /** A name is the zero-free UTF-8 bytes between its start in the string table and its terminator. */
  lemma EntryNameExact(elf: seq<byte>, l: Layout, i: nat, n: Name)
    ensures EntryName(elf, l, i) == Ok(n) <==>
      var info := l.relaOff + i * ENTRY + 8;
      && info + 8 <= |elf| && l.dynsymOff + U32(elf, info + 4) * ENTRY + 4 <= |elf|
      && var start := l.dynstrOff + U32(elf, l.dynsymOff + U32(elf, info + 4) * ENTRY);
      && start + |n| < |elf| && elf[start..start + |n|] == n && elf[start + |n|] == 0 && 0 !in n && IsUtf8(n)
  {
    hide U16, U32, IsUtf8, NameFrom;
    var info := l.relaOff + i * ENTRY + 8;
    if info + 8 <= |elf| && l.dynsymOff + U32(elf, info + 4) * ENTRY + 4 <= |elf| {
      var start := l.dynstrOff + U32(elf, l.dynsymOff + U32(elf, info + 4) * ENTRY);
      NameAt(elf, start, n);
    }
  }

  lemma NameAt(elf: seq<byte>, start: nat, n: Name)
    ensures NameFrom(elf, start) == Ok(n) <==>
      start + |n| < |elf| && elf[start..start + |n|] == n && elf[start + |n|] == 0 && 0 !in n && IsUtf8(n)
  {
    hide ZeroFrom, IsUtf8;
    var z := ZeroFrom(elf, start);
    if start + |n| < |elf| && elf[start..start + |n|] == n && elf[start + |n|] == 0 && 0 !in n {
      forall k | start <= k < start + |n|
        ensures elf[k] != 0
      {
        assert elf[start..start + |n|][k - start] == elf[k] && n[k - start] in n;
      }
    }
    if z.Some? && elf[start..z.value] == n {
      forall b | b in n
        ensures b != 0
      {
        var k :| 0 <= k < |n| && n[k] == b;
        assert elf[start + k] == elf[start..z.value][k];
      }
    }
  }

  /** Floor division by the number of entries, or by 1 when there are none. */
  function Stub(pltSize: nat, n: nat): int {
    (pltSize - PLT_HEADER) / (if n == 0 then 1 else n)
  }

  /** The stub size; without entries the whole section behind its header counts as one. */
  lemma StubExact(pltSize: nat, n: nat)
    ensures n == 0 ==> Stub(pltSize, n) == pltSize - 32
    ensures n > 0 ==> n * Stub(pltSize, n) <= pltSize - 32 < n * Stub(pltSize, n) + n
  {
  }

  /** A dictionary built in order: a repeated name keeps its last address. */
  function Addresses(names: seq<Name>, base: int, stub: int): map<Name, int> {
    if names == [] then map[]
    else
      var n := |names| - 1;
      Addresses(names[..n], base, stub)[names[n] := base + n * stub]
  }

  method PltTargets(elf: seq<byte>, l: Layout) returns (r: Result<(seq<Name>, map<Name, int>), PltError>)
    ensures r.Ok? <==> forall i: nat :: i < l.relaSize / ENTRY ==> EntryName(elf, l, i).Ok?
    ensures r.Ok? ==>
      var (names, plt) := r.value;
      && |names| == l.relaSize / ENTRY
      && (forall i: nat :: i < |names| ==> EntryName(elf, l, i) == Ok(names[i]))
      && plt == Addresses(names, l.pltAddr + PLT_HEADER, Stub(l.pltSize, |names|))
  {
    hide EntryName;
    var names := [];
    var i := 0;
    while i < l.relaSize / ENTRY
      invariant 0 <= i <= l.relaSize / ENTRY && |names| == i
      invariant forall k: nat :: k < i ==> EntryName(elf, l, k) == Ok(names[k])
    {
      var name := EntryName(elf, l, i);
      if name.Err? {
        return Err(name.error);
      }
      names := names + [name.value];
      i := i + 1;
    }
    var stub := Stub(l.pltSize, |names|);
    var plt: map<Name, int> := map[];
    i := 0;
    while i < |names|
      invariant 0 <= i <= |names|
      invariant plt == Addresses(names[..i], l.pltAddr + PLT_HEADER, stub)
    {
      assert names[..i + 1][..i] == names[..i];
      plt := plt[names[i] := l.pltAddr + PLT_HEADER + i * stub];
      i := i + 1;
    }
    assert names[..|names|] == names;
    return Ok((names, plt));
  }

  /** Each name's address is that of its last entry. */
  lemma {:induction false} AddressOf(names: seq<Name>, base: int, stub: int, i: nat)
    requires i < |names| && forall j :: i < j < |names| ==> names[j] != names[i]
    ensures names[i] in Addresses(names, base, stub) && Addresses(names, base, stub)[names[i]] == base + i * stub
  {
    if i < |names| - 1 {
      AddressOf(names[..|names| - 1], base, stub, i);
    }
  }

  lemma {:induction false} AddressesKeys(names: seq<Name>, base: int, stub: int)
    ensures forall n :: n in Addresses(names, base, stub) <==> n in names
  {
    if names != [] {
      AddressesKeys(names[..|names| - 1], base, stub);
      assert names == names[..|names| - 1] + [names[|names| - 1]];
    }
  }

  /** The last entry of a name. */
  lemma {:induction false} LastOf(names: seq<Name>, a: Name) returns (i: nat)
    requires a in names
    ensures i < |names| && names[i] == a && forall j :: i < j < |names| ==> names[j] != a
  {
    i := |names| - 1;
    if names[i] != a {
      i := LastOf(names[..i], a);
    }
  }

  /**
   The layout is recovered from the section size alone: for `n` entries of any stub size `s`, a name gets
   the stub of its last entry, different names get different stubs, and every stub lies inside `.plt`.
   */
  lemma LayoutRecovered(names: seq<Name>, pltAddr: nat, pltSize: nat, s: nat)
    requires names != [] && s > 0 && pltSize == PLT_HEADER + |names| * s
    ensures Stub(pltSize, |names|) == s
    ensures var plt := Addresses(names, pltAddr + PLT_HEADER, s);
      && (forall a :: a in plt <==> a in names)
      && (forall i: nat :: i < |names| && (forall j :: i < j < |names| ==> names[j] != names[i]) ==>
            plt[names[i]] == pltAddr + PLT_HEADER + i * s)
      && (forall a :: a in plt ==> pltAddr + PLT_HEADER <= plt[a] && plt[a] + s <= pltAddr + pltSize)
      && (forall a, b :: a in plt && b in plt && a != b ==> plt[a] + s <= plt[b] || plt[b] + s <= plt[a])
  {
    hide Addresses;
    var base := pltAddr + PLT_HEADER;
    QuotientIs(pltSize - PLT_HEADER, |names|, s);
    AddressesKeys(names, base, s);
    forall i: nat | i < |names| && forall j :: i < j < |names| ==> names[j] != names[i]
      ensures Addresses(names, base, s)[names[i]] == base + i * s
    {
      AddressOf(names, base, s, i);
    }
    forall a | a in names
      ensures base <= Addresses(names, base, s)[a] && Addresses(names, base, s)[a] + s <= base + |names| * s
    {
      StubInside(names, base, s, a);
    }
    forall a, b | a in names && b in names && a != b
      ensures Addresses(names, base, s)[a] + s <= Addresses(names, base, s)[b]
           || Addresses(names, base, s)[b] + s <= Addresses(names, base, s)[a]
    {
      StubsApart(names, base, s, a, b);
    }
  }

  lemma StubInside(names: seq<Name>, base: int, s: nat, a: Name)
    requires a in names
    ensures var plt := Addresses(names, base, s);
      a in plt && base <= plt[a] && plt[a] + s <= base + |names| * s
  {
    hide Addresses;
    var i := LastOf(names, a);
    AddressOf(names, base, s, i);
    MultiplesApart(s, i, |names|);
  }

  lemma StubsApart(names: seq<Name>, base: int, s: nat, a: Name, b: Name)
    requires a in names && b in names && a != b
    ensures var plt := Addresses(names, base, s);
      a in plt && b in plt && (plt[a] + s <= plt[b] || plt[b] + s <= plt[a])
  {
    hide Addresses;
    var i := LastOf(names, a);
    var j := LastOf(names, b);
    AddressOf(names, base, s, i);
    AddressOf(names, base, s, j);
    if i < j {
      MultiplesApart(s, i, j);
    } else {
      MultiplesApart(s, j, i);
    }
  }
}

/** The section header table of an ELF64 file, as far as the patcher walks it: names, positions and sizes. */
module ElfSections {
  import opened Wrappers
  import opened Bytes
  import opened A64
  import opened PltLayout

  /** The position of the table, the size and number of its entries, and the position of their names. */
  datatype Table = Table(off: nat, entry: nat, count: nat, names: nat)

  function U64(b: seq<byte>, o: nat): nat
    requires o + 8 <= |b|
  {
    U32(b, o) + TWO_32 * U32(b, o + 4)
  }

  /** Eight bytes, low one first. */
  lemma U64Exact(b: seq<byte>, o: nat)
    requires o + 8 <= |b|
    ensures U64(b, o)
      == b[o] as int + 0x100 * b[o + 1] as int + 0x1_0000 * b[o + 2] as int + 0x100_0000 * b[o + 3] as int
      + 0x1_0000_0000 * b[o + 4] as int + 0x100_0000_0000 * b[o + 5] as int
      + 0x1_0000_0000_0000 * b[o + 6] as int + 0x100_0000_0000_0000 * b[o + 7] as int
  {
  }

  /** Name position, address, file offset and size of one table entry. */
  function HeaderAt(elf: seq<byte>, off: nat, entry: nat, i: nat): Result<(nat, Section), PltError> {
    var b := off + i * entry;
    if b + 0x28 > |elf| then Err(OutOfRange)
    else Ok((U32(elf, b), Section(U64(elf, b + 0x10), U64(elf, b + 0x18), U64(elf, b + 0x20))))
  }

  function TableOf(elf: seq<byte>): Result<Table, PltError> {
    if |elf| < 0x40 then Err(OutOfRange)
    else
      var off, entry := U64(elf, 0x28), U16(elf, 0x3A);
      var names :- HeaderAt(elf, off, entry, U16(elf, 0x3E));
      Ok(Table(off, entry, U16(elf, 0x3C), names.1.off))
  }

  /** Which bytes an entry at `b` is read from: 40 of them. */
  ghost predicate ReadAt(elf: seq<byte>, b: nat, r: Result<(nat, Section), PltError>) {
    if b + 40 > |elf| then r == Err(OutOfRange)
    else r == Ok((U32(elf, b), Section(U64(elf, b + 16), U64(elf, b + 24), U64(elf, b + 32))))
  }

  /** Entry `i` of a table is `i` entry sizes behind its start. */
  lemma HeaderExact(elf: seq<byte>, off: nat, entry: nat, i: nat)
    ensures ReadAt(elf, off + i * entry, HeaderAt(elf, off, entry, i))
  {
    hide U64, U32;
  }

  /** Which bytes of the file header place the table: all 64 have to be there, and the names' own entry. */
  lemma TableExact(elf: seq<byte>)
    ensures |elf| < 64 ==> TableOf(elf) == Err(OutOfRange)
    ensures |elf| >= 64 ==>
      var names := HeaderAt(elf, U64(elf, 40), U16(elf, 58), U16(elf, 62));
      TableOf(elf) == if names.Err? then Err(names.error)
                      else Ok(Table(U64(elf, 40), U16(elf, 58), U16(elf, 60), names.value.1.off))
  {
    hide U64, U32, U16, HeaderAt;
  }

  function EntryAt(elf: seq<byte>, t: Table, i: nat): Result<(Name, Section), PltError> {
    var header :- HeaderAt(elf, t.off, t.entry, i);
    var name :- NameFrom(elf, t.names + header.0);
    Ok((name, header.1))
  }

  /** The dictionary of the first `n` entries, or the first error. */
  function SectionsUpTo(elf: seq<byte>, t: Table, n: nat): Result<map<Name, Section>, PltError> {
    if n == 0 then Ok(map[])
    else
      var m :- SectionsUpTo(elf, t, n - 1);
      var e :- EntryAt(elf, t, n - 1);
      Ok(m[e.0 := e.1])
  }

  function Sections(elf: seq<byte>): Result<map<Name, Section>, PltError> {
    var t :- TableOf(elf);
    SectionsUpTo(elf, t, t.count)
  }

  method ReadSections(elf: seq<byte>) returns (r: Result<map<Name, Section>, PltError>)
    ensures r == Sections(elf)
  {
    hide TableOf, EntryAt;
    var t := TableOf(elf);
    if t.Err? {
      return Err(t.error);
    }
    var out: map<Name, Section> := map[];
    var i := 0;
    while i < t.value.count
      invariant 0 <= i <= t.value.count
      invariant SectionsUpTo(elf, t.value, i) == Ok(out)
    {
      var e := EntryAt(elf, t.value, i);
      if e.Err? {
        StuckAt(elf, t.value, i, t.value.count);
        return Err(e.error);
      }
      out := out[e.value.0 := e.value.1];
      i := i + 1;
    }
    return Ok(out);
  }

  /** The first entry that cannot be read ends the walk. */
  lemma {:induction false} StuckAt(elf: seq<byte>, t: Table, i: nat, n: nat)
    requires SectionsUpTo(elf, t, i).Ok? && EntryAt(elf, t, i).Err? && i < n
    ensures SectionsUpTo(elf, t, n) == Err(EntryAt(elf, t, i).error)
    decreases n
  {
    hide EntryAt;
    if i < n - 1 {
      StuckAt(elf, t, i, n - 1);
    }
  }

  /** Entry `i` is called `a` and no later one of the first `n` is. */
  ghost predicate LastNamed(elf: seq<byte>, t: Table, n: nat, a: Name, s: Section, i: nat) {
    && i < n && EntryAt(elf, t, i) == Ok((a, s))
    && forall j: nat :: i < j < n ==> EntryAt(elf, t, j).Ok? && EntryAt(elf, t, j).value.0 != a
  }

  /** The walk succeeds exactly when every entry can be read, and a name means the last entry it has. */
  lemma {:induction false} SectionsExact(elf: seq<byte>, t: Table, n: nat, a: Name, s: Section)
    ensures SectionsUpTo(elf, t, n).Ok? <==> forall i: nat :: i < n ==> EntryAt(elf, t, i).Ok?
    ensures SectionsUpTo(elf, t, n).Ok? ==>
      var m := SectionsUpTo(elf, t, n).value;
      (a in m && m[a] == s <==> exists i: nat :: LastNamed(elf, t, n, a, s, i))
  {
    hide EntryAt;
    if n > 0 {
      SectionsExact(elf, t, n - 1, a, s);
      if SectionsUpTo(elf, t, n).Ok? {
        OneMore(elf, t, n - 1, n, a, s);
      }
    }
  }

  lemma OneMore(elf: seq<byte>, t: Table, n: nat, n': nat, a: Name, s: Section)
    requires EntryAt(elf, t, n).Ok? && n' == n + 1
    ensures (exists i: nat :: LastNamed(elf, t, n', a, s, i)) <==>
      if EntryAt(elf, t, n).value.0 == a then EntryAt(elf, t, n).value.1 == s
      else exists i: nat :: LastNamed(elf, t, n, a, s, i)
  {
    hide EntryAt;
    var e := EntryAt(elf, t, n).value;
    if e.0 == a {
      assert e.1 == s ==> LastNamed(elf, t, n', a, s, n);
    } else {
      assert forall i: nat :: LastNamed(elf, t, n, a, s, i) <==> LastNamed(elf, t, n', a, s, i);
    }
  }

  function Ascii(s: string): (b: seq<byte>)
    ensures |b| == |s|
  {
    seq(|s|, i requires 0 <= i < |s| => s[i] as int % 0x100)
  }

  /** `.text`, and what the stub layout needs of the other sections; `None` when one of them is missing. */
  function Located(secs: map<Name, Section>): Option<(Section, Layout)> {
    if Ascii(".text") in secs && Ascii(".dynsym") in secs && Ascii(".dynstr") in secs
      && Ascii(".rela.plt") in secs && Ascii(".plt") in secs
    then
      var rela, plt := secs[Ascii(".rela.plt")], secs[Ascii(".plt")];
      Some((secs[Ascii(".text")],
            Layout(secs[Ascii(".dynsym")].off, secs[Ascii(".dynstr")].off, rela.off, rela.size, plt.addr, plt.size)))
    else None
  }
}

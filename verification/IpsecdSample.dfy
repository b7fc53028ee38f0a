/**
 A small ELF file that passes every test of the patcher and comes out broken, whichever of its two
 functions is taken for the getter: `paciasp; bl svc; paciasp; bl svc`, where the service import's name
 also matches as a marker.
 */
module IpsecdSample {
  import opened Wrappers
  import opened Bytes
  import opened Utf8
  import opened A64
  import opened PltLayout
  import opened ElfSections
  import opened IpsecdPatch
  import opened Sequences

  // ---------------------------------------------------------------- the file

  // The section header table is at 208: 6 entries of 64 bytes, the last one for the section names.
  const HEADER: seq<byte> :=
    ELF_MAGIC + Zeros(36) + Le32(208) + Zeros(14) + Le16(64) + Le16(6) + Le16(5)

  const CODE: seq<byte> := PACIASP + [0xF7, 0x03, 0x00, 0x94] + PACIASP + [0xF5, 0x03, 0x00, 0x94]
  // two relocations, for symbols 0 and 1
  const RELA: seq<byte> := Zeros(36) + [1] + Zeros(11)
  // the names start at 0 and 39
  const SYMS: seq<byte> := Zeros(24) + [39, 0, 0, 0]

  const SERVICE: Name := Ascii("IProperty") + Ascii("getService") + Ascii("hidl_string5c_strEv")
  const PROPERTY_GET: Name := Ascii("property_get")

  /** A section header of 64 bytes. */
  function Entry(name: nat, s: Section): (b: seq<byte>)
    requires name < TWO_32 && s.addr < TWO_32 && s.off < TWO_32 && s.size < TWO_32
    ensures |b| == 64
  {
    (Le32(name) + Zeros(12)) + (Le32(s.addr) + Zeros(4)) + (Le32(s.off) + Zeros(4)) + (Le32(s.size) + Zeros(28))
  }

  const TEXT := Section(64, 64, 16)
  const DYNSYM := Section(0, 128, 28)
  const DYNSTR := Section(0, 156, 52)
  const RELA_PLT := Section(0, 80, 48)
  const PLT := Section(0x1000, 0, 0x40)
  const NAMES := Section(0, 592, 47)
  const LAYOUT := Layout(128, 156, 80, 48, 0x1000, 0x40)

  const HEADERS: seq<byte> :=
    Entry(0, TEXT) + Entry(6, DYNSYM) + Entry(14, DYNSTR) + Entry(22, RELA_PLT) + Entry(32, PLT) + Entry(37, NAMES)

  const SECTION_NAMES: seq<byte> :=
    (Ascii(".text") + [0]) + (Ascii(".dynsym") + [0]) + (Ascii(".dynstr") + [0])
    + (Ascii(".rela.plt") + [0]) + (Ascii(".plt") + [0]) + (Ascii(".shstrtab") + [0])

  const FRONT: seq<byte> := HEADER + CODE + RELA + SYMS
  const STRINGS: seq<byte> := (SERVICE + [0]) + (PROPERTY_GET + [0])
  const FILE: seq<byte> := FRONT + STRINGS + HEADERS + SECTION_NAMES

  const SVC := 0x1020
  const MARKS := {0x1020, 0x1030}

  // ---------------------------------------------------------------- where the pieces are

  lemma FrontPieces()
    ensures |HEADER| == 64 && |CODE| == 16 && |RELA| == 48 && |SYMS| == 28
    ensures |FRONT| == 156 && FRONT[0..64] == HEADER && FRONT[64..80] == CODE
    ensures FRONT[80..128] == RELA && FRONT[128..156] == SYMS
  {
    hide Zeros, Le16, Le32;
    assert |ELF_MAGIC| == 4 && |HEADER| == 64 && |CODE| == 16 && |RELA| == 48 && |SYMS| == 28;
  }

  lemma StringsPieces()
    ensures |SERVICE| == 38 && |PROPERTY_GET| == 12 && |STRINGS| == 52
    ensures STRINGS[0..38] == SERVICE && STRINGS[38] == 0 && STRINGS[39..51] == PROPERTY_GET && STRINGS[51] == 0
  {
    hide Ascii;
    assert |SERVICE| == 38 && |PROPERTY_GET| == 12;
  }

  lemma FilePieces()
    ensures |HEADERS| == 384 && |SECTION_NAMES| == 47 && |FILE| == 639
    ensures FILE[0..156] == FRONT && FILE[156..208] == STRINGS
    ensures FILE[208..592] == HEADERS && FILE[592..639] == SECTION_NAMES
  {
    hide Entry, Ascii, FRONT, STRINGS;
    FrontPieces();
    StringsPieces();
    assert |HEADERS| == 384 && |SECTION_NAMES| == 47;
  }

  /** A piece of a piece. */
  lemma Nested(lo: nat, hi: nat, whole: seq<byte>, i: nat, j: nat)
    requires lo <= hi <= |FILE| && FILE[lo..hi] == whole && i <= j <= |whole|
    ensures FILE[lo + i..lo + j] == whole[i..j]
  {
    hide FILE;
    SliceOfSlice(FILE, lo, hi, i, j);
  }

  // ---------------------------------------------------------------- the section table

  lemma EntryReads(elf: seq<byte>, off: nat, i: nat, name: nat, s: Section)
    requires name < TWO_32 && s.addr < TWO_32 && s.off < TWO_32 && s.size < TWO_32
    requires off + i * 64 + 64 <= |elf| && elf[off + i * 64..off + i * 64 + 64] == Entry(name, s)
    ensures HeaderAt(elf, off, 64, i) == Ok((name, s))
  {
    hide U16, U32, Le32, Zeros;
    var b, e := off + i * 64, Entry(name, s);
    ZeroWord(12, 0);
    ZeroWord(4, 0);
    ZeroWord(28, 0);
    assert e[0..64] == e;
    WordAt(e, 0, name);
    WordAt(e, 16, s.addr);
    WordAt(e, 24, s.off);
    WordAt(e, 32, s.size);
    HighAt(e, 20, 4);
    HighAt(e, 28, 4);
    HighAt(e, 36, 28);
    SameRead(elf, b, e, 0, 64, 0);
    SameRead(elf, b, e, 0, 64, 16);
    SameRead(elf, b, e, 0, 64, 20);
    SameRead(elf, b, e, 0, 64, 24);
    SameRead(elf, b, e, 0, 64, 28);
    SameRead(elf, b, e, 0, 64, 32);
    SameRead(elf, b, e, 0, 64, 36);
  }

  lemma WordAt(b: seq<byte>, o: nat, v: nat)
    requires v < TWO_32 && o + 4 <= |b| && b[o..o + 4] == Le32(v)
    ensures U32(b, o) == v
  {
    hide U16, U32, Le32;
    SameRead(b, o, Le32(v), 0, 4, 0);
  }

  lemma HighAt(b: seq<byte>, o: nat, n: nat)
    requires n >= 4 && o + n <= |b| && b[o..o + n] == Zeros(n)
    ensures U32(b, o) == 0
  {
    hide U16, U32, Zeros;
    ZeroWord(n, 0);
    SameRead(b, o, Zeros(n), 0, n, 0);
  }

  lemma ZeroWord(n: nat, k: nat)
    requires k + 4 <= n
    ensures U32(Zeros(n), k) == 0
  {
  }

  const TABLE := Table(208, 64, 6, 592)

  lemma HeaderWords()
    ensures U64(HEADER, 0x28) == 208 && U16(HEADER, 0x3A) == 64 && U16(HEADER, 0x3C) == 6 && U16(HEADER, 0x3E) == 5
  {
    hide U16, U32, Le32, Le16, Zeros;
    var h := HEADER;
    FrontPieces();
    assert h[40..44] == Le32(208) && h[44..58] == Zeros(14);
    assert h[58..60] == Le16(64) && h[60..62] == Le16(6) && h[62..64] == Le16(5);
    WordAt(h, 40, 208);
    HighAt(h, 44, 14);
    SameRead(h, 58, Le16(64), 0, 2, 0);
    SameRead(h, 60, Le16(6), 0, 2, 0);
    SameRead(h, 62, Le16(5), 0, 2, 0);
  }

  lemma HeadersSlices()
    ensures |HEADERS| == 384
    ensures HEADERS[0..64] == Entry(0, TEXT) && HEADERS[64..128] == Entry(6, DYNSYM)
    ensures HEADERS[128..192] == Entry(14, DYNSTR) && HEADERS[192..256] == Entry(22, RELA_PLT)
    ensures HEADERS[256..320] == Entry(32, PLT) && HEADERS[320..384] == Entry(37, NAMES)
  {
    hide Entry;
  }

  lemma FileHeaders()
    ensures HeaderAt(FILE, 208, 64, 0) == Ok((0, TEXT)) && HeaderAt(FILE, 208, 64, 1) == Ok((6, DYNSYM))
    ensures HeaderAt(FILE, 208, 64, 2) == Ok((14, DYNSTR)) && HeaderAt(FILE, 208, 64, 3) == Ok((22, RELA_PLT))
    ensures HeaderAt(FILE, 208, 64, 4) == Ok((32, PLT)) && HeaderAt(FILE, 208, 64, 5) == Ok((37, NAMES))
  {
    hide FILE, HEADERS, SECTION_NAMES, FRONT, STRINGS, Entry, HeaderAt;
    FilePieces();
    HeadersSlices();
    Nested(208, 592, HEADERS, 0, 64);
    Nested(208, 592, HEADERS, 64, 128);
    Nested(208, 592, HEADERS, 128, 192);
    Nested(208, 592, HEADERS, 192, 256);
    Nested(208, 592, HEADERS, 256, 320);
    Nested(208, 592, HEADERS, 320, 384);
    EntryReads(FILE, 208, 0, 0, TEXT);
    EntryReads(FILE, 208, 1, 6, DYNSYM);
    EntryReads(FILE, 208, 2, 14, DYNSTR);
    EntryReads(FILE, 208, 3, 22, RELA_PLT);
    EntryReads(FILE, 208, 4, 32, PLT);
    EntryReads(FILE, 208, 5, 37, NAMES);
  }

  lemma FileTable()
    ensures TableOf(FILE) == Ok(TABLE)
  {
    hide FILE, HEADERS, SECTION_NAMES, FRONT, STRINGS, HEADER, HeaderAt, U16, U32;
    FilePieces();
    FrontPieces();
    HeaderWords();
    FileHeaders();
    Nested(0, 156, FRONT, 0, 64);
    SameRead(FILE, 0, HEADER, 0, 64, 0x28);
    SameRead(FILE, 0, HEADER, 0, 64, 0x2C);
    SameRead(FILE, 0, HEADER, 0, 64, 0x3A);
    SameRead(FILE, 0, HEADER, 0, 64, 0x3C);
    SameRead(FILE, 0, HEADER, 0, 64, 0x3E);
  }

  lemma NamesSlices()
    ensures |SECTION_NAMES| == 47
    ensures SECTION_NAMES[0..6] == Ascii(".text") + [0] && SECTION_NAMES[6..14] == Ascii(".dynsym") + [0]
    ensures SECTION_NAMES[14..22] == Ascii(".dynstr") + [0] && SECTION_NAMES[22..32] == Ascii(".rela.plt") + [0]
    ensures SECTION_NAMES[32..37] == Ascii(".plt") + [0] && SECTION_NAMES[37..47] == Ascii(".shstrtab") + [0]
  {
    hide Ascii;
  }

  /** A zero-terminated ASCII name at its place among the section names. */
  lemma NameReads(i: nat, s: string)
    requires (forall c <- s :: 0 < c as int < 0x80) && i + |s| + 1 <= 47 && |SECTION_NAMES| == 47
    requires SECTION_NAMES[i..i + |s| + 1] == Ascii(s) + [0]
    ensures NameFrom(FILE, 592 + i) == Ok(Ascii(s))
  {
    hide FILE, HEADERS, SECTION_NAMES, FRONT, STRINGS, Ascii, NameFrom;
    FilePieces();
    AsciiIsName(s);
    AsciiIsUtf8(Ascii(s));
    var n, at := |s|, 592 + i;
    Nested(592, 639, SECTION_NAMES, i, i + n + 1);
    var piece := Ascii(s) + [0];
    assert FILE[at..at + n + 1] == piece;
    assert FILE[at..at + n] == FILE[at..at + n + 1][..n] == piece[..n] == Ascii(s);
    assert FILE[at + n] == FILE[at..at + n + 1][n] == piece[n] == 0;
    NameAt(FILE, at, Ascii(s));
  }

  lemma FileNames()
    ensures NameFrom(FILE, 592) == Ok(Ascii(".text")) && NameFrom(FILE, 598) == Ok(Ascii(".dynsym"))
    ensures NameFrom(FILE, 606) == Ok(Ascii(".dynstr")) && NameFrom(FILE, 614) == Ok(Ascii(".rela.plt"))
    ensures NameFrom(FILE, 624) == Ok(Ascii(".plt")) && NameFrom(FILE, 629) == Ok(Ascii(".shstrtab"))
  {
    hide FILE, SECTION_NAMES, Ascii, NameFrom;
    NamesSlices();
    NameReads(0, ".text");
    NameReads(6, ".dynsym");
    NameReads(14, ".dynstr");
    NameReads(22, ".rela.plt");
    NameReads(32, ".plt");
    NameReads(37, ".shstrtab");
  }

  lemma SectionNamesDiffer()
    ensures Ascii(".dynsym") != Ascii(".dynstr") && Ascii(".rela.plt") != Ascii(".shstrtab")
  {
    assert Ascii(".dynsym")[5] == 0x79 && Ascii(".dynstr")[5] == 0x74;
    assert Ascii(".rela.plt")[1] == 0x72 && Ascii(".shstrtab")[1] == 0x73;
  }

  lemma FileEntries()
    ensures EntryAt(FILE, TABLE, 0) == Ok((Ascii(".text"), TEXT))
    ensures EntryAt(FILE, TABLE, 1) == Ok((Ascii(".dynsym"), DYNSYM))
    ensures EntryAt(FILE, TABLE, 2) == Ok((Ascii(".dynstr"), DYNSTR))
    ensures EntryAt(FILE, TABLE, 3) == Ok((Ascii(".rela.plt"), RELA_PLT))
    ensures EntryAt(FILE, TABLE, 4) == Ok((Ascii(".plt"), PLT))
    ensures EntryAt(FILE, TABLE, 5) == Ok((Ascii(".shstrtab"), NAMES))
  {
    hide FILE, Ascii, NameFrom, HeaderAt;
    FileHeaders();
    FileNames();
  }

  lemma NextSection(elf: seq<byte>, t: Table, n: nat, m: map<Name, Section>, a: Name, s: Section)
    requires SectionsUpTo(elf, t, n) == Ok(m) && EntryAt(elf, t, n) == Ok((a, s))
    ensures SectionsUpTo(elf, t, n + 1) == Ok(m[a := s])
  {
    hide EntryAt;
  }

  lemma FileSections()
    ensures Sections(FILE) == Ok(map[
      Ascii(".text") := TEXT, Ascii(".dynsym") := DYNSYM, Ascii(".dynstr") := DYNSTR,
      Ascii(".rela.plt") := RELA_PLT, Ascii(".plt") := PLT, Ascii(".shstrtab") := NAMES])
  {
    hide FILE, Ascii, EntryAt, TableOf, SectionsUpTo;
    FileTable();
    FileEntries();
    var m: map<Name, Section> := map[];
    assert SectionsUpTo(FILE, TABLE, 0) == Ok(m) by {
      NoSections(FILE, TABLE);
    }
    NextSection(FILE, TABLE, 0, m, Ascii(".text"), TEXT);
    m := m[Ascii(".text") := TEXT];
    NextSection(FILE, TABLE, 1, m, Ascii(".dynsym"), DYNSYM);
    m := m[Ascii(".dynsym") := DYNSYM];
    NextSection(FILE, TABLE, 2, m, Ascii(".dynstr"), DYNSTR);
    m := m[Ascii(".dynstr") := DYNSTR];
    NextSection(FILE, TABLE, 3, m, Ascii(".rela.plt"), RELA_PLT);
    m := m[Ascii(".rela.plt") := RELA_PLT];
    NextSection(FILE, TABLE, 4, m, Ascii(".plt"), PLT);
    m := m[Ascii(".plt") := PLT];
    NextSection(FILE, TABLE, 5, m, Ascii(".shstrtab"), NAMES);
  }

  lemma NoSections(elf: seq<byte>, t: Table)
    ensures SectionsUpTo(elf, t, 0) == Ok(map[])
  {
  }

  /** The walk over the section table finds the code and the tables. */
  lemma SampleLocated()
    ensures Sections(FILE).Ok? && Located(Sections(FILE).value) == Some((TEXT, LAYOUT))
  {
    hide FILE, Ascii, Sections;
    FileSections();
    SectionNamesDiffer();
  }

  // ---------------------------------------------------------------- the symbol tables

  lemma TableWords()
    ensures U32(RELA, 12) == 0 && U32(RELA, 36) == 1 && U32(SYMS, 0) == 0 && U32(SYMS, 24) == 39
  {
  }

  lemma FileWords()
    ensures U32(FILE, 92) == 0 && U32(FILE, 116) == 1 && U32(FILE, 128) == 0 && U32(FILE, 152) == 39
  {
    hide U16, U32, FILE, FRONT, STRINGS, HEADERS, SECTION_NAMES, RELA, SYMS, HEADER, CODE;
    FilePieces();
    FrontPieces();
    TableWords();
    Nested(0, 156, FRONT, 80, 128);
    Nested(0, 156, FRONT, 128, 156);
    SameRead(FILE, 80, RELA, 0, 48, 12);
    SameRead(FILE, 80, RELA, 0, 48, 36);
    SameRead(FILE, 128, SYMS, 0, 28, 0);
    SameRead(FILE, 128, SYMS, 0, 28, 24);
  }

  lemma FileStrings()
    ensures |FILE| == 639 && |SERVICE| == 38 && |PROPERTY_GET| == 12
    ensures FILE[156..194] == SERVICE && FILE[194] == 0 && FILE[195..207] == PROPERTY_GET && FILE[207] == 0
  {
    hide FILE, FRONT, STRINGS, HEADERS, SECTION_NAMES, SERVICE, PROPERTY_GET;
    FilePieces();
    StringsPieces();
    Nested(156, 208, STRINGS, 0, 38);
    Nested(156, 208, STRINGS, 39, 51);
    assert FILE[194] == FILE[156..208][38] && FILE[207] == FILE[156..208][51];
  }

  lemma AsciiIsName(s: string)
    requires forall c <- s :: 0 < c as int < 0x80
    ensures forall b <- Ascii(s) :: 0 < b < 0x80
  {
    forall b | b in Ascii(s)
      ensures 0 < b < 0x80
    {
      var i :| 0 <= i < |s| && Ascii(s)[i] == b;
      assert s[i] in s;
    }
  }

  lemma NamesAreAscii()
    ensures 0 !in SERVICE && IsUtf8(SERVICE) && 0 !in PROPERTY_GET && IsUtf8(PROPERTY_GET)
  {
    hide IsUtf8, Ascii;
    AsciiIsName("IProperty");
    AsciiIsName("getService");
    AsciiIsName("hidl_string5c_strEv");
    AsciiIsName("property_get");
    AsciiIsUtf8(SERVICE);
    AsciiIsUtf8(PROPERTY_GET);
  }

  lemma EntryNames()
    ensures EntryName(FILE, LAYOUT, 0) == Ok(SERVICE) && EntryName(FILE, LAYOUT, 1) == Ok(PROPERTY_GET)
    ensures EntriesOk(FILE, LAYOUT)
  {
    hide U16, U32, EntryName, FILE, SERVICE, PROPERTY_GET, IsUtf8;
    FileWords();
    FileStrings();
    NamesAreAscii();
    EntryNameExact(FILE, LAYOUT, 0, SERVICE);
    EntryNameExact(FILE, LAYOUT, 1, PROPERTY_GET);
  }

  // ---------------------------------------------------------------- the imports

  lemma ServiceName()
    ensures IsService(SERVICE) && IsMark(SERVICE) && SERVICE != PROPERTY_GET
  {
    hide Contains, Ascii;
    var i, g, h := Ascii("IProperty"), Ascii("getService"), Ascii("hidl_string5c_strEv");
    ContainsMiddle([], i, g + h);
    assert [] + i + (g + h) == SERVICE;
    ContainsMiddle(i, g, h);
    ContainsMiddle(i + g, h, []);
    assert i + g + h + [] == SERVICE;
    StringsPieces();
  }

  lemma SampleImports()
    ensures var names := [SERVICE, PROPERTY_GET];
      && (forall n <- names :: n in PltOf(names, LAYOUT))
      && ImportsOf(names, PltOf(names, LAYOUT)) == Some(Imports(SVC, 0x1030, MARKS))
  {
    hide Contains, SERVICE, Ascii, IsService, Addresses;
    ServiceName();
    var names := [SERVICE, PROPERTY_GET];
    TwoAddresses(SERVICE, PROPERTY_GET, 0x1020, 0x10);
    var plt := PltOf(names, LAYOUT);
    assert Stub(0x40, 2) == 0x10 && plt == map[SERVICE := 0x1020, PROPERTY_GET := 0x1030];
    var marks := set n | n in plt && IsMark(n) :: plt[n];
    assert plt[SERVICE] in marks && plt[PROPERTY_GET] in marks;
    assert marks == MARKS;
  }

  lemma TwoAddresses(a: Name, b: Name, base: int, stub: int)
    requires a != b
    ensures Addresses([a, b], base, stub) == map[a := base, b := base + stub]
  {
    assert [a, b][..1] == [a] && [a][..0] == [];
    assert Addresses([a], base, stub) == map[a := base];
  }

  /** A name has all bytes of its parts. */
  lemma PartBytes(n: Name, part: seq<byte>, b: byte)
    requires Contains(n, part) && b in part
    ensures b in n
  {
    ContainsExact(n, part);
  }

  const CONSTRUCTOR: Name := Ascii("_ZN7android8hardware") + Ascii("11hidl_stringC1EPKc")
  const CAST: Name := Ascii("_ZN8property9IProperty8castFromE")

  lemma NoFive()
    ensures 0x35 !in CONSTRUCTOR && 0x35 in Ascii("hidl_string5c_strEv") && |CONSTRUCTOR| == 39
  {
    hide Ascii;
    NoSuchChar("_ZN7android8hardware", '5');
    NoSuchChar("11hidl_stringC1EPKc", '5');
    CharAt("hidl_string5c_strEv", 11);
  }

  lemma NoCapitalS()
    ensures 0x53 !in CAST && 0x53 in Ascii("getService")
  {
    hide Ascii;
    NoSuchChar("_ZN8property9IProperty8castFromE", 'S');
    CharAt("getService", 3);
  }

  /** Building a string is no sign of a getter, and casting an interface is not getting a service. */
  lemma OtherNames()
    ensures !IsMark(CONSTRUCTOR) && !IsService(CAST)
  {
    hide Contains, Ascii, CONSTRUCTOR, CAST;
    NoFive();
    NoCapitalS();
    if Contains(CONSTRUCTOR, Ascii("hidl_string5c_strEv")) {
      PartBytes(CONSTRUCTOR, Ascii("hidl_string5c_strEv"), 0x35);
    }
    if Contains(CAST, Ascii("getService")) {
      PartBytes(CAST, Ascii("getService"), 0x53);
    }
  }

  lemma NoSuchChar(s: string, c: char)
    requires (forall x <- s :: x as int < 0x80) && c !in s && c as int < 0x80
    ensures (c as int) !in Ascii(s)
  {
    forall i | 0 <= i < |s|
      ensures Ascii(s)[i] != c as int
    {
      assert s[i] in s;
    }
  }

  lemma CharAt(s: string, i: nat)
    requires i < |s| && s[i] as int < 0x80
    ensures (s[i] as int) in Ascii(s)
  {
    assert Ascii(s)[i] == s[i] as int;
  }

  // ---------------------------------------------------------------- the code

  lemma CodeWords()
    ensures |CODE| == 16 && U32(CODE, 4) == 0x9400_03F7 && U32(CODE, 12) == 0x9400_03F5
    ensures CODE[0..4] == PACIASP && CODE[8..12] == PACIASP
    ensures Target(68, 0x9400_03F7) == SVC && Target(76, 0x9400_03F5) == SVC && IsBl(0x9400_03F7) && IsBl(0x9400_03F5)
  {
  }

  lemma SampleGrid()
    ensures forall o: nat :: OnGrid(TEXT, o) <==> o == 64 || o == 68 || o == 72 || o == 76
    ensures PrologueAt(FILE, 64) && CallAt(FILE, TEXT, 68, SVC) && PrologueAt(FILE, 72) && CallAt(FILE, TEXT, 76, SVC)
    ensures Readable(FILE, TEXT)
  {
    hide U16, U32, FILE, CODE, FRONT, STRINGS, HEADERS, SECTION_NAMES, HEADER, RELA, SYMS, Target, IsBl;
    FilePieces();
    FrontPieces();
    CodeWords();
    Nested(0, 156, FRONT, 64, 80);
    Nested(64, 80, CODE, 0, 4);
    Nested(64, 80, CODE, 8, 12);
    SameRead(FILE, 64, CODE, 0, 16, 4);
    SameRead(FILE, 64, CODE, 0, 16, 12);
  }

  lemma SamplePlans()
    ensures Plan(FILE, TEXT, SVC, MARKS, 64, 72) && Plan(FILE, TEXT, SVC, MARKS, 72, 64)
  {
    hide FILE, PrologueAt, CallAt, OnGrid;
    SampleGrid();
    var d := FILE;
    CallIsNoPrologue(d, TEXT, 68, SVC);
    CallIsNoPrologue(d, TEXT, 76, SVC);
    PrologueIsNoCall(d, TEXT, 64, SVC);
    PrologueIsNoCall(d, TEXT, 72, SVC);
    assert TwoCalls(d, TEXT, SVC, 68, 76) && TwoCalls(d, TEXT, SVC, 76, 68);
    assert Nearest(d, TEXT, 68, 64) && Nearest(d, TEXT, 76, 72);
    assert MarkedAt(d, TEXT, MARKS, 64, 68) && MarkedAt(d, TEXT, MARKS, 72, 76);
  }

  lemma PrologueIsNoCall(d: seq<byte>, text: Section, o: nat, target: int)
    requires PrologueAt(d, o)
    ensures !CallAt(d, text, o, target)
  {
    hide PrologueAt, CallAt;
    if CallAt(d, text, o, target) {
      CallIsNoPrologue(d, text, o, target);
    }
  }

  /** The file passes every test, and no choice of the two functions leaves it whole. */
  lemma AcceptedAndBroken()
    ensures IsElf(FILE)
    ensures Sections(FILE).Ok? && Located(Sections(FILE).value) == Some((TEXT, LAYOUT))
    ensures EntriesOk(FILE, LAYOUT) && LAYOUT.relaSize / ENTRY == 2
    ensures var names := [SERVICE, PROPERTY_GET];
      && (forall i: nat :: i < 2 ==> EntryName(FILE, LAYOUT, i) == Ok(names[i]))
      && (forall n <- names :: n in PltOf(names, LAYOUT))
      && ImportsOf(names, PltOf(names, LAYOUT)) == Some(Imports(SVC, 0x1030, MARKS))
    ensures Readable(FILE, TEXT) && Plan(FILE, TEXT, SVC, MARKS, 64, 72) && Plan(FILE, TEXT, SVC, MARKS, 72, 64)
    ensures forall g: nat, s: nat :: Plan(FILE, TEXT, SVC, MARKS, g, s) ==> !Clean(TEXT, g, s, |FILE|)
  {
    hide FILE, FRONT, STRINGS, HEADERS, SECTION_NAMES, EntryName, Plan, SERVICE, PROPERTY_GET, Readable, ImportsOf;
    hide PltOf, Sections, Located, HEADER, CODE, RELA, SYMS;
    FileMagic();
    SampleLocated();
    EntryNames();
    SampleImports();
    SampleGrid();
    SamplePlans();
    forall g: nat, s: nat | Plan(FILE, TEXT, SVC, MARKS, g, s)
      ensures !Clean(TEXT, g, s, |FILE|)
    {
      var cg, cs, o, m := PlanParts(FILE, TEXT, SVC, MARKS, g, s);
    }
  }

  /** So whatever the patcher returns for it is a success, with edits that overlap or leave `.text`. */
  lemma ReturnedBroken(r: Result<Outcome, PatchError>, names: seq<Name>)
    requires Patches(FILE, TEXT, LAYOUT, r, names)
    ensures r.Ok? && !Clean(TEXT, r.value.getter, r.value.setter, |FILE|)
  {
    hide FILE, EntryName, Plan, SERVICE, PROPERTY_GET, Readable, ImportsOf, PltOf, Clean, Diagnosed, Sections, Located;
    AcceptedAndBroken();
    assert names == [SERVICE, PROPERTY_GET];
  }

  lemma FileMagic()
    ensures IsElf(FILE)
  {
    hide FILE, FRONT, STRINGS, HEADERS, SECTION_NAMES, Zeros, Le32, Le16, CODE, RELA, SYMS;
    FilePieces();
    FrontPieces();
    Nested(0, 156, FRONT, 0, 64);
    Nested(0, 64, HEADER, 0, 4);
    assert HEADER[0..4] == ELF_MAGIC;
    MagicExact(FILE);
  }
}

/**
 The few A64 instructions the patcher reads or writes (section C6.2 of the Arm Architecture Reference
 Manual, DDI 0487): encodings as numbers, and a step semantics for those it writes.
 */
module A64 {
  import opened Wrappers
  import opened Bytes

  const RET: seq<byte> := [0xC0, 0x03, 0x5F, 0xD6]
  const PACIASP: seq<byte> := [0x3F, 0x23, 0x03, 0xD5]
  const MOV_X0_X2: seq<byte> := [0xE0, 0x03, 0x02, 0xAA]
  const MOV_X2_XZR: seq<byte> := [0xE2, 0x03, 0x1F, 0xAA]

  const OP_B := 0x05
  const OP_BL := 0x25
  const IMM26 := 0x400_0000

  // ---------------------------------------------------------------- branches

  /** The top six bits tell `b` and `bl` from everything else. */
  function Opcode(w: nat): nat {
    w / IMM26
  }

  predicate IsBl(w: nat) {
    Opcode(w) == OP_BL
  }

  /** The signed 26-bit word distance of a branch. */
  function Distance(w: nat): int {
    var imm := w % IMM26;
    if imm / 0x200_0000 % 2 == 1 then imm - IMM26 else imm
  }

  function Target(va: int, w: nat): int {
    va + 4 * Distance(w)
  }

  /** `0x14000000 | (((to - from) >> 2) & 0x03FFFFFF)`. */
  function EncodeB(from: int, to: int): (w: nat)
    ensures w < TWO_32
  {
    OP_B * IMM26 + (to - from) / 4 % IMM26
  }

  /** The distances that fit the field. */
  predicate InRange(from: int, to: int) {
    (to - from) % 4 == 0 && -0x800_0000 <= to - from <= 0x7FF_FFFC
  }

  /**
   What the encoder writes the scanner's sign extension reads back as the intended target, exactly for
   word-aligned distances in range; and a written branch is never taken for a call.
   */
  lemma BranchRoundTrip(from: int, to: int)
    ensures Target(from, EncodeB(from, to)) == to <==> InRange(from, to)
    ensures Opcode(EncodeB(from, to)) == OP_B && !IsBl(EncodeB(from, to))
  {
    var q := (to - from) / 4;
    var f := q % IMM26;
    assert EncodeB(from, to) / IMM26 == OP_B && EncodeB(from, to) % IMM26 == f;
    assert f / 0x200_0000 == 0 || f / 0x200_0000 == 1;
    var s := if f >= 0x200_0000 then f - IMM26 else f;
    assert Distance(EncodeB(from, to)) == s && -0x200_0000 <= s < 0x200_0000;
    var k := q / IMM26;
    assert q == k * IMM26 + f;
  }

  /** No fixed word the patcher looks for or writes is a call. */
  lemma FixedWords()
    ensures U32(RET, 0) == 0xD65F_03C0 && U32(PACIASP, 0) == 0xD503_233F
    ensures U32(MOV_X0_X2, 0) == 0xAA02_03E0 && U32(MOV_X2_XZR, 0) == 0xAA1F_03E2
    ensures !IsBl(U32(RET, 0)) && !IsBl(U32(PACIASP, 0))
    ensures !IsBl(U32(MOV_X0_X2, 0)) && !IsBl(U32(MOV_X2_XZR, 0))
  {
  }

  // ---------------------------------------------------------------- execution

  datatype Instruction =
    | Orr(rd: nat, rn: nat, rm: nat)   // 64-bit, shift amount 0; `mov` is `orr` with xzr
    | B(distance: int)
    | Ret(rn: nat)
    | Unmodelled

  function Decode(w: nat): Instruction {
    if Opcode(w) == OP_B then B(Distance(w))
    else if w / 0x400 == 0xD65F_0000 / 0x400 && w % 0x20 == 0 then Ret(w / 0x20 % 0x20)
    else if w / 0x20_0000 == 0xAA00_0000 / 0x20_0000 && w / 0x400 % 0x40 == 0 then
      Orr(w % 0x20, w / 0x20 % 0x20, w / 0x1_0000 % 0x20)
    else Unmodelled
  }

  /** Registers x0 to x30 (x30 is the link register), the stack pointer, the flags and the memory. */
  datatype State = State(x: seq<bv64>, sp: bv64, pc: int, nzcv: bv4, memory: map<int, byte>)

  /** Register 31 reads as zero. */
  function Read(s: State, r: nat): bv64
    requires |s.x| == 31 && r < 32
  {
    if r == 31 then 0 else s.x[r]
  }

  function Write(s: State, r: nat, v: bv64): (s': State)
    requires |s.x| == 31 && r < 32
    ensures |s'.x| == 31
  {
    if r == 31 then s else s.(x := s.x[r := v])
  }

  /** Where `.text` sits in the file and in memory. */
  datatype Section = Section(addr: nat, off: nat, size: nat)

  function Fetch(elf: seq<byte>, text: Section, va: int): Option<nat> {
    var o := text.off + (va - text.addr);
    if va % 4 == text.addr % 4 && text.addr <= va && va + 4 <= text.addr + text.size && o + 4 <= |elf|
    then Some(U32(elf, o)) else None
  }

  function Step(elf: seq<byte>, text: Section, s: State): (r: Option<State>)
    requires |s.x| == 31
    ensures r.Some? ==> |r.value.x| == 31
  {
    var w := Fetch(elf, text, s.pc);
    if w.None? then None
    else
      match Decode(w.value)
      case Orr(rd, rn, rm) => Some(Write(s, rd, Read(s, rn) | Read(s, rm)).(pc := s.pc + 4))
      case B(distance) => Some(s.(pc := s.pc + 4 * distance))
      case Ret(rn) => Some(s.(pc := Read(s, rn) as int))
      case Unmodelled => None
  }

  function Run(elf: seq<byte>, text: Section, s: State, n: nat): Option<State>
    requires |s.x| == 31
    decreases n
  {
    if n == 0 then Some(s)
    else
      var next := Step(elf, text, s);
      if next.None? then None else Run(elf, text, next.value, n - 1)
  }

  /** Where a file offset inside `.text` is loaded. */
  function Va(text: Section, o: nat): int {
    text.addr + (o - text.off)
  }

  predicate InText(text: Section, o: nat, n: nat, length: nat) {
    text.off <= o && (o - text.off) % 4 == 0 && o + n <= text.off + text.size && o + n <= length
  }

  lemma FetchAt(elf: seq<byte>, text: Section, o: nat)
    requires InText(text, o, 4, |elf|)
    ensures Fetch(elf, text, Va(text, o)) == Some(U32(elf, o))
  {
    var k := o - text.off;
    assert (text.addr + k) % 4 == text.addr % 4;
  }

  lemma OrrZero(y: bv64)
    ensures 0 | y == y
  {
  }

  lemma DecodeRet()
    ensures Decode(0xD65F_03C0) == Ret(30)
  {
  }

  lemma DecodeMovKey()
    ensures Decode(0xAA02_03E0) == Orr(0, 31, 2)
  {
    var w := 0xAA02_03E0;
    assert Opcode(w) == 0x2A && w / 0x400 == 0x2A_8080 && w / 0x20_0000 == 0x550;
    assert w % 0x20 == 0 && w / 0x20 == 0x550_101F && w / 0x1_0000 == 0xAA02;
  }

  lemma DecodeMovDefault()
    ensures Decode(0xAA1F_03E2) == Orr(2, 31, 31)
  {
    var w := 0xAA1F_03E2;
    assert Opcode(w) == 0x2A && w / 0x400 == 0x2A_87C0 && w / 0x20_0000 == 0x550;
    assert w % 0x20 == 2 && w / 0x20 == 0x550_F81F && w / 0x1_0000 == 0xAA1F;
  }

  /** Any state entering a `ret` goes to the link register with everything else unchanged. */
  lemma SetterRuns(elf: seq<byte>, text: Section, setter: nat, s: State)
    requires InText(text, setter, 4, |elf|) && elf[setter..setter + 4] == RET
    requires |s.x| == 31 && s.pc == Va(text, setter)
    ensures Step(elf, text, s) == Some(s.(pc := s.x[30] as int))
  {
    hide U16, U32, Decode;
    FixedWords();
    DecodeRet();
    SameRead(elf, setter, RET, 0, 4, 0);
    FetchAt(elf, text, setter);
  }

  /**
   Any state entering the three patched words reaches the branch target with the third argument as the
   first, no default value, and every other register, the flags and the memory unchanged.
   */
  lemma GetterRuns(elf: seq<byte>, text: Section, getter: nat, target: int, s: State)
    requires InText(text, getter, 12, |elf|)
    requires elf[getter..getter + 12] == MOV_X0_X2 + MOV_X2_XZR + Le32(EncodeB(Va(text, getter + 8), target))
    requires InRange(Va(text, getter + 8), target)
    requires |s.x| == 31 && s.pc == Va(text, getter)
    ensures Run(elf, text, s, 3) == Some(s.(pc := target, x := s.x[0 := s.x[2]][2 := 0]))
  {
    hide Decode, EncodeB, Fetch, Target, InRange, Opcode, Distance, Step, InText;
    var w := EncodeB(Va(text, getter + 8), target);
    GetterFetches(elf, text, getter, w);
    DecodeMovKey();
    DecodeMovDefault();
    BranchRoundTrip(Va(text, getter + 8), target);
    DecodeBranch(w, Va(text, getter + 8), target);
    var s1 := s.(x := s.x[0 := s.x[2]], pc := s.pc + 4);
    var s2 := s1.(x := s1.x[2 := 0], pc := s1.pc + 4);
    var s3 := s2.(pc := target);
    StepMov(elf, text, s, 0xAA02_03E0, 0, 2);
    StepMov(elf, text, s1, 0xAA1F_03E2, 2, 31);
    StepB(elf, text, s2, w);
    RunThree(elf, text, s, s1, s2, s3);
  }

  lemma GetterFetches(elf: seq<byte>, text: Section, getter: nat, w: nat)
    requires InText(text, getter, 12, |elf|) && w < TWO_32
    requires elf[getter..getter + 12] == MOV_X0_X2 + MOV_X2_XZR + Le32(w)
    ensures Fetch(elf, text, Va(text, getter)) == Some(0xAA02_03E0)
    ensures Fetch(elf, text, Va(text, getter) + 4) == Some(0xAA1F_03E2)
    ensures Fetch(elf, text, Va(text, getter) + 8) == Some(w)
  {
    hide U16, U32, Le32, Fetch;
    var code := MOV_X0_X2 + MOV_X2_XZR + Le32(w);
    FixedWords();
    assert code[0..4] == MOV_X0_X2 && code[4..8] == MOV_X2_XZR && code[8..12] == Le32(w);
    ThreeWords(elf, getter, code, w);
    FetchAt(elf, text, getter);
    FetchAt(elf, text, getter + 4);
    FetchAt(elf, text, getter + 8);
  }

  lemma StepB(elf: seq<byte>, text: Section, s: State, w: nat)
    requires |s.x| == 31 && Fetch(elf, text, s.pc) == Some(w) && Decode(w) == B(Distance(w))
    ensures Step(elf, text, s) == Some(s.(pc := s.pc + 4 * Distance(w)))
  {
    hide Decode, Fetch, Distance;
  }

  /** `orr rd, xzr, rm` copies a register. */
  lemma StepMov(elf: seq<byte>, text: Section, s: State, w: nat, rd: nat, rm: nat)
    requires |s.x| == 31 && rd < 31 && rm < 32 && Fetch(elf, text, s.pc) == Some(w) && Decode(w) == Orr(rd, 31, rm)
    ensures Step(elf, text, s) == Some(s.(x := s.x[rd := Read(s, rm)], pc := s.pc + 4))
  {
    hide Decode, Fetch;
    OrrZero(Read(s, rm));
  }

  lemma ThreeWords(elf: seq<byte>, o: nat, code: seq<byte>, w: nat)
    requires w < TWO_32 && |code| == 12 && o + 12 <= |elf| && elf[o..o + 12] == code
    requires code[8..12] == Le32(w)
    ensures U32(elf, o) == U32(code[0..4], 0) && U32(elf, o + 4) == U32(code[4..8], 0) && U32(elf, o + 8) == w
  {
    hide U16, U32, Le32;
    assert elf[o..o + 12] == code[0..12];
    SameRead(elf, o, code, 0, 12, 0);
    SameRead(elf, o, code, 0, 12, 4);
    SameRead(elf, o, code, 0, 12, 8);
    SameRead(code, 0, code[0..4], 0, 4, 0);
    SameRead(code, 4, code[4..8], 0, 4, 0);
    SameRead(code, 8, Le32(w), 0, 4, 0);
  }

  lemma DecodeBranch(w: nat, va: int, target: int)
    requires Opcode(w) == OP_B && Target(va, w) == target
    ensures Decode(w) == B(Distance(w)) && va + 4 * Distance(w) == target
  {
  }

  lemma RunThree(elf: seq<byte>, text: Section, s: State, s1: State, s2: State, s3: State)
    requires |s.x| == 31 && |s1.x| == 31 && |s2.x| == 31 && |s3.x| == 31
    requires Step(elf, text, s) == Some(s1) && Step(elf, text, s1) == Some(s2) && Step(elf, text, s2) == Some(s3)
    ensures Run(elf, text, s, 3) == Some(s3)
  {
    hide Step;
    assert Run(elf, text, s2, 1) == Some(s3) by {
      assert Run(elf, text, s3, 0) == Some(s3);
    }
    assert Run(elf, text, s1, 2) == Some(s3);
  }
}

/** The instruction table of source/cpu.cpp and the instruction formats. */
module Isa {
  import opened Words

  // One constructor per entry of the table, grouped by what the entries share.

  datatype SystemOp =
    SRET | MRET | FENCE | ECALL | EBREAK

  datatype UpperOp =
    LUI | AUIPC

  datatype BranchOp =
    BEQ | BNE | BLT | BGE | BLTU | BGEU

  datatype LoadOp =
    LB | LH | LW | LBU | LHU | LWU | LD

  datatype StoreOp =
    SB | SH | SW | SD

  datatype ImmediateOp =
    ADDI | SLTI | SLTIU | XORI | ORI | ANDI | SLLI | SRLI | SRAI

  datatype RegisterOp =
    ADD | SUB | SLL | SLT | SLTU | XOR | SRL | SRA | OR | AND | MUL | MULH | MULHSU | MULHU | DIV |
    DIVU | REM | REMU

  datatype Immediate32Op =
    ADDIW | SLLIW | SRLIW | SRAIW

  datatype Register32Op =
    ADDW | SUBW | SLLW | SRLW | SRAW | MULW | DIVW | DIVUW | REMW | REMUW

  datatype CsrOp =
    CSRRW | CSRRS | CSRRC | CSRRWI | CSRRSI | CSRRCI

  datatype AtomicOp =
    LR | SC | AMOSWAP | AMOADD | AMOXOR | AMOAND | AMOOR | AMOMIN | AMOMAX | AMOMINU | AMOMAXU

  datatype Width = Word | Double

  datatype Op =
    | System(sys: SystemOp)
    | Upper(upper: UpperOp)
    | JAL
    | JALR
    | Branch(branch: BranchOp)
    | Load(load: LoadOp)
    | Store(store: StoreOp)
    | Immediate(imm: ImmediateOp)
    | Register(reg: RegisterOp)
    | Immediate32(imm32: Immediate32Op)
    | Register32(reg32: Register32Op)
    | FENCE_I
    | Csr(csr: CsrOp)
    | Atomic(amo: AtomicOp, width: Width)

  /** The `.format` letter of a table entry; it selects the `parse_instruction` specialisation. */
  datatype Format = R | I | S | B | U | J

  function FormatOf(op: Op): Format {
    match op
    case System(SRET) | System(MRET) => R
    case System(_) | FENCE_I => I
    case Upper(_) => U
    case JAL => J
    case JALR | Load(_) | Immediate(_) | Csr(_) => I
    case Branch(_) => B
    case Store(_) => S
    case Immediate32(ADDIW) => I
    case Immediate32(_) => R
    case Register(_) | Register32(_) | Atomic(_, _) => R
  }

  /** The `.mask_field` of each entry. */
  function MaskOf(op: Op): u32 {
    match op
    case System(_) => 0xffffffff
    case Upper(_) | JAL | FENCE_I => 0x0000007f
    case JALR | Branch(_) | Load(_) | Store(_) | Csr(_) => 0x0000707f
    case Immediate(SLLI) | Immediate(SRLI) | Immediate(SRAI) => 0xfc00707f
    case Immediate(_) => 0x0000707f
    case Immediate32(ADDIW) => 0x0000707f
    case Immediate32(SLLIW) => 0xfe00707f
    case Immediate32(_) => 0xfc00707f
    case Register(_) | Register32(_) => 0xfe00707f
    case Atomic(LR, _) => 0xf9f0707f
    case Atomic(_, _) => 0xf800707f
  }

  /** The `.instruction_matcher` of each entry. */
  function MatcherOf(op: Op): u32 {
    match op
    case System(SRET) => 0x10200073
    case System(MRET) => 0x30200073
    case System(FENCE) => 0x0000000f
    case System(ECALL) => 0x00000073
    case System(EBREAK) => 0x00100073
    case Upper(LUI) => 0x00000037
    case Upper(AUIPC) => 0x00000017
    case JAL => 0x0000006f
    case JALR => 0x00000067
    case FENCE_I => 0x0000000f
    case Branch(b) => BranchMatcher(b)
    case Load(l) => LoadMatcher(l)
    case Store(s) => StoreMatcher(s)
    case Immediate(i) => ImmediateMatcher(i)
    case Register(r) => RegisterMatcher(r)
    case Immediate32(i) => Immediate32Matcher(i)
    case Register32(r) => Register32Matcher(r)
    case Csr(c) => CsrMatcher(c)
    case Atomic(a, w) => AtomicMatcher(a) + (if w.Word? then 0 else 0x1000)
  }

  function BranchMatcher(b: BranchOp): u32 {
    match b
    case BEQ => 0x00000063
    case BNE => 0x00001063
    case BLT => 0x00004063
    case BGE => 0x00005063
    case BLTU => 0x00006063
    case BGEU => 0x00007063
  }

  function LoadMatcher(l: LoadOp): u32 {
    match l
    case LB => 0x00000003
    case LH => 0x00001003
    case LW => 0x00002003
    case LBU => 0x00004003
    case LHU => 0x00005003
    case LWU => 0x00006003
    case LD => 0x00003003
  }

  function StoreMatcher(s: StoreOp): u32 {
    match s
    case SB => 0x00000023
    case SH => 0x00001023
    case SW => 0x00002023
    case SD => 0x00003023
  }

  function ImmediateMatcher(i: ImmediateOp): u32 {
    match i
    case ADDI => 0x00000013
    case SLTI => 0x00002013
    case SLTIU => 0x00003013
    case XORI => 0x00004013
    case ORI => 0x00006013
    case ANDI => 0x00007013
    case SLLI => 0x00001013
    case SRLI => 0x00005013
    case SRAI => 0x40005013
  }

  function RegisterMatcher(r: RegisterOp): u32 {
    match r
    case ADD => 0x00000033
    case SUB => 0x40000033
    case SLL => 0x00001033
    case SLT => 0x00002033
    case SLTU => 0x00003033
    case XOR => 0x00004033
    case SRL => 0x00005033
    case SRA => 0x40005033
    case OR => 0x00006033
    case AND => 0x00007033
    case MUL => 0x02000033
    case MULH => 0x02001033
    case MULHSU => 0x02002033
    case MULHU => 0x02003033
    case DIV => 0x02004033
    case DIVU => 0x02005033
    case REM => 0x02006033
    case REMU => 0x02007033
  }

  function Immediate32Matcher(i: Immediate32Op): u32 {
    match i
    case ADDIW => 0x0000001b
    case SLLIW => 0x0000101b
    case SRLIW => 0x0000501b
    case SRAIW => 0x4000501b
  }

  function Register32Matcher(r: Register32Op): u32 {
    match r
    case ADDW => 0x0000003b
    case SUBW => 0x4000003b
    case SLLW => 0x0000103b
    case SRLW => 0x0000503b
    case SRAW => 0x4000503b
    case MULW => 0x0200003b
    case DIVW => 0x0200403b
    case DIVUW => 0x0200503b
    case REMW => 0x0200603b
    case REMUW => 0x0200703b
  }

  function CsrMatcher(c: CsrOp): u32 {
    match c
    case CSRRW => 0x00001073
    case CSRRS => 0x00002073
    case CSRRC => 0x00003073
    case CSRRWI => 0x00005073
    case CSRRSI => 0x00006073
    case CSRRCI => 0x00007073
  }

  /** The matchers of the .W entries; those of the .D entries differ in funct3 only. */
  function AtomicMatcher(a: AtomicOp): u32 {
    match a
    case LR => 0x1000202f
    case SC => 0x1800202f
    case AMOSWAP => 0x0800202f
    case AMOADD => 0x0000202f
    case AMOXOR => 0x2000202f
    case AMOAND => 0x6000202f
    case AMOOR => 0x4000202f
    case AMOMIN => 0x8000202f
    case AMOMAX => 0xa000202f
    case AMOMINU => 0xc000202f
    case AMOMAXU => 0xe000202f
  }

  // The entries in the order in which `Decode` tries them, in the sections of the source.

  const PRIVILEGED: seq<Op> := [
    System(SRET), System(MRET)
  ]

  const RV32I: seq<Op> := [
    Upper(LUI), Upper(AUIPC), JAL, JALR, Branch(BEQ), Branch(BNE), Branch(BLT), Branch(BGE),
    Branch(BLTU), Branch(BGEU), Load(LB), Load(LH), Load(LW), Load(LBU), Load(LHU), Store(SB),
    Store(SH), Store(SW), Immediate(ADDI), Immediate(SLTI), Immediate(SLTIU), Immediate(XORI),
    Immediate(ORI), Immediate(ANDI), Immediate(SLLI), Immediate(SRLI), Immediate(SRAI),
    Register(ADD), Register(SUB), Register(SLL), Register(SLT), Register(SLTU), Register(XOR),
    Register(SRL), Register(SRA), Register(OR), Register(AND), System(FENCE), System(ECALL),
    System(EBREAK)
  ]

  const RV64I: seq<Op> := [
    Load(LWU), Load(LD), Store(SD), Immediate32(ADDIW), Immediate32(SLLIW), Immediate32(SRLIW),
    Immediate32(SRAIW), Register32(ADDW), Register32(SUBW), Register32(SLLW), Register32(SRLW),
    Register32(SRAW)
  ]

  const ZIFENCEI: seq<Op> := [
    FENCE_I
  ]

  const ZICSR: seq<Op> := [
    Csr(CSRRW), Csr(CSRRS), Csr(CSRRC), Csr(CSRRWI), Csr(CSRRSI), Csr(CSRRCI)
  ]

  const RV32M: seq<Op> := [
    Register(MUL), Register(MULH), Register(MULHSU), Register(MULHU), Register(DIV), Register(DIVU),
    Register(REM), Register(REMU)
  ]

  const RV64M: seq<Op> := [
    Register32(MULW), Register32(DIVW), Register32(DIVUW), Register32(REMW), Register32(REMUW)
  ]

  const RV32A: seq<Op> := [
    Atomic(LR, Word), Atomic(SC, Word), Atomic(AMOSWAP, Word), Atomic(AMOADD, Word),
    Atomic(AMOXOR, Word), Atomic(AMOAND, Word), Atomic(AMOOR, Word), Atomic(AMOMIN, Word),
    Atomic(AMOMAX, Word), Atomic(AMOMINU, Word), Atomic(AMOMAXU, Word)
  ]

  const RV64A: seq<Op> := [
    Atomic(LR, Double), Atomic(SC, Double), Atomic(AMOSWAP, Double), Atomic(AMOADD, Double),
    Atomic(AMOXOR, Double), Atomic(AMOAND, Double), Atomic(AMOOR, Double), Atomic(AMOMIN, Double),
    Atomic(AMOMAX, Double), Atomic(AMOMINU, Double), Atomic(AMOMAXU, Double)
  ]

  const EXTENSIONS: seq<Op> := ZIFENCEI + ZICSR + RV32M + RV64M + RV32A + RV64A

  const TABLE: seq<Op> := (PRIVILEGED + RV32I) + (RV64I + EXTENSIONS)

  /** `(instruction & mask_field) == instruction_matcher`. */
  predicate Matches(op: Op, w: u32) {
    And(w, MaskOf(op)) == MatcherOf(op)
  }

  // ---------------------------------------------------------------- slices of a word

  /** The six pieces between bits 0, 7, 12, 15, 20, 25 and 32, at which every field of every
      format begins or ends up to single bits. */
  datatype Slices = Slices(opcode: nat, rd: nat, funct3: nat, rs1: nat, rs2: nat, funct7: nat) {
    predicate Valid() {
      opcode < 0x80 && rd < 0x20 && funct3 < 8 && rs1 < 0x20 && rs2 < 0x20 && funct7 < 0x80
    }
  }

  function Split(w: u32): (s: Slices)
    ensures s.Valid()
  {
    var a := w / 0x80;
    var b := a / 0x20;
    var c := b / 8;
    var d := c / 0x20;
    Slices(w % 0x80, a % 0x20, b % 8, c % 0x20, d % 0x20, d / 0x20)
  }

  function Join(s: Slices): u32
    requires s.Valid()
  {
    s.opcode + 0x80 * (s.rd + 0x20 * (s.funct3 + 8 * (s.rs1 + 0x20 * (s.rs2 + 0x20 * s.funct7))))
  }

  lemma SplitOfJoin(s: Slices)
    requires s.Valid()
    ensures Split(Join(s)) == s
  {
    var d := s.rs2 + 0x20 * s.funct7;
    var c := s.rs1 + 0x20 * d;
    var b := s.funct3 + 8 * c;
    var a := s.rd + 0x20 * b;
    assert Join(s) / 0x80 == a && a / 0x20 == b && b / 8 == c && c / 0x20 == d;
  }

  lemma JoinOfSplit(w: u32)
    ensures Join(Split(w)) == w
  {
  }

  lemma DivDiv(w: nat, m: nat, n: nat)
    requires m > 0 && n > 0
    ensures m * n > 0 && w / m / n == w / (m * n)
  {
    NestedQuotient(w, m, n, w / m, w % m, w / m / n, w / m % n);
  }

  lemma NestedQuotient(w: nat, m: nat, n: nat, a: nat, t: nat, q: nat, r: nat)
    requires w == m * a + t && a == n * q + r && t < m && r < n
    ensures m * n > 0 && w / (m * n) == q
  {
    ScaledRemainder(m, n, r, t);
    Regroup(m, n, q, r);
    DivModUnique(w, m * n, q, m * r + t);
  }

  lemma ScaledRemainder(m: nat, n: nat, r: nat, t: nat)
    requires r < n && t < m
    ensures m * r + t < m * n
  {
    MulGap(m, n, r);
  }

  lemma Regroup(m: nat, n: nat, q: nat, r: nat)
    ensures m * (n * q + r) == (m * n) * q + m * r
  {
  }

  // ---------------------------------------------------------------- formats

  /** The struct that `parse_instruction` fills. */
  datatype Fields = Fields(opcode: nat, rd: nat, funct3: nat, rs1: nat, rs2: nat, funct7: nat, imm: nat)

  /** `parse_instruction<format>`, on the slices of the word; Parsing.ParseIsSource ties it to the
      masks, shifts and `|` of the source. */
  function Parse(format: Format, w: u32): (f: Fields)
    ensures f.rd < 0x20 && f.rs1 < 0x20 && f.rs2 < 0x20 && f.imm < TWO32
    ensures (format == I ==> f.imm < 0x1000) && (format == B || format == J ==> f.imm % 2 == 0)
  {
    FieldsBounds(format, Split(w));
    FieldsOf(format, Split(w))
  }

  lemma BranchBounds(s: Slices)
    requires s.Valid()
    ensures FieldsOf(B, s).imm < 0x2000 && FieldsOf(B, s).imm % 2 == 0
  {
    BranchPieces(s.rd / 2, s.funct7 % 0x40, s.rd % 2, s.funct7 / 0x40);
  }

  lemma JumpBounds(s: Slices)
    requires s.Valid()
    ensures FieldsOf(J, s).imm < 0x20_0000 && FieldsOf(J, s).imm % 2 == 0
  {
    JumpPieces(s.rs2 / 2, s.funct7 % 0x40, s.rs2 % 2, s.funct3, s.rs1, s.funct7 / 0x40);
  }

  lemma FieldsBounds(format: Format, s: Slices)
    requires s.Valid()
    ensures var f := FieldsOf(format, s);
            && f.rd < 0x20 && f.rs1 < 0x20 && f.rs2 < 0x20 && f.imm < TWO32
            && (format == I ==> f.imm < 0x1000) && (format == B || format == J ==> f.imm % 2 == 0)
  {
    match format
    case B => BranchBounds(s);
    case J => JumpBounds(s);
    case _ =>
  }

  function FieldsOf(format: Format, s: Slices): Fields
    requires s.Valid()
  {
    match format
    case R => Fields(s.opcode, s.rd, s.funct3, s.rs1, s.rs2, s.funct7, 0)
    case I => Fields(s.opcode, s.rd, s.funct3, s.rs1, 0, 0, s.rs2 + 0x20 * s.funct7)
    case S => Fields(s.opcode, 0, s.funct3, s.rs1, s.rs2, 0, s.rd + 0x20 * s.funct7)
    case B =>
      Fields(s.opcode, 0, s.funct3, s.rs1, s.rs2, 0,
             s.rd / 2 * 2 + s.funct7 % 0x40 * 0x20 + s.rd % 2 * 0x800 + s.funct7 / 0x40 * 0x1000)
    case U =>
      Fields(s.opcode, s.rd, 0, 0, 0, 0,
             s.funct3 * 0x1000 + s.rs1 * 0x8000 + s.rs2 * 0x10_0000 + s.funct7 * 0x200_0000)
    case J =>
      Fields(s.opcode, s.rd, 0, 0, 0, 0,
             s.rs2 / 2 * 2 + s.funct7 % 0x40 * 0x20 + s.rs2 % 2 * 0x800
             + s.funct3 * 0x1000 + s.rs1 * 0x8000 + s.funct7 / 0x40 * 0x10_0000)
  }

  /** What a format can express: which fields exist, and how wide they are. */
  predicate WellFormed(format: Format, f: Fields) {
    && f.opcode < 0x80 && f.rd < 0x20 && f.funct3 < 8 && f.rs1 < 0x20 && f.rs2 < 0x20 && f.funct7 < 0x80
    && (match format
        case R => f.imm == 0
        case I => f.rs2 == f.funct7 == 0 && f.imm < 0x1000
        case S => f.rd == f.funct7 == 0 && f.imm < 0x1000
        case B => f.rd == f.funct7 == 0 && f.imm < 0x2000 && f.imm % 2 == 0
        case U => f.funct3 == f.rs1 == f.rs2 == f.funct7 == 0 && f.imm < TWO32 && f.imm % 0x1000 == 0
        case J => f.funct3 == f.rs1 == f.rs2 == f.funct7 == 0 && f.imm < 0x20_0000 && f.imm % 2 == 0)
  }

  /** Where the ISA manual (section 2.3 of the unprivileged specification) puts the fields. */
  function Place(format: Format, f: Fields): (s: Slices)
    requires WellFormed(format, f)
    ensures s.Valid()
  {
    var i := f.imm;
    match format
    case R => Slices(f.opcode, f.rd, f.funct3, f.rs1, f.rs2, f.funct7)
    case I => Slices(f.opcode, f.rd, f.funct3, f.rs1, i % 0x20, i / 0x20)
    case S => Slices(f.opcode, i % 0x20, f.funct3, f.rs1, f.rs2, i / 0x20)
    case B =>
      var bit11 := i / 0x800 % 2;
      Slices(f.opcode, i % 0x20 + bit11, f.funct3, f.rs1, f.rs2, i / 0x20 % 0x40 + i / 0x1000 * 0x40)
    case U =>
      var h := i / 0x1000;
      Slices(f.opcode, f.rd, h % 8, h / 8 % 0x20, h / 0x100 % 0x20, h / 0x2000)
    case J =>
      var bit11 := i / 0x800 % 2;
      var h := i / 0x1000;
      Slices(f.opcode, f.rd, h % 8, h / 8 % 0x20, i % 0x20 + bit11, i / 0x20 % 0x40 + h / 0x100 * 0x40)
  }

  /** The assembler. */
  function Pack(format: Format, f: Fields): u32
    requires WellFormed(format, f)
  {
    Join(Place(format, f))
  }

  // The three immediates that are cut into more than two pieces.

  lemma BranchPieces(a: nat, b: nat, c: nat, d: nat)
    requires a < 0x10 && b < 0x40 && c < 2 && d < 2
    ensures var i := a * 2 + b * 0x20 + c * 0x800 + d * 0x1000;
            i % 0x20 == a * 2 && i / 0x20 % 0x40 == b && i / 0x800 % 2 == c && i / 0x1000 == d && i % 2 == 0
  {
    var i := a * 2 + b * 0x20 + c * 0x800 + d * 0x1000;
    assert i / 0x20 == b + c * 0x40 + d * 0x80;
    assert i / 0x800 == c + d * 2;
  }

  lemma JumpPieces(a: nat, b: nat, c: nat, f: nat, r: nat, d: nat)
    requires a < 0x10 && b < 0x40 && c < 2 && f < 8 && r < 0x20 && d < 2
    ensures var i := a * 2 + b * 0x20 + c * 0x800 + f * 0x1000 + r * 0x8000 + d * 0x10_0000;
            i % 0x20 == a * 2 && i / 0x20 % 0x40 == b && i / 0x800 % 2 == c
            && i / 0x1000 % 8 == f && i / 0x1000 / 8 % 0x20 == r && i / 0x1000 / 0x100 == d
  {
    var i := a * 2 + b * 0x20 + c * 0x800 + f * 0x1000 + r * 0x8000 + d * 0x10_0000;
    var h := f + r * 8 + d * 0x100;
    assert i / 0x20 == b + c * 0x40 + h * 0x80;
    assert i / 0x800 == c + h * 2;
    assert i / 0x1000 == h && h / 8 == r + d * 0x20;
  }

  lemma UpperPieces(f: nat, r: nat, q: nat, t: nat)
    requires f < 8 && r < 0x20 && q < 0x20 && t < 0x80
    ensures var i := f * 0x1000 + r * 0x8000 + q * 0x10_0000 + t * 0x200_0000;
            var h := i / 0x1000;
            i % 0x1000 == 0 && h % 8 == f && h / 8 % 0x20 == r && h / 0x100 % 0x20 == q && h / 0x2000 == t
  {
    var i := f * 0x1000 + r * 0x8000 + q * 0x10_0000 + t * 0x200_0000;
    var h := f + r * 8 + q * 0x100 + t * 0x2000;
    assert i / 0x1000 == h && h / 8 == r + q * 0x20 + t * 0x400 && h / 0x100 == q + t * 0x20;
  }

  lemma PlaceOfBranch(s: Slices)
    requires s.Valid()
    ensures WellFormed(B, FieldsOf(B, s)) && Place(B, FieldsOf(B, s)) == s
  {
    BranchPieces(s.rd / 2, s.funct7 % 0x40, s.rd % 2, s.funct7 / 0x40);
  }

  lemma PlaceOfJump(s: Slices)
    requires s.Valid()
    ensures WellFormed(J, FieldsOf(J, s)) && Place(J, FieldsOf(J, s)) == s
  {
    JumpPieces(s.rs2 / 2, s.funct7 % 0x40, s.rs2 % 2, s.funct3, s.rs1, s.funct7 / 0x40);
  }

  lemma PlaceOfUpper(s: Slices)
    requires s.Valid()
    ensures WellFormed(U, FieldsOf(U, s)) && Place(U, FieldsOf(U, s)) == s
  {
    UpperPieces(s.funct3, s.rs1, s.rs2, s.funct7);
  }

  lemma PlaceOfFields(format: Format, s: Slices)
    requires s.Valid()
    ensures WellFormed(format, FieldsOf(format, s)) && Place(format, FieldsOf(format, s)) == s
  {
    match format
    case B => PlaceOfBranch(s);
    case J => PlaceOfJump(s);
    case U => PlaceOfUpper(s);
    case _ =>
  }

  /** The pieces of an even immediate: bits 4..1, 10..5, 11 and the rest. */
  lemma EvenImmediate(i: nat)
    requires i % 2 == 0
    ensures var bit11 := i / 0x800 % 2; var low := i % 0x20 + bit11;
            low / 2 * 2 == i % 0x20 && low % 2 == bit11 && low < 0x20
            && i == i % 0x20 + i / 0x20 % 0x40 * 0x20 + bit11 * 0x800 + i / 0x1000 * 0x1000
  {
    assert i / 0x20 / 0x40 == i / 0x800 && i / 0x800 / 2 == i / 0x1000;
  }

  lemma FieldsOfBranch(f: Fields)
    requires WellFormed(B, f)
    ensures FieldsOf(B, Place(B, f)) == f
  {
    var i := f.imm;
    EvenImmediate(i);
    BranchFromPieces(f, i % 0x20, i / 0x20 % 0x40, i / 0x800 % 2, i / 0x1000);
  }

  lemma BranchFromPieces(f: Fields, a: nat, b: nat, c: nat, d: nat)
    requires WellFormed(B, f) && a + c < 0x20 && b < 0x40 && d < 2
    requires (a + c) / 2 * 2 == a && (a + c) % 2 == c
    requires f.imm == a + b * 0x20 + c * 0x800 + d * 0x1000
    ensures FieldsOf(B, Slices(f.opcode, a + c, f.funct3, f.rs1, f.rs2, b + d * 0x40)) == f
  {
  }

  lemma FieldsOfJump(f: Fields)
    requires WellFormed(J, f)
    ensures FieldsOf(J, Place(J, f)) == f
  {
    var i := f.imm;
    var a, b, c, h := i % 0x20, i / 0x20 % 0x40, i / 0x800 % 2, i / 0x1000;
    EvenImmediate(i);
    UpperDigits(h);
    JumpFromPieces(f, a, b, c, h % 8, h / 8 % 0x20, h / 0x100);
  }

  lemma JumpFromPieces(f: Fields, a: nat, b: nat, c: nat, l: nat, r: nat, d: nat)
    requires f.opcode < 0x80 && f.rd < 0x20 && f.funct3 == f.rs1 == f.rs2 == f.funct7 == 0
    requires a + c < 0x20 && b < 0x40 && l < 8 && r < 0x20 && d < 2
    requires (a + c) / 2 * 2 == a && (a + c) % 2 == c
    requires f.imm == a + b * 0x20 + c * 0x800 + (l + r * 8 + d * 0x100) * 0x1000
    ensures FieldsOf(J, Slices(f.opcode, f.rd, l, r, a + c, b + d * 0x40)) == f
  {
  }

  lemma FieldsOfUpper(f: Fields)
    requires WellFormed(U, f)
    ensures FieldsOf(U, Place(U, f)) == f
  {
    UpperDigits(f.imm / 0x1000);
  }

  lemma UpperDigits(h: nat)
    ensures h == h % 8 + h / 8 % 0x20 * 8 + h / 0x100 * 0x100
    ensures h / 0x100 == h / 0x100 % 0x20 + h / 0x2000 * 0x20
  {
    assert h / 8 / 0x20 == h / 0x100 && h / 0x100 / 0x20 == h / 0x2000;
  }

  lemma FieldsOfPlace(format: Format, f: Fields)
    requires WellFormed(format, f)
    ensures FieldsOf(format, Place(format, f)) == f
  {
    match format
    case B => FieldsOfBranch(f);
    case J => FieldsOfJump(f);
    case U => FieldsOfUpper(f);
    case _ =>
  }

  /** Assembling and then parsing returns the fields, for every format and all legal operands. */
  lemma ParseOfPack(format: Format, f: Fields)
    requires WellFormed(format, f)
    ensures Parse(format, Pack(format, f)) == f
  {
    SplitOfJoin(Place(format, f));
    FieldsOfPlace(format, f);
  }

  /** Parsing loses nothing: every word is the assembly of its own fields, in every format. */
  lemma PackOfParse(format: Format, w: u32)
    ensures WellFormed(format, Parse(format, w)) && Pack(format, Parse(format, w)) == w
  {
    JoinOfSplit(w);
    PlaceOfFields(format, Split(w));
  }
}

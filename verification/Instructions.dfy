/** What every entry of the table does, from the operands cut out of the word to the whole new state,
    stated by bits, order, congruence and numbers. ExecuteMeans proves it of all executors, OneMeaning
    that it leaves no other outcome. */
module Instructions {
  import opened Words
  import opened Division
  import opened Isa
  import opened Decode
  import opened Parsing
  import opened Mmu
  import opened HartModel
  import opened TrapEntry
  import opened Accesses
  import opened Departures
  import opened Conformance

  // ---------------------------------------------------------------- values

  /** A 12-bit number as a signed one. */
  function Offset12(imm: nat): int {
    if imm < 0x800 then imm else imm - 0x1000
  }

  /** v is a sign-extended 32-bit number that agrees with x in the low 32 bits. */
  predicate IsSignedWord(v: u64, x: int) {
    -0x8000_0000 <= Signed64(v) < 0x8000_0000 && SameModulo(Signed64(v), x, TWO32)
  }

  /** pc is the address of the instruction plus 4. */
  predicate UpperResult(o: UpperOp, pc: u64, imm: u32, v: u64) {
    match o
    case LUI => IsSignedWord(v, imm)
    case AUIPC => SameModulo(v, pc - 4 + imm, TWO64)
  }

  ghost predicate ImmediateResult(o: ImmediateOp, a: u64, imm: u32, v: u64) {
    match o
    case ADDI => SameModulo(v, a + Offset12(imm), TWO64)
    case SLTI | SLTIU => (v == 1 <==> a < imm) && (v == 0 <==> a >= imm)
    case XORI => forall i: nat :: Bit(v, i) == (Bit(a, i) != Bit(imm, i))
    case ORI => forall i: nat :: Bit(v, i) == (Bit(a, i) || Bit(imm, i))
    case ANDI => forall i: nat :: Bit(v, i) == (Bit(a, i) && Bit(imm, i))
    case SLLI => IsShiftedLeft(a, imm, v)
    case SRLI | SRAI => IsShiftedRight(a, imm, v)
  }

  predicate Immediate32Result(o: Immediate32Op, a: u64, imm: u32, v: u64) {
    match o
    case ADDIW => IsSignedWord(v, a + Offset12(imm))
    case _ => v == a
  }

  // ---------------------------------------------------------------- one entry

  predicate UpperMeans(o: UpperOp, h: Hart, f: Fields, r: Exec)
    requires f.rd < 32 && f.imm < TWO32
  {
    OnlyRegister(h, r, f.rd) && UpperResult(o, h.pc, f.imm, r.hart.regs[f.rd])
  }

  ghost predicate ImmediateMeans(o: ImmediateOp, h: Hart, f: Fields, r: Exec)
    requires f.rd < 32 && f.rs1 < 32 && f.imm < TWO32
  {
    if (o == SLLI || o == SRLI || o == SRAI) && f.imm >= 64 then r == Lost
    else OnlyRegister(h, r, f.rd) && ImmediateResult(o, h.regs[f.rs1], f.imm, r.hart.regs[f.rd])
  }

  ghost predicate RegisterMeans(o: RegisterOp, h: Hart, f: Fields, r: Exec)
    requires f.rd < 32 && f.rs1 < 32 && f.rs2 < 32
  {
    if (o == SLL || o == SRL || o == SRA) && h.regs[f.rs2] >= 64 then r == Lost
    else OnlyRegister(h, r, f.rd) && RegisterResult(o, h.regs[f.rs1], h.regs[f.rs2], r.hart.regs[f.rd])
  }

  predicate Immediate32Means(o: Immediate32Op, h: Hart, f: Fields, r: Exec)
    requires f.rd < 32 && f.rs1 < 32 && f.imm < TWO32
  {
    OnlyRegister(h, r, f.rd) && Immediate32Result(o, h.regs[f.rs1], f.imm, r.hart.regs[f.rd])
  }

  ghost predicate Register32Means(o: Register32Op, h: Hart, f: Fields, r: Exec)
    requires f.rd < 32 && f.rs1 < 32 && f.rs2 < 32
  {
    if (o == SLLW || o == SRLW || o == SRAW) && h.regs[f.rs2] >= 64 then r == Lost
    else OnlyRegister(h, r, f.rd) && Register32Result(o, h.regs[f.rs1], h.regs[f.rs2], r.hart.regs[f.rd])
  }

  /** The distance of JAL: the 21-bit immediate, with bit 19 for its sign. */
  function JalDistance(imm: nat): int {
    if imm < 0x8_0000 then imm
    else if imm < 0x10_0000 then imm - 0x10_0000
    else if imm < 0x18_0000 then imm else imm - 0x20_0000
  }

  predicate JalMeans(h: Hart, f: Fields, r: Exec)
    requires f.rd < 32
  {
    r == Done(h.(regs := h.regs[f.rd := h.pc], pc := (h.pc - 4 + JalDistance(f.imm)) % TWO64))
  }

  /** The base register is read after the link is written. */
  predicate JalrMeans(h: Hart, f: Fields, r: Exec)
    requires f.rd < 32 && f.rs1 < 32
  {
    var base := if f.rd == f.rs1 then h.pc else h.regs[f.rs1];
    var target := (base + Offset12(f.imm)) % TWO64;
    r == Done(h.(regs := h.regs[f.rd := h.pc], pc := target - target % 2))
  }

  /** The signed orders are the unsigned ones with 2^63 added to both sides. */
  predicate Holds(o: BranchOp, a: u64, b: u64) {
    match o
    case BEQ => a == b
    case BNE => a != b
    case BLT => (a + TWO63) % TWO64 < (b + TWO63) % TWO64
    case BGE => (a + TWO63) % TWO64 >= (b + TWO63) % TWO64
    case BLTU => a < b
    case BGEU => a >= b
  }

  predicate BranchMeans(o: BranchOp, h: Hart, f: Fields, r: Exec)
    requires f.rs1 < 32 && f.rs2 < 32
  {
    var distance := if f.imm < 0x1000 then f.imm else f.imm - 0x2000;
    r == Done(if Holds(o, h.regs[f.rs1], h.regs[f.rs2]) then h.(pc := (h.pc - 4 + distance) % TWO64) else h)
  }

  /** x is the old value of the CSR, n the register or the 5-bit number, y the new value. */
  ghost predicate CsrResult(o: CsrOp, x: u64, n: u64, y: u64) {
    match o
    case CSRRW | CSRRWI => y == n
    case CSRRS | CSRRSI => forall i: nat :: Bit(y, i) == ((i < 32 && Bit(x, i)) || Bit(n, i))
    case CSRRC | CSRRCI => forall i: nat :: Bit(y, i) == (i < 32 && Bit(x, i) && !Bit(n, i))
  }

  ghost predicate CsrMeans(o: CsrOp, h: Hart, f: Fields, r: Exec)
    requires f.rd < 32 && f.rs1 < 32 && f.imm < 4096
  {
    r.Done? &&
    var x, y := h.csrs[f.imm], r.hart.csrs[f.imm];
    && r.hart == h.(regs := h.regs[f.rd := x % TWO32], csrs := h.csrs[f.imm := y],
                    bus := if f.imm == 0x180
                           then h.bus.(paging := if y >= TWO63 then Sv39 else Bare, root := y % 0x1000_0000_0000)
                           else h.bus)
    && CsrResult(o, x, if o == CSRRW || o == CSRRS || o == CSRRC then h.regs[f.rs1] else f.rs1, y)
  }

  ghost predicate AtomicResult(o: AtomicOp, a: u64, b: u64, v: u64) {
    match o
    case AMOADD => SameModulo(v, a + b, TWO64)
    case AMOXOR => forall i: nat :: Bit(v, i) == (Bit(a, i) != Bit(b, i))
    case AMOAND => forall i: nat :: Bit(v, i) == (Bit(a, i) && Bit(b, i))
    case AMOOR => forall i: nat :: Bit(v, i) == (Bit(a, i) || Bit(b, i))
    case AMOMIN | AMOMINU => v <= a && v <= b && (v == a || v == b)
    case AMOMAX | AMOMAXU => v >= a && v >= b && (v == a || v == b)
    case _ => v == b
  }

  /** LR and SC address the number of rs1, where there is never memory, so they trap. The entries in
      the second group write rd and then rs1; all others write the register whose number is the value
      of rs1 modulo 2^32. */
  ghost predicate AtomicMeans(o: AtomicOp, width: Width, h: Hart, f: Fields, r: Exec)
    requires f.rd < 32 && f.rs1 < 32 && f.rs2 < 32
  {
    var a := h.regs[f.rs1];
    var i := a % TWO32;
    if o == LR || o == SC then
      match h.bus.paging
      case Bare => r == Throw(h, if o == LR then 5 else 7)
      case Sv39 => r == Lost
      case _ => r == Throw(h, 12)
    else if width == Double && o in {AMOSWAP, AMOADD, AMOXOR, AMOAND, AMOOR} then
      && r.Done? && r.hart == h.(regs := h.regs[f.rd := a][f.rs1 := r.hart.regs[f.rs1]])
      && AtomicResult(o, a, if f.rs2 == f.rd then a else h.regs[f.rs2], r.hart.regs[f.rs1])
    else if i >= 32 then r == Lost
    else if o == AMOSWAP then r == Done(h.(regs := h.regs[i := h.regs[f.rs2]][f.rd := a]))
    else OnlyRegister(h, r, i) && AtomicResult(o, a, h.regs[f.rs2], r.hart.regs[i])
  }

  ghost predicate SystemMeans(o: SystemOp, h: Hart, r: Exec) {
    match o
    case SRET => r.Done? && SretDone(h, r.hart)
    case MRET => r.Done? && MretDone(h, r.hart)
    case ECALL => r == Throw(h, match h.mode case User => 8 case Supervisor => 9 case Machine => 11)
    case FENCE | EBREAK => r == Done(h)
  }

  /** Executing the word w as the entry op in h, with the pc advanced, ends as r. */
  ghost predicate Meaning(op: Op, w: u32, h: Hart, r: Exec) {
    match op
    case System(o) => SystemMeans(o, h, r)
    case FENCE_I => r == Done(h)
    case Upper(o) => UpperMeans(o, h, Operands(U, w), r)
    case JAL => JalMeans(h, Operands(J, w), r)
    case JALR => JalrMeans(h, Operands(I, w), r)
    case Branch(o) => BranchMeans(o, h, Operands(B, w), r)
    case Load(o) => LoadMeans(o, h, Operands(I, w), r)
    case Store(o) => StoreMeans(o, h, Operands(S, w), r)
    case Immediate(o) => ImmediateMeans(o, h, Operands(I, w), r)
    case Register(o) => RegisterMeans(o, h, Operands(R, w), r)
    case Immediate32(o) => Immediate32Means(o, h, Operands(if o == ADDIW then I else R, w), r)
    case Register32(o) => Register32Means(o, h, Operands(R, w), r)
    case Csr(o) => CsrMeans(o, h, Operands(I, w), r)
    case Atomic(o, width) => AtomicMeans(o, width, h, Operands(R, w), r)
  }

  // ---------------------------------------------------------------- values of the executors

  lemma SignedWord(v: u64, x: int)
    requires v == Wrap(Signed32(x))
    ensures IsSignedWord(v, x)
  {
    SignedLow32(Low32(x));
    SignedOfWrap(Signed32(x));
    Multiple32(Signed32(x) - x, if Low32(x) < 0x8000_0000 then -(x / TWO32) else -(x / TWO32) - 1);
  }

  lemma UpperValueMeans(o: UpperOp, imm: u32, pc: u64)
    ensures UpperResult(o, pc, imm, UpperValue(o, imm, pc))
  {
    match o
    case LUI => SignedWord(UpperValue(LUI, imm, pc), imm);
    case AUIPC => WrapIsSame(pc + imm - 4);
  }

  lemma OffsetIsSigned(imm: nat)
    requires imm < 0x1000
    ensures SignExtend12(imm) == Offset12(imm)
  {
  }

  lemma ImmediateValueMeans(o: ImmediateOp, a: u64, imm: nat)
    requires imm < 0x1000
    ensures var v := ImmediateValue(o, a, imm);
            if (o == SLLI || o == SRLI || o == SRAI) && imm >= 64 then v == None
            else v.Some? && ImmediateResult(o, a, imm, v.value)
  {
    match o
    case ADDI =>
      OffsetIsSigned(imm);
      WrapIsSame(a + Offset12(imm));
    case SLLI | SRLI | SRAI => if imm < 64 { ShiftsConform(a, imm); }
    case _ =>
  }

  lemma Immediate32ValueMeans(o: Immediate32Op, a: u64, imm: nat)
    requires if o == ADDIW then imm < 0x1000 else imm == 0
    ensures var v := Immediate32Value(o, a, imm); v.Some? && Immediate32Result(o, a, imm, v.value)
  {
    if o == ADDIW {
      OffsetIsSigned(imm);
      var x := a + Offset12(imm);
      Low32OfWrap(x);
      SignedWord(Wrap(Signed32(x)), x);
    } else {
      ShiftByZero(a);
    }
  }

  lemma AtomicValueMeans(o: AtomicOp, a: u64, b: u64)
    ensures AtomicResult(o, a, b, AtomicValue(o, a, b))
  {
    if o == AMOADD { WrapIsSame(a + b); }
  }

  // ---------------------------------------------------------------- executors

  predicate InRange(f: Fields) {
    f.rd < 32 && f.rs1 < 32 && f.rs2 < 32 && f.imm < TWO32
  }

  lemma WriteBackMeans(h: Hart, rd: nat, v: u64)
    requires rd < 32
    ensures var r := WriteBack(Lazy, h, rd, Some(v)); OnlyRegister(h, r, rd) && r.hart.regs[rd] == v
  {
  }

  lemma UpperExecutes(o: UpperOp, h: Hart, f: Fields)
    requires InRange(f)
    ensures UpperMeans(o, h, f, ExecuteFields(Lazy, Upper(o), f, h))
  {
    UpperValueMeans(o, f.imm, h.pc);
    WriteBackMeans(h, f.rd, UpperValue(o, f.imm, h.pc));
  }

  lemma ImmediateExecutes(o: ImmediateOp, h: Hart, f: Fields)
    requires InRange(f) && f.imm < 0x1000
    ensures ImmediateMeans(o, h, f, ExecuteFields(Lazy, Immediate(o), f, h))
  {
    var v := ImmediateValue(o, h.regs[f.rs1], f.imm);
    ImmediateValueMeans(o, h.regs[f.rs1], f.imm);
    if v.Some? { WriteBackMeans(h, f.rd, v.value); }
  }

  lemma RegisterExecutes(o: RegisterOp, h: Hart, f: Fields)
    requires InRange(f)
    ensures RegisterMeans(o, h, f, ExecuteFields(Lazy, Register(o), f, h))
  {
    var v := RegisterValue(o, h.regs[f.rs1], h.regs[f.rs2]);
    RegisterConforms(o, h.regs[f.rs1], h.regs[f.rs2]);
    if v.Some? { WriteBackMeans(h, f.rd, v.value); }
  }

  lemma Immediate32Executes(o: Immediate32Op, h: Hart, f: Fields)
    requires InRange(f) && if o == ADDIW then f.imm < 0x1000 else f.imm == 0
    ensures Immediate32Means(o, h, f, ExecuteFields(Lazy, Immediate32(o), f, h))
  {
    var v := Immediate32Value(o, h.regs[f.rs1], f.imm);
    Immediate32ValueMeans(o, h.regs[f.rs1], f.imm);
    WriteBackMeans(h, f.rd, v.value);
  }

  lemma Register32Executes(o: Register32Op, h: Hart, f: Fields)
    requires InRange(f)
    ensures Register32Means(o, h, f, ExecuteFields(Lazy, Register32(o), f, h))
  {
    var v := Register32Value(o, h.regs[f.rs1], h.regs[f.rs2]);
    Register32Conforms(o, h.regs[f.rs1], h.regs[f.rs2]);
    if v.Some? { WriteBackMeans(h, f.rd, v.value); }
  }

  lemma JalDistanceIsExtended(imm: nat)
    requires imm < 0x20_0000
    ensures SignExtend20(imm) == JalDistance(imm)
  {
  }

  lemma JalExecutes(h: Hart, f: Fields)
    requires InRange(f) && f.imm < 0x20_0000
    ensures JalMeans(h, f, ExecuteFields(Lazy, JAL, f, h))
  {
    JalDistanceIsExtended(f.imm);
  }

  lemma JalrExecutes(h: Hart, f: Fields)
    requires InRange(f) && f.imm < 0x1000
    ensures JalrMeans(h, f, ExecuteFields(Lazy, JALR, f, h))
  {
    OffsetIsSigned(f.imm);
  }

  lemma BranchExecutes(o: BranchOp, h: Hart, f: Fields)
    requires InRange(f) && f.imm < 0x2000
    ensures BranchMeans(o, h, f, ExecuteFields(Lazy, Branch(o), f, h))
  {
    HoldsIsTaken(o, h.regs[f.rs1], h.regs[f.rs2]);
    BranchDistance(f.imm);
  }

  lemma HoldsIsTaken(o: BranchOp, a: u64, b: u64)
    ensures BranchTaken(o, a, b) == Holds(o, a, b)
  {
  }

  lemma BranchDistance(imm: nat)
    requires imm < 0x2000
    ensures SignExtend13(imm) == if imm < 0x1000 then imm else imm - 0x2000
  {
  }

  lemma CsrExecutes(o: CsrOp, h: Hart, f: Fields)
    requires InRange(f) && f.imm < 4096
    ensures CsrMeans(o, h, f, ExecuteFields(Lazy, Csr(o), f, h))
  {
    CsrExchange(h, o, f);
    CsrFrame(o, h, f, ExecuteCsr(Lazy, h, o, f).hart);
  }

  lemma CsrFrame(o: CsrOp, h: Hart, f: Fields, t: Hart)
    requires InRange(f) && f.imm < 4096 && t == ExecuteCsr(Lazy, h, o, f).hart
    ensures var y := t.csrs[f.imm];
            t == h.(regs := h.regs[f.rd := h.csrs[f.imm] % TWO32], csrs := h.csrs[f.imm := y],
                    bus := if f.imm == 0x180
                           then h.bus.(paging := if y >= TWO63 then Sv39 else Bare, root := y % 0x1000_0000_0000)
                           else h.bus)
  {
    var y := t.csrs[f.imm];
    assert y / TWO63 == 1 <==> y >= TWO63;
  }

  lemma ReservedTraps(width: Width, h: Hart, f: Fields)
    requires InRange(f)
    ensures AtomicMeans(LR, width, h, f, ExecuteAtomic(Lazy, h, LR, width, f))
    ensures AtomicMeans(SC, width, h, f, ExecuteAtomic(Lazy, h, SC, width, f))
  {
  }

  lemma AtomicExecutes(o: AtomicOp, width: Width, h: Hart, f: Fields)
    requires InRange(f)
    ensures AtomicMeans(o, width, h, f, ExecuteAtomic(Lazy, h, o, width, f))
  {
    var a := h.regs[f.rs1];
    if o == LR || o == SC {
      ReservedTraps(width, h, f);
    } else {
      AtomicValueMeans(o, a, h.regs[f.rs2]);
      AtomicValueMeans(o, a, a);
    }
  }

  lemma SystemExecutes(o: SystemOp, h: Hart)
    ensures SystemMeans(o, h, ExecuteSystem(o, h))
  {
    SretReturns(h);
    MretReturns(h);
  }

  // ---------------------------------------------------------------- the whole table

  lemma ImmediateBounds(w: u32)
    ensures Parse(J, w).imm < 0x20_0000 && Parse(B, w).imm < 0x2000 && Parse(R, w).imm == 0
  {
    JumpBounds(Split(w));
    BranchBounds(Split(w));
  }

  lemma UpperInstruction(o: UpperOp, w: u32, h: Hart)
    ensures Meaning(Upper(o), w, h, Execute(Lazy, Upper(o), w, h))
  {
    Dispatch(Upper(o), w, h, U, Operands(U, w));
    UpperExecutes(o, h, Operands(U, w));
  }

  lemma ImmediateInstruction(o: ImmediateOp, w: u32, h: Hart)
    ensures Meaning(Immediate(o), w, h, Execute(Lazy, Immediate(o), w, h))
  {
    Dispatch(Immediate(o), w, h, I, Operands(I, w));
    ImmediateExecutes(o, h, Operands(I, w));
  }

  lemma RegisterInstruction(o: RegisterOp, w: u32, h: Hart)
    ensures Meaning(Register(o), w, h, Execute(Lazy, Register(o), w, h))
  {
    Dispatch(Register(o), w, h, R, Operands(R, w));
    RegisterExecutes(o, h, Operands(R, w));
  }

  lemma Immediate32Instruction(o: Immediate32Op, w: u32, h: Hart)
    ensures Meaning(Immediate32(o), w, h, Execute(Lazy, Immediate32(o), w, h))
  {
    var format := if o == ADDIW then I else R;
    ImmediateBounds(w);
    Dispatch(Immediate32(o), w, h, format, Operands(format, w));
    Immediate32Executes(o, h, Operands(format, w));
  }

  lemma Register32Instruction(o: Register32Op, w: u32, h: Hart)
    ensures Meaning(Register32(o), w, h, Execute(Lazy, Register32(o), w, h))
  {
    Dispatch(Register32(o), w, h, R, Operands(R, w));
    Register32Executes(o, h, Operands(R, w));
  }

  lemma ControlInstruction(op: Op, w: u32, h: Hart)
    requires op == JAL || op == JALR || op.Branch?
    ensures Meaning(op, w, h, Execute(Lazy, op, w, h))
  {
    ImmediateBounds(w);
    match op
    case JAL =>
      Dispatch(op, w, h, J, Operands(J, w));
      JalExecutes(h, Operands(J, w));
    case JALR =>
      Dispatch(op, w, h, I, Operands(I, w));
      JalrExecutes(h, Operands(I, w));
    case Branch(o) =>
      Dispatch(op, w, h, B, Operands(B, w));
      BranchExecutes(o, h, Operands(B, w));
  }

  lemma OtherInstruction(op: Op, w: u32, h: Hart)
    requires op.System? || op.Csr? || op.Atomic?
    ensures Meaning(op, w, h, Execute(Lazy, op, w, h))
  {
    match op
    case System(o) =>
      Dispatch(op, w, h, FormatOf(op), Parse(FormatOf(op), w));
      SystemExecutes(o, h);
    case Csr(o) =>
      Dispatch(op, w, h, I, Operands(I, w));
      CsrExecutes(o, h, Operands(I, w));
    case Atomic(o, width) =>
      Dispatch(op, w, h, R, Operands(R, w));
      AtomicExecutes(o, width, h, Operands(R, w));
  }

  /** Every executor of the table, on every word and state. */
  lemma ExecuteMeans(op: Op, w: u32, h: Hart)
    ensures Meaning(op, w, h, Execute(Lazy, op, w, h))
  {
    match op
    case Load(o) => LoadExecutes(o, w, h);
    case Store(o) => StoreExecutes(o, w, h);
    case JAL => ControlInstruction(op, w, h);
    case JALR => ControlInstruction(op, w, h);
    case Branch(_) => ControlInstruction(op, w, h);
    case System(_) => OtherInstruction(op, w, h);
    case Csr(_) => OtherInstruction(op, w, h);
    case Atomic(_, _) => OtherInstruction(op, w, h);
    case FENCE_I => Dispatch(op, w, h, I, Operands(I, w));
    case Upper(o) => UpperInstruction(o, w, h);
    case Immediate(o) => ImmediateInstruction(o, w, h);
    case Register(o) => RegisterInstruction(o, w, h);
    case Immediate32(o) => Immediate32Instruction(o, w, h);
    case Register32(o) => Register32Instruction(o, w, h);
  }
}

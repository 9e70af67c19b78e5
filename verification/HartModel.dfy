/** One hart as a value, and every operation of the `CPU` class (source/cpu.cpp, include/cpu.h) as
    a function on it. The class in Cpu.dfy updates its fields in place and is proved against these
    functions; the theorems about runs are about them. */
module HartModel {
  import opened Words
  import opened Isa
  import opened Decode
  import opened Division
  import opened Traps
  import opened Mmu

  // CSR numbers
  const SSTATUS := 0x100
  const STVEC := 0x105
  const SEPC := 0x141
  const SCAUSE := 0x142
  const STVAL := 0x143
  const SATP := 0x180
  const MSTATUS := 0x300
  const MEDELEG := 0x302
  const MIE := 0x304
  const MTVEC := 0x305
  const MEPC := 0x341
  const MCAUSE := 0x342
  const MTVAL := 0x343
  const MIP := 0x344

  // Bits of sstatus and mstatus
  const SIE := 1
  const SPIE := 5
  const SPP := 8
  const M_IE := 3
  const M_PIE := 7

  datatype Mode = User | Supervisor | Machine

  type RegFile = s: seq<u64> | |s| == 32 witness seq(32, i => 0)
  type CsrFile = s: seq<u64> | |s| == 4096 witness seq(4096, i => 0)

  datatype Hart = Hart(pc: u64, mode: Mode, regs: RegFile, csrs: CsrFile, bus: Bus)

  /** How register 0 is kept at zero: the source clears it at the start of each step and lets
      instructions write it; the ISA makes it read as zero and drop writes. */
  datatype X0 = Lazy | Hardwired

  // ---------------------------------------------------------------- setters and getters

  function Reg(x: X0, h: Hart, i: nat): u64
    requires i < 32
  {
    if x.Hardwired? && i == 0 then 0 else h.regs[i]
  }

  function WithReg(x: X0, h: Hart, i: nat, v: u64): Hart
    requires i < 32
  {
    if x.Hardwired? && i == 0 then h else h.(regs := h.regs[i := v])
  }

  function UpdatePagingMode(bus: Bus, satp: u64): Bus {
    bus.(paging := if satp / TWO63 == 1 then Sv39 else Bare, root := satp % 0x1000_0000_0000)
  }

  function WithCsr(h: Hart, i: nat, v: u64): Hart
    requires i < 4096
  {
    h.(csrs := h.csrs[i := v], bus := if i == SATP then UpdatePagingMode(h.bus, v) else h.bus)
  }

  // ---------------------------------------------------------------- traps and returns

  /** The vector that HandleTrap enters: in vectored mode an interrupt adds 4 * cause, in 64 bits. */
  function TrapTarget(tvec: u64, c: Cause): u64 {
    if IsInterrupt(c) && tvec % 2 == 1 then Wrap(EvenFloor(tvec) + Wrap(4 * c)) else EvenFloor(tvec)
  }

  /** medeleg decides for exceptions and interrupts alike. */
  predicate Delegated(h: Hart, c: Cause) {
    h.mode != Machine && Bit(h.csrs[MEDELEG], CauseIndex(c))
  }

  function EnterSupervisor(h: Hart, c: Cause): Hart {
    var s := h.csrs[SSTATUS];
    var s1 := Put(s, SPIE, Bit(s, SIE));
    var s2 := Put(s1, SIE, false);
    var s3 := Put(s2, SPP, h.mode != User);
    h.(pc := TrapTarget(h.csrs[STVEC], c), mode := Supervisor,
       csrs := h.csrs[SEPC := EvenFloor(Wrap(h.pc - 4))][SCAUSE := c][STVAL := 0][SSTATUS := s3])
  }

  function EnterMachine(h: Hart, c: Cause): Hart {
    var m := h.csrs[MSTATUS];
    var m1 := Put(m, M_PIE, Bit(m, M_IE));
    var m2 := Put(m1, M_IE, false);
    var m3 := Put(Put(m2, 11, false), 12, false);
    h.(pc := TrapTarget(h.csrs[MTVEC], c), mode := Machine,
       csrs := h.csrs[MEPC := EvenFloor(Wrap(h.pc - 4))][MCAUSE := c][MTVAL := 0][MSTATUS := m3])
  }

  function HandleTrap(h: Hart, c: Cause): Hart {
    if Delegated(h, c) then EnterSupervisor(h, c) else EnterMachine(h, c)
  }

  function Sret(h: Hart): Hart {
    var s := h.csrs[SSTATUS];
    var s1 := Put(s, SIE, Bit(s, SPIE));
    var s2 := Put(s1, SPIE, true);
    var s3 := Put(s2, SPP, false);
    h.(pc := h.csrs[SEPC], mode := if Bit(s, SPP) then Supervisor else User, csrs := h.csrs[SSTATUS := s3])
  }

  /** The two MPP bits as the source reads them: 2 is taken for machine mode, 1 for supervisor mode,
      0 and 3 for user mode. */
  function ModeOfMpp(m: u64): Mode {
    match (Bit(m, 12), Bit(m, 11))
    case (true, false) => Machine
    case (false, true) => Supervisor
    case _ => User
  }

  function Mret(h: Hart): Hart {
    var m := h.csrs[MSTATUS];
    var m1 := Put(m, M_IE, Bit(m, M_PIE));
    var m2 := Put(m1, M_PIE, true);
    var m3 := Put(Put(m2, 11, false), 12, false);
    h.(pc := h.csrs[MEPC], mode := ModeOfMpp(m), csrs := h.csrs[MSTATUS := m3])
  }

  // ---------------------------------------------------------------- interrupts

  /** The keys of `interrupt_handlers` as bit indices: a `std::map` iterates in ascending order. */
  const INTERRUPTS: seq<nat> := [1, 3, 5, 7, 9, 11]

  predicate InterruptsEnabled(h: Hart) {
    match h.mode
    case Machine => Bit(h.csrs[MSTATUS], M_IE)
    case Supervisor => Bit(h.csrs[SSTATUS], SIE)
    case User => true
  }

  predicate Pending(h: Hart, i: nat) {
    Bit(h.csrs[MIE], i) && Bit(h.csrs[MIP], i)
  }

  function FirstPending(h: Hart, order: seq<nat>): Option<nat> {
    if order == [] then None
    else if Pending(h, order[0]) then Some(order[0])
    else FirstPending(h, order[1..])
  }

  function TakeInterrupt(h: Hart, i: nat): Hart
    requires i < 16
  {
    HandleTrap(WithCsr(h, MIP, Put(h.csrs[MIP], i, false)), InterruptCause(i))
  }

  lemma {:induction false} FirstPendingIsListed(h: Hart, order: seq<nat>)
    ensures FirstPending(h, order).Some? ==>
              FirstPending(h, order).value in order && Pending(h, FirstPending(h, order).value)
    ensures FirstPending(h, order).None? ==> forall i :: i in order ==> !Pending(h, i)
  {
    if order != [] && !Pending(h, order[0]) {
      FirstPendingIsListed(h, order[1..]);
      assert order == [order[0]] + order[1..];
    }
  }

  /** The interrupt that HandleInterrupts would deliver now. */
  function NextInterrupt(h: Hart): (r: Option<nat>)
    ensures r.Some? ==> r.value in {1, 3, 5, 7, 9, 11} && Pending(h, r.value)
  {
    FirstPendingIsListed(h, INTERRUPTS);
    if InterruptsEnabled(h) then FirstPending(h, INTERRUPTS) else None
  }

  function HandleInterrupts(h: Hart): Hart {
    match NextInterrupt(h)
    case None => h
    case Some(i) => TakeInterrupt(h, i)
  }

  // ---------------------------------------------------------------- operand functions

  /** `sign_extend_12b`, `_13b` and `_20b`: or-ing ones above the sign bit, then `int32_t`. */
  function SignExtend12(imm: nat): int {
    if imm / 0x800 % 2 == 1 then imm % 0x1000 - 0x1000 else imm
  }

  function SignExtend13(imm: nat): int {
    if imm / 0x1000 % 2 == 1 then imm % 0x2000 - 0x2000 else imm
  }

  function SignExtend20(imm: nat): int {
    if imm / 0x8_0000 % 2 == 1 then imm % 0x10_0000 - 0x10_0000 else imm
  }

  /** `a << n`; a shift by 64 or more is undefined. */
  function ShiftLeft(a: u64, n: u64): Option<u64> {
    if n < 64 then Some(Wrap(a * Pow2(n))) else None
  }

  function ShiftRight(a: u64, n: u64): Option<u64> {
    if n < 64 then Some(Quotient(a, Pow2(n))) else None
  }

  function UpperValue(op: UpperOp, imm: u32, pc: u64): u64 {
    match op
    case LUI => Wrap(Signed32(imm))
    case AUIPC => Wrap(pc + imm - 4)
  }

  function ImmediateValue(op: ImmediateOp, a: u64, imm: u32): Option<u64> {
    match op
    case ADDI => Some(Wrap(a + SignExtend12(imm)))
    case SLTI => Some(BitValue(a < imm))
    case SLTIU => Some(BitValue(a < imm))
    case XORI => Some(Xor(a, imm))
    case ORI => Some(Or(a, imm))
    case ANDI => Some(And(a, imm))
    case SLLI => ShiftLeft(a, imm)
    case SRLI => ShiftRight(a, imm)
    case SRAI => ShiftRight(a, imm)
  }

  function RegisterValue(op: RegisterOp, a: u64, b: u64): Option<u64> {
    match op
    case ADD => Some(Wrap(a + b))
    case SUB => Some(Wrap(a - b))
    case SLL => ShiftLeft(a, b)
    case SLT => Some(BitValue(a < b))
    case SLTU => Some(BitValue(a < b))
    case XOR => Some(Xor(a, b))
    case SRL => ShiftRight(a, b)
    case SRA => ShiftRight(a, b)
    case OR => Some(Or(a, b))
    case AND => Some(And(a, b))
    case MUL => Some(Mul(a, b))
    case MULH => Some(Mul(a, b))
    case MULHSU => Some(Mul(a, b))
    case MULHU => Some(Mul(a, b))
    case DIV => Some(Div(a, b))
    case DIVU => Some(Divu(a, b))
    case REM => Some(Rem(a, b))
    case REMU => Some(Remu(a, b))
  }

  /** The 32-bit shifts parse the R format, whose imm is 0, and shift by that. */
  function Immediate32Value(op: Immediate32Op, a: u64, imm: u32): Option<u64> {
    match op
    case ADDIW => Some(Wrap(Signed32(Wrap(a + SignExtend12(imm)))))
    case SLLIW => ShiftLeft(a, imm)
    case SRLIW => ShiftRight(a, imm)
    case SRAIW => ShiftRight(a, imm)
  }

  function Register32Value(op: Register32Op, a: u64, b: u64): Option<u64> {
    match op
    case ADDW => Some(Wrap(a + b))
    case SUBW => Some(Wrap(a - b))
    case SLLW => ShiftLeft(a, b)
    case SRLW => ShiftRight(a, b)
    case SRAW => ShiftRight(a, b)
    case MULW => Some(Mul(a, b))
    case DIVW => Some(Divw(a, b))
    case DIVUW => Some(Divuw(a, b))
    case REMW => Some(Remw(a, b))
    case REMUW => Some(Remuw(a, b))
  }

  predicate BranchTaken(op: BranchOp, a: u64, b: u64) {
    match op
    case BEQ => a == b
    case BNE => a != b
    case BLT => Signed64(a) < Signed64(b)
    case BGE => Signed64(a) >= Signed64(b)
    case BLTU => a < b
    case BGEU => a >= b
  }

  function LoadSize(op: LoadOp): nat {
    match op
    case LB | LBU => 1
    case LH | LHU => 2
    case LW | LWU => 4
    case LD => 8
  }

  /** `static_cast<int8_t>` and so on, then conversion to `uint64_t`. */
  function SignExtendTo64(d: u64, m: nat): u64
    requires m > 0
  {
    Wrap(if d % m < m / 2 then d % m else d % m - m)
  }

  function LoadValue(op: LoadOp, d: u64): u64 {
    match op
    case LB => SignExtendTo64(d, 0x100)
    case LH => SignExtendTo64(d, 0x1_0000)
    case LW => SignExtendTo64(d, 0x1_0000_0000)
    case _ => d
  }

  function StoreSize(op: StoreOp): nat {
    match op
    case SB => 1
    case SH => 2
    case SW => 4
    case SD => 8
  }

  /** The old value arrives through a `uint32_t`. */
  function CsrValue(op: CsrOp, old32: u32, a: u64, rs1: nat): u64
    requires rs1 < 32
  {
    match op
    case CSRRW => a
    case CSRRS => Or(old32, a)
    case CSRRC => And(old32, Not(a))
    case CSRRWI => rs1
    case CSRRSI => Or(old32, rs1)
    case CSRRCI => And(old32, TWO32 - 1 - rs1)
  }

  function AtomicValue(op: AtomicOp, a: u64, b: u64): u64 {
    match op
    case AMOADD => Wrap(a + b)
    case AMOXOR => Xor(a, b)
    case AMOAND => And(a, b)
    case AMOOR => Or(a, b)
    case AMOMIN | AMOMINU => if b < a then b else a
    case AMOMAX | AMOMAXU => if a < b then b else a
    case _ => b
  }

  /** The .D entries that write rd and then rs1; all others use the value of rs1 as the index. */
  predicate WritesRs1(op: AtomicOp, width: Width) {
    width.Double? && (op.AMOSWAP? || op.AMOADD? || op.AMOXOR? || op.AMOAND? || op.AMOOR?)
  }

  // ---------------------------------------------------------------- execute

  /** How an `execute` lambda ends: normally, by throwing in the given state, or undefined. */
  datatype Exec =
    | Done(hart: Hart)
    | Throw(hart: Hart, cause: Cause)
    | Lost

  function WriteBack(x: X0, h: Hart, rd: nat, v: Option<u64>): Exec
    requires rd < 32
  {
    match v
    case None => Lost
    case Some(r) => Done(WithReg(x, h, rd, r))
  }

  function ExecuteSystem(op: SystemOp, h: Hart): Exec {
    match op
    case SRET => Done(Sret(h))
    case MRET => Done(Mret(h))
    case ECALL =>
      Throw(h, match h.mode
               case Machine => ECALL_FROM_MACHINE
               case Supervisor => ECALL_FROM_SUPERVISOR
               case User => ECALL_FROM_USER)
    case FENCE | EBREAK => Done(h)
  }

  function ExecuteJal(x: X0, h: Hart, rd: nat, imm: u32): Exec
    requires rd < 32
  {
    Done(WithReg(x, h, rd, h.pc).(pc := Wrap(h.pc + SignExtend20(imm) - 4)))
  }

  function ExecuteBranch(h: Hart, taken: bool, imm: u32): Exec {
    Done(if taken then h.(pc := Wrap(h.pc + SignExtend13(imm) - 4)) else h)
  }

  /** The link register is written before rs1 is read. */
  function ExecuteJalr(x: X0, h: Hart, rd: nat, rs1: nat, imm: u32): Exec
    requires rd < 32 && rs1 < 32
  {
    var h1 := WithReg(x, h, rd, h.pc);
    Done(h1.(pc := EvenFloor(Wrap(Reg(x, h1, rs1) + SignExtend12(imm)))))
  }

  function ExecuteLoad(x: X0, h: Hart, rd: nat, addr: u64, op: LoadOp): Exec
    requires rd < 32
  {
    match BusLoad(h.bus, addr, LoadSize(op))
    case Data(d) => Done(WithReg(x, h, rd, LoadValue(op, d)))
    case Fault(c) => Throw(h, c)
    case NoValue => Lost
  }

  function ExecuteStore(h: Hart, addr: u64, size: nat, d: u64): Exec {
    match BusStore(h.bus, addr, size, d)
    case Stored(m) => Done(h.(bus := h.bus.(ram := m)))
    case StoreFault(c) => Throw(h, c)
    case StoreLost => Lost
  }

  function ExecuteCsr(x: X0, h: Hart, op: CsrOp, f: Fields): Exec
    requires f.rd < 32 && f.rs1 < 32 && f.imm < 4096
  {
    var old32 := Low32(h.csrs[f.imm]);
    var h1 := WithCsr(h, f.imm, CsrValue(op, old32, Reg(x, h, f.rs1), f.rs1));
    Done(WithReg(x, h1, f.rd, old32))
  }

  /** The executors of the A extension use the number of rs1 as the address, and most of them use
      the value of rs1 as the number of the register to write. */
  function ExecuteAtomic(x: X0, h: Hart, op: AtomicOp, width: Width, f: Fields): Exec
    requires f.rd < 32 && f.rs1 < 32 && f.rs2 < 32
  {
    var size := if width.Word? then 4 else 8;
    var data := Reg(x, h, f.rs1);
    if op.LR? then
      match BusLoad(h.bus, f.rs1, size)
      case Data(d) => Done(WithReg(x, h, f.rd, d))
      case Fault(c) => Throw(h, c)
      case NoValue => Lost
    else if op.SC? then
      match ExecuteStore(h, f.rs1, size, Reg(x, h, f.rs2))
      case Done(h1) => Done(WithReg(x, h1, f.rd, 0))
      case r => r
    else if WritesRs1(op, width) then
      var h1 := WithReg(x, h, f.rd, data);
      Done(WithReg(x, h1, f.rs1, AtomicValue(op, data, Reg(x, h1, f.rs2))))
    else if Low32(data) < 32 then
      var h1 := WithReg(x, h, Low32(data), AtomicValue(op, data, Reg(x, h, f.rs2)));
      Done(if op.AMOSWAP? then WithReg(x, h1, f.rd, data) else h1)
    else Lost
  }

  /** The `execute` lambda of each entry. */
  function Execute(x: X0, op: Op, w: u32, h: Hart): Exec {
    ExecuteFields(x, op, Parse(FormatOf(op), w), h)
  }

  function ExecuteFields(x: X0, op: Op, f: Fields, h: Hart): Exec
    requires f.rd < 32 && f.rs1 < 32 && f.rs2 < 32 && f.imm < TWO32 && (op.Csr? ==> f.imm < 4096)
  {
    var a, b := Reg(x, h, f.rs1), Reg(x, h, f.rs2);
    match op
    case System(o) => ExecuteSystem(o, h)
    case Upper(o) => WriteBack(x, h, f.rd, Some(UpperValue(o, f.imm, h.pc)))
    case JAL => ExecuteJal(x, h, f.rd, f.imm)
    case JALR => ExecuteJalr(x, h, f.rd, f.rs1, f.imm)
    case Branch(o) => ExecuteBranch(h, BranchTaken(o, a, b), f.imm)
    case Load(o) => ExecuteLoad(x, h, f.rd, Wrap(a + f.imm), o)
    case Store(o) => ExecuteStore(h, Wrap(a + f.imm), StoreSize(o), b)
    case Immediate(o) => WriteBack(x, h, f.rd, ImmediateValue(o, a, f.imm))
    case Register(o) => WriteBack(x, h, f.rd, RegisterValue(o, a, b))
    case Immediate32(o) => WriteBack(x, h, f.rd, Immediate32Value(o, a, f.imm))
    case Register32(o) => WriteBack(x, h, f.rd, Register32Value(o, a, b))
    case FENCE_I => Done(h)
    case Csr(o) => ExecuteCsr(x, h, o, f)
    case Atomic(o, width) => ExecuteAtomic(x, h, o, width, f)
  }

  // ---------------------------------------------------------------- step and run

  /** How a `Step` ends: it returns, an exception leaves it (only Fetch and Decode are outside its
      try block), or it is undefined. */
  datatype StepResult =
    | Retired(hart: Hart)
    | Escaped(hart: Hart, cause: Cause)
    | Crashed

  function Begin(x: X0, h: Hart): Hart {
    if x.Lazy? then h.(regs := h.regs[0 := 0]) else h
  }

  function Advance(h: Hart): Hart {
    h.(pc := Wrap(h.pc + 4))
  }

  function Finish(r: Exec): StepResult {
    match r
    case Done(h) => Retired(HandleInterrupts(h))
    case Throw(h, c) => Retired(HandleInterrupts(HandleTrap(h, c)))
    case Lost => Crashed
  }

  /** Decode and the rest of a step, once the word w is fetched and the pc advanced. */
  function Proceed(x: X0, w: u32, h: Hart): StepResult {
    match DecodeWord(w)
    case None => Escaped(h, ILLEGAL_INSTRUCTION)
    case Some(op) => Finish(Execute(x, op, w, h))
  }

  function Step(x: X0, h: Hart): StepResult {
    var h0 := Begin(x, h);
    match BusLoad(h0.bus, h0.pc, 4)
    case Fault(c) => Escaped(h0, c)
    case NoValue => Crashed
    case Data(d) => Proceed(x, Low32(d), Advance(h0))
  }

  /** One round of the loop of `Run`, which catches what escapes from the step. */
  function Next(x: X0, h: Hart): Option<Hart> {
    match Step(x, h)
    case Retired(t) => Some(t)
    case Escaped(t, _) => Some(t)
    case Crashed => None
  }

  /** n rounds. */
  function Run(x: X0, h: Hart, n: nat): Option<Hart>
    decreases n
  {
    if n == 0 then Some(h)
    else
      match Next(x, h)
      case Some(t) => Run(x, t, n - 1)
      case None => None
  }

  /** The state that the constructor leaves. */
  function Initial(entry: u64, garbage: u64, ram: seq<byte>): Hart {
    Hart(entry, Machine, seq(32, i => 0), seq(4096, i => 0), Bus(Bare, garbage, ram))
  }
}

/** What assembled instructions do when they are decoded and executed: control-flow targets, the
    two-instruction constant, store and load, and CSR reads. */
module Programs {
  import opened Words
  import opened Isa
  import opened Decode
  import opened Division
  import opened Traps
  import opened Ram
  import opened Mmu
  import opened HartModel

  /** The fields belong to the instruction: they fit its format and hold its opcode and functs. */
  predicate Encodes(op: Op, f: Fields) {
    WellFormed(FormatOf(op), f) && HasPattern(op, f)
  }

  /** For every instruction and all its fields: the assembled word decodes to the instruction, and its
      executor runs with those fields. The theorems below are about ExecuteFields. */
  lemma AssembledRuns(x: X0, op: Op, f: Fields, h: Hart)
    requires Encodes(op, f) && op != FENCE_I
    ensures var w := Pack(FormatOf(op), f);
            DecodeWord(w) == Some(op) && Execute(x, op, w, h) == ExecuteFields(x, op, f, h)
  {
    DecodeOfAssembled(op, f);
  }

  // ---------------------------------------------------------------- another table

  /** One step of a hart that scans the table t. */
  function ProceedBy(t: seq<Op>, x: X0, w: u32, h: Hart): StepResult {
    match Scan(t, w)
    case None => Escaped(h, ILLEGAL_INSTRUCTION)
    case Some(op) => Finish(Execute(x, op, w, h))
  }

  function StepBy(t: seq<Op>, x: X0, h: Hart): StepResult {
    var h0 := Begin(x, h);
    match BusLoad(h0.bus, h0.pc, 4)
    case Fault(c) => Escaped(h0, c)
    case NoValue => Crashed
    case Data(d) => ProceedBy(t, x, Low32(d), Advance(h0))
  }

  lemma FenceDoesNothing(op: Op, x: X0, w: u32, h: Hart)
    requires IsFence(Some(op))
    ensures Execute(x, op, w, h) == Done(h)
  {
  }

  lemma ProceedByAnyTable(t: seq<Op>, x: X0, w: u32, h: Hart)
    requires forall op :: op in TABLE ==> op in t
    ensures ProceedBy(t, x, w, h) == Proceed(x, w, h)
  {
    DecodeIgnoresOrder(t, w);
    if Scan(t, w) != DecodeWord(w) {
      FenceDoesNothing(Scan(t, w).value, x, w, h);
      FenceDoesNothing(DecodeWord(w).value, x, w, h);
    }
  }

  /** Reordering the table, or repeating entries, changes no step: the only words that two entries
      match decode to a fence either way, and both fences do nothing. */
  lemma StepIgnoresOrder(t: seq<Op>, x: X0, h: Hart)
    requires forall op :: op in TABLE ==> op in t
    ensures StepBy(t, x, h) == Step(x, h)
  {
    var h0 := Begin(x, h);
    if BusLoad(h0.bus, h0.pc, 4).Data? {
      ProceedByAnyTable(t, x, Low32(BusLoad(h0.bus, h0.pc, 4).value), Advance(h0));
    }
  }

  // ---------------------------------------------------------------- branches and jumps

  predicate IsBranchOffset(d: int) { -0x1000 <= d < 0x1000 && d % 2 == 0 }
  predicate IsJumpOffset(d: int) { -0x10_0000 <= d < 0x10_0000 && d % 2 == 0 }

  function BranchFields(b: BranchOp, rs1: nat, rs2: nat, d: int): Fields
    requires IsBranchOffset(d)
  {
    Fields(0x63, 0, BranchFunct3(b), rs1, rs2, 0, d % 0x2000)
  }

  lemma BranchOffset(d: int)
    requires IsBranchOffset(d)
    ensures SignExtend13(d % 0x2000) == d
  {
  }

  /** For all registers and all even 13-bit signed offsets: the branch goes to its own pc plus the
      offset if taken and to the next instruction otherwise, modulo 2^64, and changes nothing else.
      h is the state before the fetch. */
  lemma BranchLands(b: BranchOp, rs1: nat, rs2: nat, d: int, h: Hart)
    requires rs1 < 32 && rs2 < 32 && IsBranchOffset(d)
    ensures Encodes(Branch(b), BranchFields(b, rs1, rs2, d))
    ensures ExecuteFields(Lazy, Branch(b), BranchFields(b, rs1, rs2, d), Advance(h))
         == Done(h.(pc := Wrap(h.pc + if BranchTaken(b, h.regs[rs1], h.regs[rs2]) then d else 4)))
  {
    BranchTarget(h, BranchTaken(b, h.regs[rs1], h.regs[rs2]), d);
  }

  lemma BranchTarget(h: Hart, taken: bool, d: int)
    requires IsBranchOffset(d)
    ensures ExecuteBranch(Advance(h), taken, d % 0x2000) == Done(h.(pc := Wrap(h.pc + if taken then d else 4)))
  {
    BranchOffset(d);
    PcArithmetic(h.pc, d);
  }

  lemma PcArithmetic(pc: u64, d: int)
    ensures Wrap(Wrap(pc + 4) + d - 4) == Wrap(pc + d)
  {
    WrapSum(pc + 4, d - 4);
    WrapSum(Wrap(pc + 4), d - 4);
  }

  function JalFields(rd: nat, d: int): Fields
    requires IsJumpOffset(d)
  {
    Fields(0x6f, rd, 0, 0, 0, 0, d % 0x20_0000)
  }

  lemma JumpOffset(d: int)
    requires IsJumpOffset(d)
    ensures SignExtend20(d % 0x20_0000) == d <==> -0x8_0000 <= d < 0x8_0000
    ensures -0x10_0000 <= SignExtend20(d % 0x20_0000) < 0x20_0000
  {
  }

  /** JAL sign-extends its 21-bit immediate from bit 19. It goes to its own pc plus the offset exactly
      when the offset fits 20 bits, that is, when bits 19 and 20 of the immediate agree. */
  lemma JalLands(rd: nat, d: int, h: Hart)
    requires rd < 32 && IsJumpOffset(d)
    ensures Encodes(JAL, JalFields(rd, d))
    ensures var r := ExecuteFields(Lazy, JAL, JalFields(rd, d), Advance(h));
            && r == Done(h.(regs := h.regs[rd := Wrap(h.pc + 4)], pc := r.hart.pc))
            && (r.hart.pc == Wrap(h.pc + d) <==> -0x8_0000 <= d < 0x8_0000)
  {
    JalTarget(h, rd, d);
  }

  lemma JalTarget(h: Hart, rd: nat, d: int)
    requires rd < 32 && IsJumpOffset(d)
    ensures var r := ExecuteJal(Lazy, Advance(h), rd, d % 0x20_0000);
            && r == Done(h.(regs := h.regs[rd := Wrap(h.pc + 4)], pc := r.hart.pc))
            && (r.hart.pc == Wrap(h.pc + d) <==> -0x8_0000 <= d < 0x8_0000)
  {
    JumpOffset(d);
    PcArithmetic(h.pc, SignExtend20(d % 0x20_0000));
    NearOffsetsDiffer(h.pc, d, SignExtend20(d % 0x20_0000));
  }

  lemma NearOffsetsDiffer(pc: u64, d: int, e: int)
    requires -0x10_0000 <= d < 0x20_0000 && -0x10_0000 <= e < 0x20_0000
    ensures Wrap(pc + d) == Wrap(pc + e) <==> d == e
  {
  }

  lemma EvenPlus(z: int, b: nat)
    requires z % 2 == 0 && b < 2
    ensures EvenFloor(Wrap(z + b)) == Wrap(z)
  {
  }

  /** An even distance does not change where two targets agree up to bit 0. */
  lemma EvenDistance(z: int, d: int)
    requires d % 2 == 0
    ensures EvenFloor(Wrap(z + d)) == Wrap(EvenFloor(Wrap(z)) + d)
  {
    WrapOnce(z, d);
    EvenShift(Wrap(z), d);
  }

  lemma EvenShift(y: u64, d: int)
    requires d % 2 == 0
    ensures EvenFloor(Wrap(y + d)) == Wrap(EvenFloor(y) + d)
  {
    EvenPlus(EvenFloor(y) + d, y % 2);
  }

  lemma WrapOnce(x: int, d: int)
    ensures Wrap(Wrap(x) + d) == Wrap(x + d)
  {
    WrapShift(Wrap(x) + d, x / TWO64);
  }

  lemma WrapIsInjective(x: u64, y: u64, d: int)
    ensures Wrap(x + d) == Wrap(y + d) <==> x == y
  {
  }

  lemma TargetsAgree(x: u64, y: u64, e: int, p: nat)
    requires (e - p) % 2 == 0
    ensures EvenFloor(Wrap(x + e)) == EvenFloor(Wrap(y + e)) <==> EvenFloor(Wrap(x + p)) == EvenFloor(Wrap(y + p))
  {
    var d := e - p;
    EvenDistance(x + p, d);
    EvenDistance(y + p, d);
    WrapIsInjective(EvenFloor(Wrap(x + p)), EvenFloor(Wrap(y + p)), d);
  }

  /** JALR writes its link before it reads rs1: it goes to the old value of rs1 plus the signed offset
      exactly when rd is another register, or the link is the old value up to the bit that is cleared
      (bit 0, after adding 1 if the offset is odd). */
  lemma JalrTarget(h: Hart, rd: nat, rs1: nat, imm: u32)
    requires rd < 32 && rs1 < 32
    ensures var r := ExecuteJalr(Lazy, Advance(h), rd, rs1, imm).hart;
            var link := Wrap(h.pc + 4);
            && r.regs == h.regs[rd := link]
            && (r.pc == EvenFloor(Wrap(h.regs[rs1] + SignExtend12(imm))) <==>
                rd != rs1 || EvenFloor(Wrap(link + imm % 2)) == EvenFloor(Wrap(h.regs[rs1] + imm % 2)))
  {
    JalrTargetsAgree(Wrap(h.pc + 4), h.regs[rs1], imm);
  }

  lemma JalrTargetsAgree(x: u64, y: u64, imm: u32)
    ensures var e := SignExtend12(imm);
            EvenFloor(Wrap(x + e)) == EvenFloor(Wrap(y + e))
            <==> EvenFloor(Wrap(x + imm % 2)) == EvenFloor(Wrap(y + imm % 2))
  {
    OffsetParity(imm);
    TargetsAgree(x, y, SignExtend12(imm), imm % 2);
  }

  lemma OffsetParity(imm: nat)
    ensures (SignExtend12(imm) - imm % 2) % 2 == 0
  {
  }

  /** From an even pc with an even base register: exactly when rd is another register, or rs1 already
      holds the link. */
  lemma JalrTargetFromEven(h: Hart, rd: nat, rs1: nat, imm: u32)
    requires rd < 32 && rs1 < 32 && h.pc % 2 == 0 && h.regs[rs1] % 2 == 0
    ensures ExecuteJalr(Lazy, Advance(h), rd, rs1, imm).hart.pc == EvenFloor(Wrap(h.regs[rs1] + SignExtend12(imm)))
       <==> rd != rs1 || h.regs[rs1] == Wrap(h.pc + 4)
  {
    JalrTarget(h, rd, rs1, imm);
    EvenBases(Wrap(h.pc + 4), h.regs[rs1], imm % 2);
  }

  lemma EvenBases(x: u64, y: u64, p: nat)
    requires x % 2 == 0 && y % 2 == 0 && p < 2
    ensures EvenFloor(Wrap(x + p)) == EvenFloor(Wrap(y + p)) <==> x == y
  {
    EvenPlus(x, p);
    EvenPlus(y, p);
  }

  // ---------------------------------------------------------------- constants

  predicate IsInt32(c: int) { -0x8000_0000 <= c < 0x8000_0000 }

  /** The signed low 12 bits, and what LUI must supply above them. */
  function LowPart(c: int): int {
    if c % 0x1000 < 0x800 then c % 0x1000 else c % 0x1000 - 0x1000
  }

  function HighPart(c: int): nat {
    (c - LowPart(c)) / 0x1000 % 0x10_0000
  }

  function LuiFields(rd: nat, c: int): Fields {
    Fields(0x37, rd, 0, 0, 0, 0, HighPart(c) * 0x1000)
  }

  function AddiwFields(rd: nat, c: int): Fields {
    Fields(0x1b, rd, 0, rd, 0, 0, LowPart(c) % 0x1000)
  }

  lemma LowPartExtends(c: int)
    ensures SignExtend12(LowPart(c) % 0x1000) == LowPart(c)
  {
  }

  lemma PartsRecompose(c: int)
    requires IsInt32(c)
    ensures Signed32(Wrap(Wrap(Signed32(HighPart(c) * 0x1000)) + LowPart(c))) == c
  {
    var u := c - LowPart(c);
    assert u % 0x1000 == 0;
    HighPartIsCongruent(u);
    LowSum(HighPart(c) * 0x1000, u, LowPart(c), c);
  }

  lemma HighPartIsCongruent(u: int)
    requires u % 0x1000 == 0
    ensures Low32(u / 0x1000 % 0x10_0000 * 0x1000) == Low32(u)
  {
    var q := u / 0x1000;
    Low32Shift(q % 0x10_0000 * 0x1000, q / 0x10_0000);
  }

  lemma LowSum(x: u32, u: int, lo: int, c: int)
    requires IsInt32(c) && Low32(x) == Low32(u) && u + lo == c
    ensures Signed32(Wrap(Wrap(Signed32(x)) + lo)) == c
  {
    var y := Wrap(Signed32(x));
    Low32OfWrap(y + lo);
    Low32OfWrap(Signed32(x));
    SignedLow32(x);
    Low32Sum(y, lo, u, lo);
    SignedOfLow(Wrap(y + lo), c);
  }

  lemma SignedOfLow(x: int, c: int)
    requires IsInt32(c) && Low32(x) == Low32(c)
    ensures Signed32(x) == c
  {
  }

  lemma ConstantEncodes(rd: nat, c: int)
    requires rd < 32
    ensures Encodes(Upper(LUI), LuiFields(rd, c)) && Encodes(Immediate32(ADDIW), AddiwFields(rd, c))
  {
    assert HighPart(c) * 0x1000 % 0x1000 == 0;
  }

  lemma LuiLoads(rd: nat, c: int, h: Hart, v: u64)
    requires rd < 32 && v == Wrap(Signed32(HighPart(c) * 0x1000))
    ensures ExecuteFields(Lazy, Upper(LUI), LuiFields(rd, c), h) == Done(h.(regs := h.regs[rd := v]))
  {
  }

  /** LUI and then ADDIW put any signed 32-bit constant, sign-extended, into any register but x0. */
  lemma LuiAddiw(rd: nat, c: int, h: Hart)
    requires 0 < rd < 32 && IsInt32(c)
    ensures Encodes(Upper(LUI), LuiFields(rd, c)) && Encodes(Immediate32(ADDIW), AddiwFields(rd, c))
    ensures var r1 := ExecuteFields(Lazy, Upper(LUI), LuiFields(rd, c), h);
            r1.Done? &&
            ExecuteFields(Lazy, Immediate32(ADDIW), AddiwFields(rd, c), Advance(r1.hart))
              == Done(h.(regs := h.regs[rd := Wrap(c)], pc := Wrap(h.pc + 4)))
  {
    var v := Wrap(Signed32(HighPart(c) * 0x1000));
    var h1 := h.(regs := h.regs[rd := v]);
    ConstantEncodes(rd, c);
    LuiLoads(rd, c, h, v);
    AddiwAfterLui(rd, c, Advance(h1));
    assert h1.regs[rd := Wrap(c)] == h.regs[rd := Wrap(c)];
  }

  lemma AddiwAfterLui(rd: nat, c: int, h: Hart)
    requires rd < 32 && IsInt32(c) && h.regs[rd] == Wrap(Signed32(HighPart(c) * 0x1000))
    ensures ExecuteFields(Lazy, Immediate32(ADDIW), AddiwFields(rd, c), h)
         == Done(h.(regs := h.regs[rd := Wrap(c)]))
  {
    LowPartExtends(c);
    PartsRecompose(c);
  }

  // ---------------------------------------------------------------- division

  function RegisterFields(o: RegisterOp, rd: nat, rs1: nat, rs2: nat): Fields {
    Fields(0x33, rd, RegisterFunct3(o), rs1, rs2, RegisterFunct7(o), 0)
  }

  function RunRegister(o: RegisterOp, rd: nat, rs1: nat, rs2: nat, h: Hart): Exec
    requires rd < 32 && rs1 < 32 && rs2 < 32
  {
    ExecuteFields(Lazy, Register(o), RegisterFields(o, rd, rs1, rs2), h)
  }

  lemma RegisterRuns(o: RegisterOp, rd: nat, rs1: nat, rs2: nat, h: Hart)
    requires rd < 32 && rs1 < 32 && rs2 < 32 && RegisterValue(o, h.regs[rs1], h.regs[rs2]).Some?
    ensures Encodes(Register(o), RegisterFields(o, rd, rs1, rs2))
    ensures RunRegister(o, rd, rs1, rs2, h)
         == Done(h.(regs := h.regs[rd := RegisterValue(o, h.regs[rs1], h.regs[rs2]).value]))
  {
  }

  /** The state after DIV t, a, b; MUL t, t, b; REM u, a, b; ADD t, t, u. */
  function DivisionProgram(h: Hart, a: nat, b: nat, t: nat, u: nat): Hart
    requires a < 32 && b < 32 && t < 32 && u < 32
  {
    var r1 := h.regs[t := Div(h.regs[a], h.regs[b])];
    var r2 := r1[t := Mul(r1[t], r1[b])];
    var r3 := r2[u := Rem(r2[a], r2[b])];
    h.(regs := r3[t := Wrap(r3[t] + r3[u])])
  }

  lemma RegisterGives(o: RegisterOp, rd: nat, rs1: nat, rs2: nat, h: Hart, v: u64)
    requires rd < 32 && rs1 < 32 && rs2 < 32 && RegisterValue(o, h.regs[rs1], h.regs[rs2]) == Some(v)
    ensures RunRegister(o, rd, rs1, rs2, h) == Done(h.(regs := h.regs[rd := v]))
  {
    RegisterRuns(o, rd, rs1, rs2, h);
  }

  lemma QuotientTimesDivisor(h: Hart, a: nat, b: nat, t: nat, v: u64)
    requires a < 32 && b < 32 && t < 32 && v == Div(h.regs[a], h.regs[b])
    ensures var e := RunRegister(DIV, t, a, b, h);
            e.Done? &&
            RunRegister(MUL, t, t, b, e.hart)
              == Done(h.(regs := h.regs[t := v][t := Mul(v, h.regs[t := v][b])]))
  {
    RegisterGives(DIV, t, a, b, h, v);
    var h1 := h.(regs := h.regs[t := v]);
    RegisterGives(MUL, t, t, b, h1, Mul(v, h1.regs[b]));
  }

  lemma PlusRemainder(h: Hart, a: nat, b: nat, t: nat, u: nat, v: u64)
    requires a < 32 && b < 32 && t < 32 && u < 32 && v == Rem(h.regs[a], h.regs[b])
    ensures var e := RunRegister(REM, u, a, b, h);
            e.Done? &&
            RunRegister(ADD, t, t, u, e.hart)
              == Done(h.(regs := h.regs[u := v][t := Wrap(h.regs[u := v][t] + v)]))
  {
    RegisterGives(REM, u, a, b, h, v);
    var h1 := h.(regs := h.regs[u := v]);
    RegisterGives(ADD, t, t, u, h1, Wrap(h1.regs[t] + v));
  }

  lemma DivisionProgramRuns(h: Hart, a: nat, b: nat, t: nat, u: nat)
    requires a < 32 && b < 32 && t < 32 && u < 32
    ensures var e1 := RunRegister(DIV, t, a, b, h);
            e1.Done? &&
            var e2 := RunRegister(MUL, t, t, b, e1.hart);
            e2.Done? &&
            var e3 := RunRegister(REM, u, a, b, e2.hart);
            e3.Done? && RunRegister(ADD, t, t, u, e3.hart) == Done(DivisionProgram(h, a, b, t, u))
  {
    var q := Div(h.regs[a], h.regs[b]);
    QuotientTimesDivisor(h, a, b, t, q);
    var h2 := h.(regs := h.regs[t := q][t := Mul(q, h.regs[t := q][b])]);
    PlusRemainder(h2, a, b, t, u, Rem(h2.regs[a], h2.regs[b]));
  }

  /** Those four instructions give back the dividend, for all register contents: a zero divisor and
      INT64_MIN / -1 included. */
  lemma DivisionProgramRestores(h: Hart, a: nat, b: nat, t: nat, u: nat)
    requires a < 32 && b < 32 && t < 32 && u < 32 && t != a && t != b && u != t
    ensures DivisionProgram(h, a, b, t, u).regs[t] == h.regs[a]
  {
    SignedDivisionIdentity(h.regs[a], h.regs[b]);
  }

  // ---------------------------------------------------------------- store, then load

  function StoreFields(s: StoreOp, rs1: nat, rs2: nat, imm: nat): Fields {
    Fields(0x23, 0, StoreFunct3(s), rs1, rs2, 0, imm)
  }

  function LoadFields(l: LoadOp, rd: nat, rs1: nat, imm: nat): Fields {
    Fields(0x03, rd, LoadFunct3(l), rs1, 0, 0, imm)
  }

  /** The access lies in RAM. */
  predicate InBounds(h: Hart, addr: u64, n: nat) {
    h.bus.paging == Bare && InRam(h.bus, addr) && addr - KERNBASE + n <= |h.bus.ram|
  }

  /** A value cut to n bytes and widened again as the load op widens it. */
  function Widened(l: LoadOp, v: u64): u64 {
    match l
    case LB => SignExtendTo64(v, 0x100)
    case LH => SignExtendTo64(v, 0x1_0000)
    case LW => SignExtendTo64(v, 0x1_0000_0000)
    case LBU => v % 0x100
    case LHU => v % 0x1_0000
    case LWU => v % 0x1_0000_0000
    case LD => v
  }

  lemma LoadValueWidens(l: LoadOp, v: u64)
    ensures v % Pow256(LoadSize(l)) < TWO64 && LoadValue(l, v % Pow256(LoadSize(l))) == Widened(l, v)
  {
    Pow256Values();
    match l
    case LB => SignExtendIgnoresHigh(v, 0x100);
    case LH => SignExtendIgnoresHigh(v, 0x1_0000);
    case LW => SignExtendIgnoresHigh(v, 0x1_0000_0000);
    case _ =>
  }

  lemma SignExtendIgnoresHigh(v: u64, m: nat)
    requires m == 0x100 || m == 0x1_0000 || m == 0x1_0000_0000
    ensures v % m < TWO64 && SignExtendTo64(v % m, m) == SignExtendTo64(v, m)
  {
    var r := v % m;
    assert 0 <= r < m && r % m == r;
  }

  lemma StoreThenLoadBytes(h: Hart, addr: u64, n: nat, d: u64)
    requires IsAccessSize(n) && InBounds(h, addr, n)
    ensures var r := ExecuteStore(h, addr, n, d);
            r.Done? && r.hart == h.(bus := r.hart.bus) && r.hart.bus.paging == Bare
            && BusLoad(r.hart.bus, addr, n) == Data(LoadBytes(r.hart.bus.ram, addr - KERNBASE, n))
            && LoadBytes(r.hart.bus.ram, addr - KERNBASE, n) == d % Pow256(n)
  {
    LoadSameRange(h.bus.ram, addr - KERNBASE, n, d);
  }

  lemma LoadAfter(h: Hart, rd: nat, addr: u64, l: LoadOp, d: u64)
    requires rd < 32
    requires BusLoad(h.bus, addr, LoadSize(l)).Data?
    requires BusLoad(h.bus, addr, LoadSize(l)).value == d % Pow256(LoadSize(l))
    ensures ExecuteLoad(Lazy, h, rd, addr, l) == Done(h.(regs := h.regs[rd := Widened(l, d)]))
  {
    LoadValueWidens(l, d);
  }

  /** A store, then a load of the same width with the same base register and the same 12-bit offset:
      the load returns the stored low bits, sign- or zero-extended, although the S and I formats place
      the offset differently. Both read the offset as unsigned. */
  lemma StoreLoadRoundTrip(s: StoreOp, l: LoadOp, rs1: nat, rs2: nat, rd: nat, imm: nat, h: Hart)
    requires StoreSize(s) == LoadSize(l) && rs1 < 32 && rs2 < 32 && rd < 32 && imm < 0x1000
    requires InBounds(h, Wrap(h.regs[rs1] + imm), StoreSize(s))
    ensures Encodes(Store(s), StoreFields(s, rs1, rs2, imm)) && Encodes(Load(l), LoadFields(l, rd, rs1, imm))
    ensures var r1 := ExecuteFields(Lazy, Store(s), StoreFields(s, rs1, rs2, imm), h);
            r1.Done? &&
            ExecuteFields(Lazy, Load(l), LoadFields(l, rd, rs1, imm), r1.hart)
              == Done(r1.hart.(regs := h.regs[rd := Widened(l, h.regs[rs2])]))
  {
    StoreLoadEncodes(s, l, rs1, rs2, rd, imm);
    StoreThenLoad(h, Wrap(h.regs[rs1] + imm), StoreSize(s), rd, l, h.regs[rs2]);
  }

  lemma StoreLoadEncodes(s: StoreOp, l: LoadOp, rs1: nat, rs2: nat, rd: nat, imm: nat)
    requires rs1 < 32 && rs2 < 32 && rd < 32 && imm < 0x1000
    ensures Encodes(Store(s), StoreFields(s, rs1, rs2, imm)) && Encodes(Load(l), LoadFields(l, rd, rs1, imm))
  {
  }

  lemma StoreThenLoad(h: Hart, addr: u64, n: nat, rd: nat, l: LoadOp, d: u64)
    requires n == LoadSize(l) && rd < 32 && InBounds(h, addr, n)
    ensures var r := ExecuteStore(h, addr, n, d);
            && r.Done? && r.hart == h.(bus := r.hart.bus)
            && ExecuteLoad(Lazy, r.hart, rd, addr, l) == Done(r.hart.(regs := h.regs[rd := Widened(l, d)]))
  {
    StoreThenLoadBytes(h, addr, n, d);
    LoadAfter(ExecuteStore(h, addr, n, d).hart, rd, addr, l, d);
  }

  // ---------------------------------------------------------------- CSR reads

  /** CSRRS, CSRRC, CSRRSI and CSRRCI with x0 or the number 0 are the ISA's ways of reading a CSR
      without changing it. Here all four leave the CSR as it was exactly when the upper half is zero,
      because the old value passes through 32 bits. */
  lemma CsrReadOnly(h: Hart, o: CsrOp, f: Fields)
    requires o != CSRRW && o != CSRRWI
    requires f.rd < 32 && f.rs1 == 0 && f.imm < 4096 && h.regs[0] == 0
    ensures var r := ExecuteCsr(Lazy, h, o, f).hart;
            && r.regs[f.rd] == Low32(h.csrs[f.imm])
            && (r.csrs == h.csrs <==> h.csrs[f.imm] < TWO32)
  {
    NothingSetOrCleared(o, Low32(h.csrs[f.imm]));
    ReplacedCsr(h.csrs, f.imm, Low32(h.csrs[f.imm]));
  }

  lemma ReplacedCsr(s: CsrFile, i: nat, v: u64)
    requires i < 4096
    ensures s[i := v] == s <==> s[i] == v
  {
    if s[i] != v {
      assert s[i := v][i] == v;
    }
  }

  lemma NothingSetOrCleared(o: CsrOp, x: u32)
    requires o != CSRRW && o != CSRRWI
    ensures CsrValue(o, x, 0, 0) == x
  {
    match o
    case CSRRS | CSRRSI => OrWithZero(x);
    case CSRRC => AndWithOnes(x, 64, TWO64);
    case CSRRCI => AndWithOnes(x, 32, TWO32);
  }

  lemma AndWithOnes(x: u32, n: nat, p: nat)
    requires (n == 32 && p == TWO32) || (n == 64 && p == TWO64)
    ensures And(x, p - 1) == x
  {
    Pow2Values();
    MaskIsRemainder(x, n, p);
  }
}

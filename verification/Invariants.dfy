/** What every reachable state keeps: the cached paging state, and even program counters. */
module Invariants {
  import opened Words
  import opened Isa
  import opened Decode
  import opened Traps
  import opened Mmu
  import opened HartModel
  import opened TrapProperties

  // ---------------------------------------------------------------- paging cache

  /** The MMU's fields are what satp says: Sv39 exactly when bit 63 is set, and then its root is
      satp[43:0]. */
  predicate PagingAgrees(h: Hart) {
    && h.bus.paging == (if Bit(h.csrs[SATP], 63) then Sv39 else Bare)
    && (Bit(h.csrs[SATP], 63) ==> h.bus.root == h.csrs[SATP] % Pow2(44))
  }

  lemma Pow2Of44()
    ensures Pow2(44) == 0x1000_0000_0000
  {
    Pow2Values();
    Pow2Add(32, 8);
    Pow2Add(40, 4);
  }

  lemma SatpBit(v: u64)
    ensures Bit(v, 63) == (v / TWO63 == 1)
  {
    Pow2Values();
    BitIsShift(v, 63);
  }

  lemma WithCsrKeepsPaging(h: Hart, i: nat, v: u64)
    requires PagingAgrees(h) && i < 4096
    ensures PagingAgrees(WithCsr(h, i, v))
  {
    SatpBit(v);
    Pow2Of44();
  }

  lemma TrapKeepsPaging(h: Hart, c: Cause)
    requires PagingAgrees(h)
    ensures PagingAgrees(HandleTrap(h, c))
  {
  }

  lemma InterruptsKeepPaging(h: Hart)
    requires PagingAgrees(h)
    ensures PagingAgrees(HandleInterrupts(h))
  {
    if NextInterrupt(h).Some? {
      var i := NextInterrupt(h).value;
      TrapKeepsPaging(WithCsr(h, MIP, Put(h.csrs[MIP], i, false)), InterruptCause(i));
    }
  }

  /** Neither satp nor the two fields change. */
  predicate SamePaging(h: Hart, t: Hart) {
    t.csrs[SATP] == h.csrs[SATP] && t.bus.paging == h.bus.paging && t.bus.root == h.bus.root
  }

  lemma AtomicKeepsPaging(x: X0, h: Hart, o: AtomicOp, width: Width, f: Fields)
    requires f.rd < 32 && f.rs1 < 32 && f.rs2 < 32
    ensures ExecuteAtomic(x, h, o, width, f).Done? ==> SamePaging(h, ExecuteAtomic(x, h, o, width, f).hart)
  {
  }

  lemma SystemKeepsPaging(o: SystemOp, h: Hart)
    ensures ExecuteSystem(o, h).Done? ==> SamePaging(h, ExecuteSystem(o, h).hart)
  {
  }

  lemma OthersKeepPaging(x: X0, op: Op, w: u32, h: Hart)
    requires !op.Csr? && !op.Atomic? && !op.System?
    ensures Execute(x, op, w, h).Done? ==> SamePaging(h, Execute(x, op, w, h).hart)
  {
  }

  lemma CsrKeepsPaging(x: X0, h: Hart, o: CsrOp, f: Fields)
    requires PagingAgrees(h) && f.rd < 32 && f.rs1 < 32 && f.imm < 4096
    ensures PagingAgrees(ExecuteCsr(x, h, o, f).hart)
  {
    var old32 := Low32(h.csrs[f.imm]);
    WithCsrKeepsPaging(h, f.imm, CsrValue(o, old32, Reg(x, h, f.rs1), f.rs1));
  }

  lemma ExecuteKeepsPaging(x: X0, op: Op, w: u32, h: Hart)
    requires PagingAgrees(h)
    ensures !Execute(x, op, w, h).Lost? ==> PagingAgrees(Execute(x, op, w, h).hart)
  {
    var f := Parse(FormatOf(op), w);
    if Execute(x, op, w, h).Throw? {
      ThrowingExecutorIsPure(x, op, w, h);
    } else {
      match op
      case Csr(o) => CsrKeepsPaging(x, h, o, f);
      case Atomic(o, width) => AtomicKeepsPaging(x, h, o, width, f);
      case System(o) => SystemKeepsPaging(o, h);
      case _ => OthersKeepPaging(x, op, w, h);
    }
  }

  lemma FinishKeepsPaging(r: Exec)
    requires !r.Lost? && PagingAgrees(r.hart)
    ensures Finish(r).Retired? && PagingAgrees(Finish(r).hart)
  {
    match r
    case Done(h) => InterruptsKeepPaging(h);
    case Throw(h, c) =>
      TrapKeepsPaging(h, c);
      InterruptsKeepPaging(HandleTrap(h, c));
  }

  lemma ProceedKeepsPaging(x: X0, w: u32, h: Hart)
    requires PagingAgrees(h)
    ensures !Proceed(x, w, h).Crashed? ==> PagingAgrees(Proceed(x, w, h).hart)
  {
    if DecodeWord(w).Some? {
      var r := Execute(x, DecodeWord(w).value, w, h);
      ExecuteKeepsPaging(x, DecodeWord(w).value, w, h);
      if !r.Lost? { FinishKeepsPaging(r); }
    }
  }

  /** Every step keeps the agreement: CSR instructions, traps, interrupts and returns alike. */
  lemma StepKeepsPaging(x: X0, h: Hart)
    requires PagingAgrees(h)
    ensures Next(x, h).Some? ==> PagingAgrees(Next(x, h).value)
  {
    var h0 := Begin(x, h);
    if BusLoad(h0.bus, h0.pc, 4).Data? {
      ProceedKeepsPaging(x, Low32(BusLoad(h0.bus, h0.pc, 4).value), Advance(h0));
    }
  }

  lemma {:induction false} RunKeepsPaging(x: X0, h: Hart, n: nat)
    requires PagingAgrees(h)
    ensures Run(x, h, n).Some? ==> PagingAgrees(Run(x, h, n).value)
    decreases n
  {
    if n > 0 {
      StepKeepsPaging(x, h);
      if Next(x, h).Some? { RunKeepsPaging(x, Next(x, h).value, n - 1); }
    }
  }

  /** In every state that the machine can reach from reset, whatever program the RAM holds. */
  lemma ReachablePagingAgrees(entry: u64, garbage: u64, ram: seq<byte>, n: nat)
    ensures var r := Run(Lazy, Initial(entry, garbage, ram), n);
            r.Some? ==> PagingAgrees(r.value)
  {
    var h := Initial(entry, garbage, ram);
    SatpBit(0);
    RunKeepsPaging(Lazy, h, n);
  }

  /** So in every reachable state a step can only run with satp bit 63 clear, and an exception that
      leaves a step is an undecodable word or a fetch that the bus refuses, which the source reports as
      a load access fault. Once bit 63 is set the next fetch never returns. */
  lemma ReachableStep(entry: u64, garbage: u64, ram: seq<byte>, n: nat)
    requires Run(Lazy, Initial(entry, garbage, ram), n).Some?
    ensures var h := Run(Lazy, Initial(entry, garbage, ram), n).value;
            && (Bit(h.csrs[SATP], 63) ==> Step(Lazy, h) == Crashed)
            && (Step(Lazy, h).Escaped? ==> Step(Lazy, h).cause in {ILLEGAL_INSTRUCTION, LOAD_ACCESS_FAULT})
  {
    ReachablePagingAgrees(entry, garbage, ram, n);
    EscapeCauses(Run(Lazy, Initial(entry, garbage, ram), n).value);
  }

  lemma EscapeCauses(h: Hart)
    requires PagingAgrees(h)
    ensures Bit(h.csrs[SATP], 63) ==> Step(Lazy, h) == Crashed
    ensures Step(Lazy, h).Escaped? ==> Step(Lazy, h).cause in {ILLEGAL_INSTRUCTION, LOAD_ACCESS_FAULT}
  {
    var h0 := Begin(Lazy, h);
    if BusLoad(h0.bus, h0.pc, 4).Data? && Step(Lazy, h).Escaped? {
      EscapedIsUndecoded(Low32(BusLoad(h0.bus, h0.pc, 4).value), Advance(h0));
    }
  }

  // ---------------------------------------------------------------- even program counters

  predicate Even(h: Hart) {
    h.pc % 2 == 0 && h.csrs[SEPC] % 2 == 0 && h.csrs[MEPC] % 2 == 0
  }

  /** A CSR instruction that puts an odd value into sepc or mepc. */
  predicate WritesOddEpc(op: Op, w: u32, h: Hart) {
    match op
    case Csr(o) =>
      var f := Parse(I, w);
      (f.imm == SEPC || f.imm == MEPC) && CsrValue(o, Low32(h.csrs[f.imm]), h.regs[f.rs1], f.rs1) % 2 == 1
    case _ => false
  }

  lemma TrapIsEven(h: Hart, c: Cause)
    requires h.csrs[SEPC] % 2 == 0 && h.csrs[MEPC] % 2 == 0
    ensures Even(HandleTrap(h, c))
  {
    if Delegated(h, c) {
      TargetIsEven(h.csrs[STVEC], c);
      assert EnterSupervisor(h, c).csrs[SEPC] == EvenFloor(Wrap(h.pc - 4));
    } else {
      TargetIsEven(h.csrs[MTVEC], c);
      assert EnterMachine(h, c).csrs[MEPC] == EvenFloor(Wrap(h.pc - 4));
    }
  }

  lemma TargetIsEven(tvec: u64, c: Cause)
    ensures TrapTarget(tvec, c) % 2 == 0
  {
  }

  lemma InterruptsKeepEven(h: Hart)
    requires Even(h)
    ensures Even(HandleInterrupts(h))
  {
    if NextInterrupt(h).Some? {
      var i := NextInterrupt(h).value;
      TrapIsEven(WithCsr(h, MIP, Put(h.csrs[MIP], i, false)), InterruptCause(i));
    }
  }

  lemma AtomicKeepsEven(h: Hart, o: AtomicOp, width: Width, f: Fields)
    requires Even(h) && f.rd < 32 && f.rs1 < 32 && f.rs2 < 32
    ensures ExecuteAtomic(Lazy, h, o, width, f).Done? ==> Even(ExecuteAtomic(Lazy, h, o, width, f).hart)
  {
  }

  lemma SystemKeepsEven(o: SystemOp, h: Hart)
    requires Even(h)
    ensures ExecuteSystem(o, h).Done? ==> Even(ExecuteSystem(o, h).hart)
  {
  }

  lemma WrapParity(x: int)
    ensures Wrap(x) % 2 == x % 2
  {
  }

  lemma AddEven(x: int, y: int)
    ensures (x + 2 * y) % 2 == x % 2
  {
  }

  lemma BranchOffsetParity(imm: nat)
    ensures SignExtend13(imm) % 2 == imm % 2
  {
    AddEven(imm, -0x1000 * (imm / 0x2000 + 1));
  }

  lemma JumpOffsetParity(imm: nat)
    ensures SignExtend20(imm) % 2 == imm % 2
  {
    AddEven(imm, -0x8_0000 * (imm / 0x10_0000 + 1));
  }

  lemma JalKeepsEven(h: Hart, rd: nat, imm: u32)
    requires Even(h) && rd < 32 && imm % 2 == 0
    ensures Even(ExecuteJal(Lazy, h, rd, imm).hart)
  {
    JumpOffsetParity(imm);
    WrapParity(h.pc + SignExtend20(imm) - 4);
  }

  lemma JalrKeepsEven(h: Hart, rd: nat, rs1: nat, imm: u32)
    requires Even(h) && rd < 32 && rs1 < 32
    ensures Even(ExecuteJalr(Lazy, h, rd, rs1, imm).hart)
  {
  }

  lemma BranchKeepsEven(h: Hart, taken: bool, imm: u32)
    requires Even(h) && imm % 2 == 0
    ensures Even(ExecuteBranch(h, taken, imm).hart)
  {
    BranchOffsetParity(imm);
    WrapParity(h.pc + SignExtend13(imm) - 4);
  }

  lemma OthersKeepEven(op: Op, w: u32, h: Hart)
    requires Even(h)
    requires op.Upper? || op.Load? || op.Store? || op.Immediate? || op.Register? || op.Immediate32?
          || op.Register32? || op.FENCE_I?
    ensures Execute(Lazy, op, w, h).Done? ==> Even(Execute(Lazy, op, w, h).hart)
  {
  }

  /** Control flow keeps pc, sepc and mepc even; an instruction breaks this exactly when it writes an
      odd value to sepc or mepc. */
  lemma ExecuteParity(op: Op, w: u32, h: Hart)
    requires Even(h) && !Execute(Lazy, op, w, h).Lost?
    ensures Even(Execute(Lazy, op, w, h).hart) <==> !WritesOddEpc(op, w, h)
  {
    var f := Parse(FormatOf(op), w);
    if Execute(Lazy, op, w, h).Throw? {
      ThrowingExecutorIsPure(Lazy, op, w, h);
    } else {
      match op
      case Atomic(o, width) => AtomicKeepsEven(h, o, width, f);
      case System(o) => SystemKeepsEven(o, h);
      case JAL => JalKeepsEven(h, f.rd, f.imm);
      case JALR => JalrKeepsEven(h, f.rd, f.rs1, f.imm);
      case Branch(o) => BranchKeepsEven(h, BranchTaken(o, h.regs[f.rs1], h.regs[f.rs2]), f.imm);
      case Csr(o) =>
      case _ => OthersKeepEven(op, w, h);
    }
  }

  predicate NextWritesOddEpc(h: Hart) {
    match BusLoad(h.bus, h.pc, 4)
    case Data(d) =>
      var w := Low32(d);
      DecodeWord(w).Some? && WritesOddEpc(DecodeWord(w).value, w, Advance(Begin(Lazy, h)))
    case _ => false
  }

  lemma ProceedKeepsEven(w: u32, h: Hart)
    requires Even(h) && (DecodeWord(w).Some? ==> !WritesOddEpc(DecodeWord(w).value, w, h))
    ensures !Proceed(Lazy, w, h).Crashed? ==> Even(Proceed(Lazy, w, h).hart)
  {
    if DecodeWord(w).Some? {
      var r := Execute(Lazy, DecodeWord(w).value, w, h);
      if !r.Lost? {
        ExecuteParity(DecodeWord(w).value, w, h);
        FinishKeepsEven(r);
      }
    }
  }

  lemma FinishKeepsEven(r: Exec)
    requires !r.Lost? && Even(r.hart)
    ensures Finish(r).Retired? && Even(Finish(r).hart)
  {
    match r
    case Done(h) => InterruptsKeepEven(h);
    case Throw(h, c) =>
      TrapIsEven(h, c);
      InterruptsKeepEven(HandleTrap(h, c));
  }

  lemma StepKeepsEven(h: Hart)
    requires Even(h) && !NextWritesOddEpc(h)
    ensures Next(Lazy, h).Some? ==> Even(Next(Lazy, h).value)
  {
    var h0 := Begin(Lazy, h);
    assert Even(Advance(h0));
    if BusLoad(h0.bus, h0.pc, 4).Data? {
      ProceedKeepsEven(Low32(BusLoad(h0.bus, h0.pc, 4).value), Advance(h0));
    }
  }

  predicate NeverWritesOddEpc(h: Hart, n: nat)
    decreases n
  {
    n == 0 ||
    (!NextWritesOddEpc(h) &&
     (Next(Lazy, h).Some? ==> NeverWritesOddEpc(Next(Lazy, h).value, n - 1)))
  }

  lemma {:induction false} RunKeepsEven(h: Hart, n: nat)
    requires Even(h) && NeverWritesOddEpc(h, n)
    ensures Run(Lazy, h, n).Some? ==> Even(Run(Lazy, h, n).value)
    decreases n
  {
    if n > 0 {
      StepKeepsEven(h);
      if Next(Lazy, h).Some? { RunKeepsEven(Next(Lazy, h).value, n - 1); }
    }
  }
}

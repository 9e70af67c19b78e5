/** Register x0. The source zeroes regs[0] at the start of each step and otherwise lets instructions
    write it. This module compares that machine with one where x0 is hardwired to zero. */
module LazyZero {
  import opened Words
  import opened Isa
  import opened Decode
  import opened Traps
  import opened Ram
  import opened Mmu
  import opened HartModel
  import opened Programs

  /** Equal up to the stored value of register 0. */
  ghost predicate Same(l: Hart, h: Hart) {
    && l.pc == h.pc && l.mode == h.mode && l.csrs == h.csrs && l.bus == h.bus
    && forall i :: 1 <= i < 32 ==> l.regs[i] == h.regs[i]
  }

  ghost predicate SameExec(l: Exec, h: Exec) {
    match (l, h)
    case (Done(a), Done(b)) => Same(a, b)
    case (Throw(a, c), Throw(b, d)) => Same(a, b) && c == d
    case (Lost, Lost) => true
    case _ => false
  }

  ghost predicate SameStep(l: StepResult, h: StepResult) {
    match (l, h)
    case (Retired(a), Retired(b)) => Same(a, b)
    case (Escaped(a, c), Escaped(b, d)) => Same(a, b) && c == d
    case (Crashed, Crashed) => true
    case _ => false
  }

  /** The instructions that read a register after having written rd, when that read back finds a
      value that a hardwired x0 would not hold. h is the state after the fetch. JALR x0, imm(x0) jumps
      relative to its own link value; four A-extension entries with rd = rs2 = x0 combine the old
      value of rs1 with itself (AMOOR.D is not among them: or-ing a value with itself changes
      nothing). */
  predicate ReadsBack(op: Op, w: u32, h: Hart) {
    var f := Parse(FormatOf(op), w);
    match op
    case JALR =>
      f.rd == 0 && f.rs1 == 0 &&
      EvenFloor(Wrap(h.pc + SignExtend12(f.imm))) != EvenFloor(Wrap(SignExtend12(f.imm)))
    case Atomic(o, width) =>
      WritesRs1(o, width) && !o.AMOOR? && f.rd == 0 && f.rs2 == 0 && f.rs1 != 0 && h.regs[f.rs1] != 0
    case _ => false
  }

  /** The JALR case by its operands: rd and rs1 are x0, and the link is not 0 up to the bit that is
      cleared (bit 0, after adding 1 if the offset is odd). */
  lemma JalrReadsBack(w: u32, h: Hart)
    ensures var f := Parse(I, w);
            ReadsBack(JALR, w, h) <==> f.rd == 0 && f.rs1 == 0 && Wrap(h.pc + f.imm % 2) >= 2
  {
    JalrReadsBackFields(h.pc, Parse(I, w).imm);
  }

  lemma JalrReadsBackFields(pc: u64, imm: nat)
    ensures EvenFloor(Wrap(pc + SignExtend12(imm))) == EvenFloor(Wrap(SignExtend12(imm)))
       <==> Wrap(pc + imm % 2) < 2
  {
    OffsetParity(imm);
    TargetsAgree(pc, 0, SignExtend12(imm), imm % 2);
  }

  /** From an even pc: the link is not 0. */
  lemma JalrReadsBackFromEven(w: u32, h: Hart)
    requires h.pc % 2 == 0
    ensures ReadsBack(JALR, w, h) <==> Parse(I, w).rd == 0 && Parse(I, w).rs1 == 0 && h.pc != 0
  {
    JalrReadsBack(w, h);
    SmallEven(h.pc, Parse(I, w).imm % 2);
  }

  lemma SmallEven(pc: u64, p: nat)
    requires pc % 2 == 0 && p < 2
    ensures Wrap(pc + p) >= 2 <==> pc != 0
  {
  }

  // ---------------------------------------------------------------- register access

  lemma SameReg(l: Hart, h: Hart, i: nat)
    requires Same(l, h) && l.regs[0] == 0 && i < 32
    ensures Reg(Lazy, l, i) == Reg(Hardwired, h, i)
  {
  }

  lemma SameWithReg(l: Hart, h: Hart, i: nat, v: u64)
    requires Same(l, h) && i < 32
    ensures Same(WithReg(Lazy, l, i, v), WithReg(Hardwired, h, i, v))
  {
  }

  // ---------------------------------------------------------------- executors

  lemma SameJalr(l: Hart, h: Hart, rd: nat, rs1: nat, imm: u32)
    requires Same(l, h) && l.regs[0] == 0 && rd < 32 && rs1 < 32
    ensures SameExec(ExecuteJalr(Lazy, l, rd, rs1, imm), ExecuteJalr(Hardwired, h, rd, rs1, imm))
       <==> !(rd == 0 && rs1 == 0 &&
              EvenFloor(Wrap(l.pc + SignExtend12(imm))) != EvenFloor(Wrap(SignExtend12(imm))))
  {
    SameWithReg(l, h, rd, l.pc);
  }

  lemma SameLoad(l: Hart, h: Hart, rd: nat, addr: u64, op: LoadOp)
    requires Same(l, h) && rd < 32
    ensures SameExec(ExecuteLoad(Lazy, l, rd, addr, op), ExecuteLoad(Hardwired, h, rd, addr, op))
  {
  }

  lemma SameStore(l: Hart, h: Hart, addr: u64, size: nat, d: u64)
    requires Same(l, h)
    ensures SameExec(ExecuteStore(l, addr, size, d), ExecuteStore(h, addr, size, d))
  {
  }

  lemma SameCsr(l: Hart, h: Hart, op: CsrOp, f: Fields)
    requires Same(l, h) && l.regs[0] == 0 && f.rd < 32 && f.rs1 < 32 && f.imm < 4096
    ensures SameExec(ExecuteCsr(Lazy, l, op, f), ExecuteCsr(Hardwired, h, op, f))
  {
    SameReg(l, h, f.rs1);
    var old32 := Low32(l.csrs[f.imm]);
    var v := CsrValue(op, old32, Reg(Lazy, l, f.rs1), f.rs1);
    SameWithReg(WithCsr(l, f.imm, v), WithCsr(h, f.imm, v), f.rd, old32);
  }

  /** Combining a value with itself differs from combining it with zero, except for or. */
  lemma SelfIsNotZero(o: AtomicOp, width: Width, a: u64)
    requires WritesRs1(o, width)
    ensures AtomicValue(o, a, a) == AtomicValue(o, a, 0) <==> o.AMOOR? || a == 0
  {
    OrWithZero(a);
    AndXorWithZero(a);
  }

  lemma SameReadBack(l: Hart, h: Hart, o: AtomicOp, width: Width, f: Fields)
    requires Same(l, h) && l.regs[0] == 0 && f.rd < 32 && f.rs1 < 32 && f.rs2 < 32 && WritesRs1(o, width)
    ensures SameExec(ExecuteAtomic(Lazy, l, o, width, f), ExecuteAtomic(Hardwired, h, o, width, f))
       <==> !(!o.AMOOR? && f.rd == 0 && f.rs2 == 0 && f.rs1 != 0 && l.regs[f.rs1] != 0)
  {
    var data := l.regs[f.rs1];
    SameReg(l, h, f.rs1);
    SelfIsNotZero(o, width, data);
    var l1, h1 := WithReg(Lazy, l, f.rd, data), WithReg(Hardwired, h, f.rd, data);
    SameWithReg(l, h, f.rd, data);
    if f.rd == 0 && f.rs2 == 0 {
      if f.rs1 == 0 {
        assert Same(WithReg(Lazy, l1, 0, AtomicValue(o, data, data)), h1);
      } else {
        var a, b := AtomicValue(o, data, data), AtomicValue(o, data, 0);
        assert WithReg(Lazy, l1, f.rs1, a).regs[f.rs1] == a && WithReg(Hardwired, h1, f.rs1, b).regs[f.rs1] == b;
        if a == b { SameWithReg(l1, h1, f.rs1, a); }
      }
    } else {
      assert Reg(Lazy, l1, f.rs2) == Reg(Hardwired, h1, f.rs2);
      SameWithReg(l1, h1, f.rs1, AtomicValue(o, data, Reg(Lazy, l1, f.rs2)));
    }
  }

  lemma SameAtomic(l: Hart, h: Hart, o: AtomicOp, width: Width, f: Fields)
    requires Same(l, h) && l.regs[0] == 0 && f.rd < 32 && f.rs1 < 32 && f.rs2 < 32 && !WritesRs1(o, width)
    ensures SameExec(ExecuteAtomic(Lazy, l, o, width, f), ExecuteAtomic(Hardwired, h, o, width, f))
  {
    SameReg(l, h, f.rs1);
    SameReg(l, h, f.rs2);
    var data, b := l.regs[f.rs1], Reg(Lazy, l, f.rs2);
    if o.SC? {
      SameStore(l, h, f.rs1, if width.Word? then 4 else 8, b);
    } else if !o.LR? && Low32(data) < 32 {
      var v := AtomicValue(o, data, b);
      SameWithReg(l, h, Low32(data), v);
      SameWithReg(WithReg(Lazy, l, Low32(data), v), WithReg(Hardwired, h, Low32(data), v), f.rd, data);
    }
  }

  lemma SameSystem(l: Hart, h: Hart, o: SystemOp)
    requires Same(l, h)
    ensures SameExec(ExecuteSystem(o, l), ExecuteSystem(o, h))
  {
  }

  lemma SameWriteBack(l: Hart, h: Hart, rd: nat, v: Option<u64>)
    requires Same(l, h) && rd < 32
    ensures SameExec(WriteBack(Lazy, l, rd, v), WriteBack(Hardwired, h, rd, v))
  {
  }

  lemma SameJal(l: Hart, h: Hart, rd: nat, imm: u32)
    requires Same(l, h) && rd < 32
    ensures SameExec(ExecuteJal(Lazy, l, rd, imm), ExecuteJal(Hardwired, h, rd, imm))
  {
  }

  lemma SameAlu(op: Op, w: u32, l: Hart, h: Hart)
    requires Same(l, h) && l.regs[0] == 0
    requires op.Upper? || op.Immediate? || op.Register? || op.Immediate32? || op.Register32?
    ensures SameExec(Execute(Lazy, op, w, l), Execute(Hardwired, op, w, h))
  {
    var f := Parse(FormatOf(op), w);
    SameReg(l, h, f.rs1);
    SameReg(l, h, f.rs2);
    var a, b := Reg(Lazy, l, f.rs1), Reg(Lazy, l, f.rs2);
    match op
    case Upper(o) => SameWriteBack(l, h, f.rd, Some(UpperValue(o, f.imm, l.pc)));
    case Immediate(o) => SameWriteBack(l, h, f.rd, ImmediateValue(o, a, f.imm));
    case Register(o) => SameWriteBack(l, h, f.rd, RegisterValue(o, a, b));
    case Immediate32(o) => SameWriteBack(l, h, f.rd, Immediate32Value(o, a, f.imm));
    case Register32(o) => SameWriteBack(l, h, f.rd, Register32Value(o, a, b));
  }

  lemma SameLoadFields(o: LoadOp, f: Fields, l: Hart, h: Hart)
    requires Same(l, h) && l.regs[0] == 0 && f.rd < 32 && f.rs1 < 32 && f.rs2 < 32 && f.imm < TWO32
    ensures SameExec(ExecuteFields(Lazy, Load(o), f, l), ExecuteFields(Hardwired, Load(o), f, h))
  {
    SameReg(l, h, f.rs1);
    SameLoad(l, h, f.rd, Wrap(l.regs[f.rs1] + f.imm), o);
  }

  lemma SameStoreFields(o: StoreOp, f: Fields, l: Hart, h: Hart)
    requires Same(l, h) && l.regs[0] == 0 && f.rd < 32 && f.rs1 < 32 && f.rs2 < 32 && f.imm < TWO32
    ensures SameExec(ExecuteFields(Lazy, Store(o), f, l), ExecuteFields(Hardwired, Store(o), f, h))
  {
    SameReg(l, h, f.rs1);
    SameReg(l, h, f.rs2);
    SameStore(l, h, Wrap(l.regs[f.rs1] + f.imm), StoreSize(o), l.regs[f.rs2]);
  }

  lemma SameBranchFields(o: BranchOp, f: Fields, l: Hart, h: Hart)
    requires Same(l, h) && l.regs[0] == 0 && f.rd < 32 && f.rs1 < 32 && f.rs2 < 32 && f.imm < TWO32
    ensures SameExec(ExecuteFields(Lazy, Branch(o), f, l), ExecuteFields(Hardwired, Branch(o), f, h))
  {
    SameReg(l, h, f.rs1);
    SameReg(l, h, f.rs2);
  }

  /** One instruction: the two machines agree exactly when it does not read back x0. */
  lemma SameExecute(op: Op, w: u32, l: Hart, h: Hart)
    requires Same(l, h) && l.regs[0] == 0
    ensures SameExec(Execute(Lazy, op, w, l), Execute(Hardwired, op, w, h)) <==> !ReadsBack(op, w, l)
  {
    var f := Parse(FormatOf(op), w);
    match op
    case System(o) => SameSystem(l, h, o);
    case JAL => SameJal(l, h, f.rd, f.imm);
    case JALR => SameJalr(l, h, f.rd, f.rs1, f.imm);
    case FENCE_I =>
    case Atomic(o, width) => SameAtomicEntry(l, h, o, width, f);
    case Branch(o) => SameBranchFields(o, f, l, h);
    case Load(o) => SameLoadFields(o, f, l, h);
    case Store(o) => SameStoreFields(o, f, l, h);
    case Csr(o) => SameCsr(l, h, o, f);
    case _ => SameAlu(op, w, l, h);
  }

  lemma SameAtomicEntry(l: Hart, h: Hart, o: AtomicOp, width: Width, f: Fields)
    requires Same(l, h) && l.regs[0] == 0 && f.rd < 32 && f.rs1 < 32 && f.rs2 < 32
    ensures SameExec(ExecuteAtomic(Lazy, l, o, width, f), ExecuteAtomic(Hardwired, h, o, width, f))
       <==> !(WritesRs1(o, width) && !o.AMOOR? && f.rd == 0 && f.rs2 == 0 && f.rs1 != 0 && l.regs[f.rs1] != 0)
  {
    if WritesRs1(o, width) { SameReadBack(l, h, o, width, f); } else { SameAtomic(l, h, o, width, f); }
  }

  // ---------------------------------------------------------------- steps

  lemma SameHandleTrap(l: Hart, h: Hart, c: Cause)
    requires Same(l, h)
    ensures Same(HandleTrap(l, c), HandleTrap(h, c))
  {
  }

  lemma SameNextInterrupt(l: Hart, h: Hart)
    requires l.mode == h.mode && l.csrs == h.csrs
    ensures NextInterrupt(l) == NextInterrupt(h)
  {
    SameFirstPending(l, h, INTERRUPTS);
  }

  lemma {:induction false} SameFirstPending(l: Hart, h: Hart, order: seq<nat>)
    requires l.csrs == h.csrs
    ensures FirstPending(l, order) == FirstPending(h, order)
  {
    if order != [] {
      SameFirstPending(l, h, order[1..]);
    }
  }

  lemma SameHandleInterrupts(l: Hart, h: Hart)
    requires Same(l, h)
    ensures Same(HandleInterrupts(l), HandleInterrupts(h))
  {
    SameNextInterrupt(l, h);
    if NextInterrupt(l).Some? {
      var i := NextInterrupt(l).value;
      var v := Put(l.csrs[MIP], i, false);
      SameHandleTrap(WithCsr(l, MIP, v), WithCsr(h, MIP, v), InterruptCause(i));
    }
  }

  lemma SameFinish(l: Exec, h: Exec)
    requires SameExec(l, h)
    ensures SameStep(Finish(l), Finish(h))
  {
    match l
    case Done(a) => SameHandleInterrupts(a, h.hart);
    case Throw(a, c) =>
      SameHandleTrap(a, h.hart, c);
      SameHandleInterrupts(HandleTrap(a, c), HandleTrap(h.hart, c));
    case Lost =>
  }

  /** A difference that an interrupt taken in the same step cannot hide: another register, or the
      pc when both are even (the saved epc drops bit 0). */
  ghost predicate Apart(a: Hart, b: Hart) {
    && a.mode == b.mode && a.csrs == b.csrs
    && ((exists i :: 1 <= i < 32 && a.regs[i] != b.regs[i])
        || (a.pc != b.pc && a.pc % 2 == 0 && b.pc % 2 == 0))
  }

  lemma EpcTellsApart(p: u64, q: u64)
    requires p != q && p % 2 == 0 && q % 2 == 0
    ensures EvenFloor(Wrap(p - 4)) != EvenFloor(Wrap(q - 4))
  {
  }

  lemma TrapSavesPc(h: Hart, c: Cause)
    ensures HandleTrap(h, c).csrs[if Delegated(h, c) then SEPC else MEPC] == EvenFloor(Wrap(h.pc - 4))
    ensures HandleTrap(h, c).regs == h.regs
  {
  }

  lemma TrapKeepsApart(a: Hart, b: Hart, c: Cause)
    requires Apart(a, b)
    ensures !Same(HandleTrap(a, c), HandleTrap(b, c))
  {
    TrapSavesPc(a, c);
    TrapSavesPc(b, c);
    assert Delegated(a, c) == Delegated(b, c);
    var s, t := HandleTrap(a, c), HandleTrap(b, c);
    if i :| 1 <= i < 32 && a.regs[i] != b.regs[i] {
      assert s.regs[i] != t.regs[i];
    } else {
      EpcTellsApart(a.pc, b.pc);
      assert s.csrs != t.csrs;
    }
  }

  lemma InterruptsKeepApart(a: Hart, b: Hart)
    requires Apart(a, b)
    ensures !Same(HandleInterrupts(a), HandleInterrupts(b))
  {
    SameNextInterrupt(a, b);
    if NextInterrupt(a).Some? {
      var i := NextInterrupt(a).value;
      var v := Put(a.csrs[MIP], i, false);
      TrapKeepsApart(WithCsr(a, MIP, v), WithCsr(b, MIP, v), InterruptCause(i));
    }
  }

  lemma AtomicReadBackApart(l: Hart, h: Hart, o: AtomicOp, width: Width, f: Fields)
    requires Same(l, h) && l.regs[0] == 0 && f.rd == 0 && 0 < f.rs1 < 32 && f.rs2 == 0
    requires WritesRs1(o, width) && !o.AMOOR? && l.regs[f.rs1] != 0
    ensures var a, b := ExecuteAtomic(Lazy, l, o, width, f), ExecuteAtomic(Hardwired, h, o, width, f);
            a.Done? && b.Done? && Apart(a.hart, b.hart)
  {
    var data := l.regs[f.rs1];
    SelfIsNotZero(o, width, data);
    var a, b := ExecuteAtomic(Lazy, l, o, width, f), ExecuteAtomic(Hardwired, h, o, width, f);
    assert a.hart.regs[f.rs1] == AtomicValue(o, data, data);
    assert b.hart.regs[f.rs1] == AtomicValue(o, data, 0);
  }

  lemma ReadBackApart(op: Op, w: u32, l: Hart, h: Hart)
    requires Same(l, h) && l.regs[0] == 0 && ReadsBack(op, w, l)
    ensures var a, b := Execute(Lazy, op, w, l), Execute(Hardwired, op, w, h);
            a.Done? && b.Done? && Apart(a.hart, b.hart)
  {
    var f := Parse(FormatOf(op), w);
    match op
    case JALR => JalrReadBackApart(l, h, f.imm);
    case Atomic(o, width) => AtomicReadBackApart(l, h, o, width, f);
  }

  lemma JalrReadBackApart(l: Hart, h: Hart, imm: u32)
    requires Same(l, h)
    requires EvenFloor(Wrap(l.pc + SignExtend12(imm))) != EvenFloor(Wrap(SignExtend12(imm)))
    ensures var a, b := ExecuteJalr(Lazy, l, 0, 0, imm), ExecuteJalr(Hardwired, h, 0, 0, imm);
            a.Done? && b.Done? && Apart(a.hart, b.hart)
  {
  }

  lemma SameProceed(w: u32, l: Hart, h: Hart)
    requires Same(l, h) && l.regs[0] == 0
    ensures SameStep(Proceed(Lazy, w, l), Proceed(Hardwired, w, h))
       <==> !(DecodeWord(w).Some? && ReadsBack(DecodeWord(w).value, w, l))
  {
    if DecodeWord(w).Some? {
      var op := DecodeWord(w).value;
      if ReadsBack(op, w, l) {
        ReadBackApart(op, w, l, h);
        InterruptsKeepApart(Execute(Lazy, op, w, l).hart, Execute(Hardwired, op, w, h).hart);
      } else {
        SameExecute(op, w, l, h);
        SameFinish(Execute(Lazy, op, w, l), Execute(Hardwired, op, w, h));
      }
    }
  }

  /** The next step reads back x0. */
  predicate NextReadsBack(l: Hart) {
    match BusLoad(l.bus, l.pc, 4)
    case Data(d) =>
      var w := Low32(d);
      DecodeWord(w).Some? && ReadsBack(DecodeWord(w).value, w, Advance(Begin(Lazy, l)))
    case _ => false
  }

  /** One step, whatever the instruction, trap or interrupt: zeroing x0 at the start of the step is
      the same as hardwiring it if and only if the instruction does not read back x0. */
  lemma LazyZeroStep(l: Hart, h: Hart)
    requires Same(l, h)
    ensures SameStep(Step(Lazy, l), Step(Hardwired, h)) <==> !NextReadsBack(l)
  {
    var l0 := Begin(Lazy, l);
    assert Same(l0, h) && Same(Advance(l0), Advance(h));
    if BusLoad(l.bus, l.pc, 4).Data? {
      SameProceed(Low32(BusLoad(l.bus, l.pc, 4).value), Advance(l0), Advance(h));
    }
  }

  predicate NeverReadsBack(l: Hart, n: nat)
    decreases n
  {
    n == 0 ||
    (!NextReadsBack(l) &&
     (Next(Lazy, l).Some? ==> NeverReadsBack(Next(Lazy, l).value, n - 1)))
  }

  ghost predicate SameIfAny(a: Option<Hart>, b: Option<Hart>) {
    match (a, b)
    case (Some(l), Some(h)) => Same(l, h)
    case (None, None) => true
    case _ => false
  }

  lemma LazyZeroNext(l: Hart, h: Hart)
    requires Same(l, h) && !NextReadsBack(l)
    ensures SameIfAny(Next(Lazy, l), Next(Hardwired, h))
  {
    LazyZeroStep(l, h);
  }

  /** Whole runs: as long as no step reads back x0, the source's machine and the one with a hardwired
      x0 have the same pc, mode, CSRs, memory and registers 1 to 31 after every step. */
  lemma {:induction false} LazyZeroRun(l: Hart, h: Hart, n: nat)
    requires Same(l, h) && NeverReadsBack(l, n)
    ensures SameIfAny(Run(Lazy, l, n), Run(Hardwired, h, n))
    decreases n
  {
    if n > 0 {
      LazyZeroNext(l, h);
      if Next(Lazy, l).Some? {
        LazyZeroRun(Next(Lazy, l).value, Next(Hardwired, h).value, n - 1);
      }
    }
  }

  /** A concrete difference: JALR x0, 0(x0) at KERNBASE jumps to the following instruction instead of
      to address 0. */
  lemma JalrReadsLink(h: Hart)
    requires h.pc == KERNBASE + 4 && h.regs[0] == 0
    ensures ExecuteJalr(Lazy, h, 0, 0, 0).hart.pc == KERNBASE + 4
    ensures ExecuteJalr(Hardwired, h, 0, 0, 0).hart.pc == 0
  {
  }

  lemma QuietAfterReset(h: Hart)
    requires h.mode == Machine && h.csrs[MSTATUS] == 0
    ensures HandleInterrupts(h) == h
  {
    BitAboveBound(0, 0, M_IE);
  }

  /** That difference as the first step after reset, with the word 0x67 at the entry point. */
  lemma FirstStepsDiffer(garbage: u64)
    ensures var h := Initial(KERNBASE, garbage, [0x67, 0, 0, 0]);
            && Step(Lazy, h) == Retired(h.(pc := KERNBASE + 4, regs := h.regs[0 := KERNBASE + 4]))
            && Step(Hardwired, h) == Retired(h.(pc := 0))
  {
    var h := Initial(KERNBASE, garbage, [0x67, 0, 0, 0]);
    var f := Fields(0x67, 0, 0, 0, 0, 0, 0);
    JalrIsAssembled(f);
    FirstWord(h, Pack(I, f));
    FirstAssembled(Lazy, h, f, Pack(I, f));
    FirstAssembled(Hardwired, h, f, Pack(I, f));
  }

  lemma FirstWord(h: Hart, w: u32)
    requires h.bus.paging == Bare && h.bus.ram == [0x67, 0, 0, 0] && w == 0x67
    ensures BusLoad(h.bus, KERNBASE, 4) == Data(w)
  {
    assert LoadBytes(h.bus.ram, 0, 4) == 0x67 by {
      assert LoadBytes(h.bus.ram, 2, 2) == 0;
    }
  }

  lemma JalrIsAssembled(f: Fields)
    requires f == Fields(0x67, 0, 0, 0, 0, 0, 0)
    ensures WellFormed(I, f) && HasPattern(JALR, f) && Pack(I, f) == 0x67
  {
    assert Place(I, f) == Slices(0x67, 0, 0, 0, 0, 0);
  }

  lemma JalrDecodes(f: Fields, w: u32)
    requires WellFormed(I, f) && HasPattern(JALR, f) && w == Pack(I, f)
    ensures DecodeWord(w) == Some(JALR) && Parse(I, w) == f
  {
    DecodeOfAssembled(JALR, f);
  }

  lemma StepProceeds(x: X0, h: Hart, h0: Hart, d: u64)
    requires h0 == Begin(x, h) && BusLoad(h0.bus, h0.pc, 4) == Data(d)
    ensures Step(x, h) == Proceed(x, Low32(d), Advance(h0))
  {
  }

  /** The state after JALR x0, 0(x0) as the first instruction. */
  function AfterFirst(x: X0, h: Hart): Hart {
    if x.Lazy? then h.(pc := KERNBASE + 4, regs := h.regs[0 := KERNBASE + 4]) else h.(pc := 0)
  }

  lemma FirstAssembled(x: X0, h: Hart, f: Fields, w: u32)
    requires WellFormed(I, f) && HasPattern(JALR, f) && f.rd == f.rs1 == f.imm == 0 && w == Pack(I, f)
    requires h.pc == KERNBASE && h.mode == Machine && h.regs[0] == 0 && h.csrs[MSTATUS] == 0
    requires BusLoad(h.bus, KERNBASE, 4) == Data(w)
    ensures Step(x, h) == Retired(AfterFirst(x, h))
  {
    var h0 := Begin(x, h);
    assert Proceed(x, Low32(w), Advance(h0)) == Retired(AfterFirst(x, h)) by {
      assert Low32(w) == w;
      JalrDecodes(f, w);
      FirstDecoded(x, h, w, f);
    }
    StepProceeds(x, h, h0, w);
  }

  lemma FirstDecoded(x: X0, h: Hart, w: u32, f: Fields)
    requires DecodeWord(w) == Some(JALR) && Parse(I, w) == f && f.rd == f.rs1 == f.imm == 0
    requires h.pc == KERNBASE && h.mode == Machine && h.regs[0] == 0 && h.csrs[MSTATUS] == 0
    ensures Proceed(x, w, Advance(Begin(x, h))) == Retired(AfterFirst(x, h))
  {
    assert Begin(x, h) == h;
    JalrToZero(x, h);
    QuietAfterReset(AfterFirst(x, h));
    ProceedToJalr(x, w, Advance(h), f, AfterFirst(x, h));
  }

  /** JALR x0, 0(x0) as an executor, a fetch before it included. */
  lemma JalrToZero(x: X0, h: Hart)
    requires h.pc == KERNBASE && h.regs[0] == 0
    ensures ExecuteJalr(x, Advance(h), 0, 0, 0) == Done(AfterFirst(x, h))
  {
  }

  lemma ProceedToJalr(x: X0, w: u32, h: Hart, f: Fields, t: Hart)
    requires DecodeWord(w) == Some(JALR) && Parse(I, w) == f && f.rd == f.rs1 == f.imm == 0
    requires ExecuteJalr(x, h, 0, 0, 0) == Done(t) && HandleInterrupts(t) == t
    ensures Proceed(x, w, h) == Retired(t)
  {
    JalrRuns(x, w, h, f);
  }

  lemma JalrRuns(x: X0, w: u32, h: Hart, f: Fields)
    requires Parse(I, w) == f
    ensures Execute(x, JALR, w, h) == ExecuteJalr(x, h, f.rd, f.rs1, f.imm)
  {
  }
}

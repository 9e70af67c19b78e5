/** Traps: precise exceptions, at most one trap per step, and the bracketing of a trap and its
    return over any handler. */
module TrapProperties {
  import opened Words
  import opened Isa
  import opened Decode
  import opened Traps
  import opened Ram
  import opened Mmu
  import opened HartModel
  import opened TrapEntry

  // ---------------------------------------------------------------- one trap at a time

  /** After any trap, delegated or not, interrupts are off in the level that was entered. */
  lemma NoInterruptAfterTrap(h: Hart, c: Cause)
    ensures NextInterrupt(HandleTrap(h, c)) == None
    ensures HandleInterrupts(HandleTrap(h, c)) == HandleTrap(h, c)
  {
    assert !InterruptsEnabled(HandleTrap(h, c));
  }

  /** No step, whether it took a trap, an interrupt or neither, leaves an interrupt that could be
      delivered at once. */
  lemma NoInterruptAfterStep(x: X0, h: Hart)
    requires Step(x, h).Retired?
    ensures NextInterrupt(Step(x, h).hart) == None
  {
    var h0 := Begin(x, h);
    NoInterruptAfterProceed(x, Low32(BusLoad(h0.bus, h0.pc, 4).value), Advance(h0));
  }

  lemma NoInterruptAfterProceed(x: X0, w: u32, h: Hart)
    requires Proceed(x, w, h).Retired?
    ensures NextInterrupt(Proceed(x, w, h).hart) == None
  {
    NoInterruptAfterFinish(Execute(x, DecodeWord(w).value, w, h));
  }

  lemma NoInterruptAfterFinish(r: Exec)
    requires Finish(r).Retired?
    ensures NextInterrupt(Finish(r).hart) == None
  {
    match r
    case Done(h) =>
      if NextInterrupt(h).Some? {
        var i := NextInterrupt(h).value;
        NoInterruptAfterTrap(WithCsr(h, MIP, Put(h.csrs[MIP], i, false)), InterruptCause(i));
      }
    case Throw(h, c) => NoInterruptAfterTrap(h, c);
  }

  /** The pc of a trap entry. In vectored mode the interrupt bit of the cause is shifted out of the
      64-bit product, so interrupt i enters at base + 4 * i. */
  lemma VectoredEntry(h: Hart, i: nat)
    requires i < 16
    ensures var c := InterruptCause(i);
            var tvec := h.csrs[if ToSupervisor(h, i) then STVEC else MTVEC];
            HandleTrap(h, c).pc == Wrap(EvenFloor(tvec) + if tvec % 2 == 1 then 4 * i else 0)
  {
    DelegatedInterrupt(h, i);
    InterruptVector(h, i, InterruptCause(i));
  }

  lemma InterruptVector(h: Hart, i: nat, c: Cause)
    requires i < 16 && c == TWO63 + i
    ensures var tvec := h.csrs[if Delegated(h, c) then STVEC else MTVEC];
            HandleTrap(h, c).pc == Wrap(EvenFloor(tvec) + if tvec % 2 == 1 then 4 * i else 0)
  {
    InterruptTarget(h.csrs[STVEC], c, i);
    InterruptTarget(h.csrs[MTVEC], c, i);
  }

  lemma InterruptTarget(tvec: u64, c: Cause, i: nat)
    requires i < 16 && c == TWO63 + i
    ensures TrapTarget(tvec, c) == Wrap(EvenFloor(tvec) + if tvec % 2 == 1 then 4 * i else 0)
  {
    assert Wrap(4 * c) == 4 * i;
  }

  /** What a trap entry does to the status word of the level it enters: the interrupt enable moves
      to its shadow bit, and the previous mode is recorded (in machine mode always as user mode). */
  lemma StatusAfterTrap(h: Hart, c: Cause, j: nat)
    ensures ToSupervisor(h, c % TWO63) ==>
              Bit(HandleTrap(h, c).csrs[SSTATUS], j) ==
                if j == SIE then false
                else if j == SPIE then Bit(h.csrs[SSTATUS], SIE)
                else if j == SPP then h.mode == Supervisor
                else Bit(h.csrs[SSTATUS], j)
    ensures !ToSupervisor(h, c % TWO63) ==>
              Bit(HandleTrap(h, c).csrs[MSTATUS], j) ==
                if j == M_IE || j == 11 || j == 12 then false
                else if j == M_PIE then Bit(h.csrs[MSTATUS], M_IE)
                else Bit(h.csrs[MSTATUS], j)
  {
    DelegatedIsBit(h, c);
  }

  /** The four CSRs of the level that a trap enters. */
  function TrapCsrs(supervisor: bool): set<nat> {
    if supervisor then {SEPC, SCAUSE, STVAL, SSTATUS} else {MEPC, MCAUSE, MTVAL, MSTATUS}
  }

  // ---------------------------------------------------------------- precise exceptions

  lemma ThrowingAtomic(x: X0, h: Hart, op: AtomicOp, width: Width, f: Fields)
    requires f.rd < 32 && f.rs1 < 32 && f.rs2 < 32 && ExecuteAtomic(x, h, op, width, f).Throw?
    ensures ExecuteAtomic(x, h, op, width, f).hart == h
    ensures h.bus.paging == Bare ==>
              ExecuteAtomic(x, h, op, width, f).cause in {LOAD_ACCESS_FAULT, STORE_ACCESS_FAULT}
  {
  }

  /** An executor that throws has changed nothing, and in Bare mode it throws one of five causes. */
  lemma ThrowingExecutorIsPure(x: X0, op: Op, w: u32, h: Hart)
    requires Execute(x, op, w, h).Throw?
    ensures Execute(x, op, w, h).hart == h
    ensures h.bus.paging == Bare ==>
              Execute(x, op, w, h).cause in {LOAD_ACCESS_FAULT, STORE_ACCESS_FAULT, ECALL_FROM_USER,
                                             ECALL_FROM_SUPERVISOR, ECALL_FROM_MACHINE}
  {
    var f := Parse(FormatOf(op), w);
    match op
    case Atomic(o, width) => ThrowingAtomic(x, h, o, width, f);
    case _ =>
  }

  /** The step fetches w at the pc and decodes it as op. */
  predicate Fetches(h: Hart, w: u32, op: Op) {
    && BusLoad(h.bus, h.pc, 4).Data?
    && w == Low32(BusLoad(h.bus, h.pc, 4).value)
    && DecodeWord(w) == Some(op)
  }

  /** t is h after a synchronous trap c taken at the instruction whose pc is epc: registers, memory,
      paging and all CSRs outside the four of the entered level are those of h. */
  ghost predicate TrappedFrom(h: Hart, epc: u64, c: Cause, t: Hart) {
    var supervisor := ToSupervisor(h, c % TWO63);
    && t.regs == h.regs && t.bus == h.bus
    && t.mode == (if supervisor then Supervisor else Machine)
    && t.pc == EvenFloor(h.csrs[if supervisor then STVEC else MTVEC])
    && t.csrs[if supervisor then SEPC else MEPC] == EvenFloor(epc)
    && t.csrs[if supervisor then SCAUSE else MCAUSE] == c
    && t.csrs[if supervisor then STVAL else MTVAL] == 0
    && forall i :: 0 <= i < 4096 && i !in TrapCsrs(supervisor) ==> t.csrs[i] == h.csrs[i]
  }

  lemma SupervisorTrap(h: Hart, c: Cause)
    requires !IsInterrupt(c) && ToSupervisor(h, c % TWO63)
    ensures TrappedFrom(h, Wrap(h.pc - 4), c, EnterSupervisor(h, c))
  {
  }

  lemma MachineTrap(h: Hart, c: Cause)
    requires !IsInterrupt(c) && !ToSupervisor(h, c % TWO63)
    ensures TrappedFrom(h, Wrap(h.pc - 4), c, EnterMachine(h, c))
  {
  }

  lemma SynchronousTrap(h: Hart, c: Cause)
    requires !IsInterrupt(c)
    ensures HandleInterrupts(HandleTrap(h, c)) == HandleTrap(h, c)
    ensures TrappedFrom(h, Wrap(h.pc - 4), c, HandleTrap(h, c))
  {
    DelegatedIsBit(h, c);
    NoInterruptAfterTrap(h, c);
    if ToSupervisor(h, c % TWO63) { SupervisorTrap(h, c); } else { MachineTrap(h, c); }
  }

  lemma BackToTheInstruction(h: Hart, c: Cause, t: Hart)
    requires var h1 := Advance(Begin(Lazy, h)); TrappedFrom(h1, Wrap(h1.pc - 4), c, t)
    ensures TrappedFrom(Begin(Lazy, h), h.pc, c, t)
  {
    SameSavedPc(h.pc);
  }

  lemma SameSavedPc(pc: u64)
    ensures Wrap(Wrap(pc + 4) - 4) == pc
  {
  }

  /** Precise exceptions, for every state and every instruction of the table: if the executor
      throws, the step leaves registers, memory, paging and all other CSRs as they were (x0 cleared),
      saves the pc of the faulting instruction, and takes no interrupt on top. */
  lemma PreciseException(h: Hart, w: u32, op: Op)
    requires Fetches(h, w, op)
    requires Execute(Lazy, op, w, Advance(Begin(Lazy, h))).Throw?
    ensures var c := Execute(Lazy, op, w, Advance(Begin(Lazy, h))).cause;
            && Step(Lazy, h).Retired?
            && TrappedFrom(Begin(Lazy, h), h.pc, c, Step(Lazy, h).hart)
            && c in {LOAD_ACCESS_FAULT, STORE_ACCESS_FAULT, ECALL_FROM_USER, ECALL_FROM_SUPERVISOR,
                     ECALL_FROM_MACHINE}
  {
    var h1 := Advance(Begin(Lazy, h));
    var r := Execute(Lazy, op, w, h1);
    ThrowingExecutorIsPure(Lazy, op, w, h1);
    FetchingIsBare(h, w, op);
    StepOf(Lazy, h, w, op);
    ThrowEndsStep(h, h1, r.cause);
  }

  lemma ThrowEndsStep(h: Hart, h1: Hart, c: Cause)
    requires h1 == Advance(Begin(Lazy, h)) && !IsInterrupt(c)
    ensures Finish(Throw(h1, c)).Retired? && TrappedFrom(Begin(Lazy, h), h.pc, c, Finish(Throw(h1, c)).hart)
  {
    SynchronousTrap(h1, c);
    BackToTheInstruction(h, c, HandleTrap(h1, c));
  }

  lemma FetchingIsBare(h: Hart, w: u32, op: Op)
    requires Fetches(h, w, op)
    ensures h.bus.paging == Bare
  {
  }

  lemma StepOf(x: X0, h: Hart, w: u32, op: Op)
    requires Fetches(h, w, op)
    ensures Step(x, h) == Finish(Execute(x, op, w, Advance(Begin(x, h))))
  {
  }

  /** An exception that leaves the step (only Fetch and Decode can raise one outside the try block)
      is never seen by HandleTrap: no CSR, mode or register changes, x0 apart. */
  lemma EscapedExceptionIsNotDelivered(h: Hart)
    requires Step(Lazy, h).Escaped?
    ensures var t := Step(Lazy, h).hart;
            && t.csrs == h.csrs && t.mode == h.mode && t.bus == h.bus && t.regs == h.regs[0 := 0]
            && t.pc == (if Step(Lazy, h).cause == ILLEGAL_INSTRUCTION then Wrap(h.pc + 4) else h.pc)
  {
    var h0 := Begin(Lazy, h);
    if BusLoad(h0.bus, h0.pc, 4).Data? {
      EscapedIsUndecoded(Low32(BusLoad(h0.bus, h0.pc, 4).value), Advance(h0));
    }
  }

  lemma EscapedIsUndecoded(w: u32, h: Hart)
    requires Proceed(Lazy, w, h).Escaped?
    ensures Proceed(Lazy, w, h) == Escaped(h, ILLEGAL_INSTRUCTION)
  {
  }

  /** ECALL, end to end: a step that fetches its word is taken as a trap whose cause is 8 plus the
      encoding of the mode it came from, at the pc of the ECALL. */
  lemma EcallTraps(h: Hart)
    requires BusLoad(h.bus, h.pc, 4).Data? && Low32(BusLoad(h.bus, h.pc, 4).value) == 0x73
    ensures var c := 8 + (match h.mode case User => 0 case Supervisor => 1 case Machine => 3);
            Step(Lazy, h).Retired? && TrappedFrom(Begin(Lazy, h), h.pc, c, Step(Lazy, h).hart)
  {
    DecodeIsClassify(0x73);
    PreciseException(h, 0x73, System(ECALL));
  }

  lemma PutNothing(i: nat)
    requires i < 64
    ensures Put(0, i, false) == 0
  {
    forall j: nat
      ensures !Bit(0, j)
    {
      BitAboveBound(0, 0, j);
    }
    SameBits(Put(0, i, false), 0);
  }

  lemma StatusAfterReset(h: Hart, c: Cause)
    requires h.mode == Machine && h.csrs[MSTATUS] == 0
    ensures EnterMachine(h, c).csrs == h.csrs[MEPC := EvenFloor(Wrap(h.pc - 4))][MCAUSE := c][MTVAL := 0][MSTATUS := 0]
  {
    BitAboveBound(0, 0, M_IE);
    PutNothing(M_PIE);
    PutNothing(M_IE);
    PutNothing(11);
    PutNothing(12);
  }

  lemma WritesOfZero(s: CsrFile, v: u64, c: u64)
    requires s[MSTATUS] == s[MTVAL] == 0
    ensures s[MEPC := v][MCAUSE := c][MTVAL := 0][MSTATUS := 0] == s[MEPC := v][MCAUSE := c]
  {
  }

  /** h after a machine-mode trap at KERNBASE, with the CSRs of the constructor. */
  function AfterFirstTrap(h: Hart, c: Cause): Hart {
    h.(pc := 0, csrs := h.csrs[MEPC := KERNBASE][MCAUSE := c])
  }

  lemma TrapAfterReset(h: Hart, c: Cause)
    requires h.pc == KERNBASE + 4 && h.mode == Machine && !IsInterrupt(c)
    requires h.csrs[MSTATUS] == h.csrs[MTVAL] == h.csrs[MTVEC] == 0
    ensures HandleTrap(h, c) == AfterFirstTrap(h, c)
  {
    StatusAfterReset(h, c);
    WritesOfZero(h.csrs, KERNBASE, c);
    assert EnterMachine(h, c).pc == 0 && EvenFloor(Wrap(h.pc - 4)) == KERNBASE;
  }

  /** A concrete run: ECALL as the first instruction after reset enters the machine-mode handler at
      address 0, with everything but mepc and mcause as the constructor left it. */
  lemma EcallAfterReset(garbage: u64)
    ensures var h := Initial(KERNBASE, garbage, [0x73, 0, 0, 0]);
            Step(Lazy, h) == Retired(h.(pc := 0, csrs := h.csrs[MEPC := KERNBASE][MCAUSE := ECALL_FROM_MACHINE]))
  {
    var h := Initial(KERNBASE, garbage, [0x73, 0, 0, 0]);
    assert LoadBytes(h.bus.ram, 0, 4) == 0x73 by {
      assert LoadBytes(h.bus.ram, 2, 2) == 0;
    }
    FirstEcall(h);
  }

  lemma FirstEcall(h: Hart)
    requires h.pc == KERNBASE && h.mode == Machine && h.regs[0] == 0
    requires h.csrs[MSTATUS] == h.csrs[MTVAL] == h.csrs[MTVEC] == 0
    requires BusLoad(h.bus, KERNBASE, 4) == Data(0x73)
    ensures Step(Lazy, h) == Retired(AfterFirstTrap(h, ECALL_FROM_MACHINE))
  {
    var h1 := h.(pc := KERNBASE + 4);
    assert Begin(Lazy, h) == h;
    EcallExecutes(h, h1);
    TrapAfterReset(h1, ECALL_FROM_MACHINE);
    TrapEndsStep(h1, ECALL_FROM_MACHINE, HandleTrap(h1, ECALL_FROM_MACHINE));
  }

  lemma TrapEndsStep(h: Hart, c: Cause, t: Hart)
    requires t == HandleTrap(h, c)
    ensures Finish(Throw(h, c)) == Retired(t)
  {
    NoInterruptAfterTrap(h, c);
  }

  lemma EcallExecutes(h: Hart, h1: Hart)
    requires h.mode == Machine && h == Begin(Lazy, h) && h1 == Advance(h)
    requires BusLoad(h.bus, h.pc, 4) == Data(0x73)
    ensures Step(Lazy, h) == Finish(Throw(h1, ECALL_FROM_MACHINE))
  {
    DecodeIsClassify(0x73);
    StepOf(Lazy, h, 0x73, System(ECALL));
  }

  // ---------------------------------------------------------------- trap and return

  lemma SretBits(h: Hart, j: nat)
    ensures Bit(Sret(h).csrs[SSTATUS], j) ==
              if j == SIE then Bit(h.csrs[SSTATUS], SPIE)
              else if j == SPIE then true
              else if j == SPP then false
              else Bit(h.csrs[SSTATUS], j)
  {
  }

  /** sstatus and sepc, which a handler must preserve to return. */
  predicate SameContext(h: Hart, t: Hart) {
    t.csrs[SSTATUS] == h.csrs[SSTATUS] && t.csrs[SEPC] == h.csrs[SEPC]
  }

  /** The instruction neither returns with SRET nor writes sstatus or sepc. */
  predicate KeepsContext(op: Op, w: u32) {
    op != System(SRET) && (op.Csr? ==> Parse(I, w).imm != SSTATUS && Parse(I, w).imm != SEPC)
  }

  /** A trap or interrupt that does not enter supervisor mode. */
  predicate NotToSupervisor(r: Exec) {
    match r
    case Done(h) => NextInterrupt(h).Some? ==> !ToSupervisor(h, NextInterrupt(h).value)
    case Throw(h, c) => !ToSupervisor(h, c % TWO63)
    case Lost => true
  }

  /** The next step of h is part of a handler that does not start a second supervisor trap. */
  predicate QuietStep(h: Hart) {
    match BusLoad(h.bus, h.pc, 4)
    case Data(d) =>
      var w := Low32(d);
      DecodeWord(w).Some? ==>
        && KeepsContext(DecodeWord(w).value, w)
        && NotToSupervisor(Execute(Lazy, DecodeWord(w).value, w, Advance(Begin(Lazy, h))))
    case _ => true
  }

  /** So are the next n steps. */
  predicate QuietRun(h: Hart, n: nat)
    decreases n
  {
    n == 0 ||
    (QuietStep(h) &&
     (Next(Lazy, h).Some? ==> QuietRun(Next(Lazy, h).value, n - 1)))
  }

  lemma ExecuteKeepsContext(op: Op, w: u32, h: Hart)
    requires KeepsContext(op, w)
    ensures Execute(Lazy, op, w, h).Done? ==> SameContext(h, Execute(Lazy, op, w, h).hart)
    ensures Execute(Lazy, op, w, h).Throw? ==> SameContext(h, Execute(Lazy, op, w, h).hart)
  {
    if Execute(Lazy, op, w, h).Throw? {
      ThrowingExecutorIsPure(Lazy, op, w, h);
    }
  }

  lemma MachineTrapKeepsContext(h: Hart, c: Cause)
    requires !ToSupervisor(h, c % TWO63)
    ensures SameContext(h, HandleTrap(h, c))
  {
    DelegatedIsBit(h, c);
  }

  lemma FinishKeepsContext(r: Exec)
    requires NotToSupervisor(r) && !r.Lost?
    ensures Finish(r).Retired? && SameContext(r.hart, Finish(r).hart)
  {
    match r
    case Throw(h, c) =>
      NoInterruptAfterTrap(h, c);
      MachineTrapKeepsContext(h, c);
    case Done(h) =>
      if NextInterrupt(h).Some? {
        var i := NextInterrupt(h).value;
        MachineTrapKeepsContext(WithCsr(h, MIP, Put(h.csrs[MIP], i, false)), InterruptCause(i));
      }
  }

  lemma QuietStepKeepsContext(h: Hart)
    requires QuietStep(h)
    ensures Next(Lazy, h).Some? ==> SameContext(h, Next(Lazy, h).value)
  {
    if Step(Lazy, h).Escaped? {
      EscapedExceptionIsNotDelivered(h);
    } else if Step(Lazy, h).Retired? {
      var w := Low32(BusLoad(h.bus, h.pc, 4).value);
      RetiredKeepsContext(w, Advance(Begin(Lazy, h)));
    }
  }

  lemma RetiredKeepsContext(w: u32, h: Hart)
    requires Proceed(Lazy, w, h).Retired?
    requires KeepsContext(DecodeWord(w).value, w) && NotToSupervisor(Execute(Lazy, DecodeWord(w).value, w, h))
    ensures SameContext(h, Proceed(Lazy, w, h).hart)
  {
    var op := DecodeWord(w).value;
    var r := Execute(Lazy, op, w, h);
    ExecuteKeepsContext(op, w, h);
    FinishKeepsContext(r);
  }

  lemma {:induction false} QuietRunKeepsContext(h: Hart, n: nat)
    requires QuietRun(h, n) && Run(Lazy, h, n).Some?
    ensures SameContext(h, Run(Lazy, h, n).value)
    decreases n
  {
    if n > 0 {
      QuietStepKeepsContext(h);
      QuietRunKeepsContext(Next(Lazy, h).value, n - 1);
    }
  }

  /** Trap and return bracket any handler: after a delegated trap, any number of steps of any code
      that keeps sstatus and sepc (machine-mode traps and their MRETs included), and SRET, the hart is
      back at the trapped pc, in the trapped mode, with the same interrupt enable, and no other
      sstatus bit has changed but the two that SRET resets. */
  lemma TrapReturnBracket(h: Hart, c: Cause, n: nat)
    requires ToSupervisor(h, c % TWO63)
    requires QuietRun(HandleTrap(h, c), n) && Run(Lazy, HandleTrap(h, c), n).Some?
    ensures var r := Sret(Run(Lazy, HandleTrap(h, c), n).value);
            && r.mode == h.mode && r.pc == EvenFloor(Wrap(h.pc - 4))
            && forall j: nat ::
                 Bit(r.csrs[SSTATUS], j) ==
                   if j == SPIE then true else if j == SPP then false else Bit(h.csrs[SSTATUS], j)
  {
    var t := HandleTrap(h, c);
    var u := Run(Lazy, t, n).value;
    QuietRunKeepsContext(t, n);
    ReturnFromContext(h, c, t, u);
  }

  lemma ReturnFromContext(h: Hart, c: Cause, t: Hart, u: Hart)
    requires ToSupervisor(h, c % TWO63) && t == HandleTrap(h, c) && SameContext(t, u)
    ensures Sret(u).mode == h.mode && Sret(u).pc == EvenFloor(Wrap(h.pc - 4))
    ensures forall j: nat ::
              Bit(Sret(u).csrs[SSTATUS], j) ==
                if j == SPIE then true else if j == SPP then false else Bit(h.csrs[SSTATUS], j)
  {
    DelegatedIsBit(h, c);
    StatusAfterTrap(h, c, SPP);
    forall j: nat
      ensures Bit(Sret(u).csrs[SSTATUS], j) ==
                if j == SPIE then true else if j == SPP then false else Bit(h.csrs[SSTATUS], j)
    {
      SretBits(u, j);
      StatusAfterTrap(h, c, j);
      StatusAfterTrap(h, c, SPIE);
    }
  }

  /** The machine-level pair: a trap into machine mode and the MRET after it leave every supervisor
      CSR alone, restore the machine interrupt enable and the pc, and always end in user mode. */
  lemma MachineTrapReturn(h: Hart, c: Cause)
    requires !ToSupervisor(h, c % TWO63)
    ensures var r := Mret(HandleTrap(h, c));
            && r.mode == User && r.pc == EvenFloor(Wrap(h.pc - 4)) && SameContext(h, r)
            && forall j: nat ::
                 Bit(r.csrs[MSTATUS], j) ==
                   if j == M_PIE then true else if j == 11 || j == 12 then false else Bit(h.csrs[MSTATUS], j)
  {
    DelegatedIsBit(h, c);
    StatusAfterTrap(h, c, 11);
    StatusAfterTrap(h, c, 12);
  }
}

/** A whole step and a whole run in the terms of Accesses, Instructions and TrapEntry: fetch by bytes,
    the decision tree, the meaning of the instruction, and the trap or interrupt that ends it. */
module Steps {
  import opened Words
  import opened Isa
  import opened Decode
  import opened Parsing
  import opened Traps
  import opened Ram
  import opened Mmu
  import opened HartModel
  import opened TrapEntry
  import opened TrapProperties
  import opened Accesses
  import opened Instructions
  import opened OneOutcome

  // ---------------------------------------------------------------- what a step does

  /** The step ends as s after its executor ended as e: a thrown trap is entered and nothing follows; a
      normal end is followed by the interrupt check. */
  ghost predicate Ends(e: Exec, s: StepResult) {
    match e
    case Lost => s == Crashed
    case Throw(h, c) => s.Retired? && Entered(h, c, s.hart)
    case Done(h) => s.Retired? && Checked(h, s.hart)
  }

  /** The rest of a step, with the word w fetched: an illegal instruction leaves it by an exception. */
  ghost predicate WordMeans(w: u32, h: Hart, s: StepResult) {
    match Classify(w)
    case None => s == Escaped(h, 2)
    case Some(op) => exists e :: Meaning(op, w, h, e) && Ends(e, s)
  }

  /** The four bytes from i on, least significant first. */
  function WordAt(ram: seq<byte>, i: nat): u32
    requires i + 4 <= |ram|
  {
    var a: nat, b: nat, c: nat, d: nat := ram[i], ram[i + 1], ram[i + 2], ram[i + 3];
    a + 0x100 * b + 0x1_0000 * c + 0x100_0000 * d
  }

  /** A step from h ends as s: x0 is cleared, the word at the pc is fetched, and the pc advances. A fetch
      outside memory leaves the step by an exception with the pc where it was. */
  ghost predicate StepMeans(h: Hart, s: StepResult) {
    var h0 := h.(regs := h.regs[0 := 0]);
    match h.bus.paging
    case Sv39 => s == Crashed
    case Bare =>
      (match TargetOf(|h.bus.ram|, h.pc)
       case Memory =>
         if h.pc - 0x8000_0000 + 4 <= |h.bus.ram|
         then WordMeans(WordAt(h.bus.ram, h.pc - 0x8000_0000), h0.(pc := (h.pc + 4) % TWO64), s)
         else s == Crashed
       case Uart => s == Escaped(h0, 5)
       case Stub => s == Crashed
       case Nowhere => s == Escaped(h0, 5))
    case _ => s == Escaped(h0, 12)
  }

  // ---------------------------------------------------------------- the step of the model

  lemma FinishEnds(e: Exec)
    ensures Ends(e, Finish(e))
  {
    match e
    case Lost =>
    case Done(h) => InterruptsChecked(h);
    case Throw(h, c) =>
      NoInterruptAfterTrap(h, c);
      TrapEntered(h, c);
  }

  lemma ProceedMeans(w: u32, h: Hart)
    ensures WordMeans(w, h, Proceed(Lazy, w, h))
  {
    DecodeIsClassify(w);
    if Classify(w).Some? {
      var op := Classify(w).value;
      ExecuteMeans(op, w, h);
      FinishEnds(Execute(Lazy, op, w, h));
    }
  }

  lemma FetchedBytes(ram: seq<byte>, i: nat)
    requires i + 4 <= |ram|
    ensures RamLoad(ram, i, 4) == Data(WordAt(ram, i))
  {
    assert LoadBytes(ram, i + 4, 0) == 0;
    assert LoadBytes(ram, i + 3, 1) == ram[i + 3];
    assert LoadBytes(ram, i + 2, 2) == ram[i + 2] + 256 * LoadBytes(ram, i + 3, 1);
    assert LoadBytes(ram, i + 1, 3) == ram[i + 1] + 256 * LoadBytes(ram, i + 2, 2);
  }

  lemma StepInMemory(h: Hart, h0: Hart, d: u64)
    requires h0 == Begin(Lazy, h) && BusLoad(h0.bus, h0.pc, 4) == Data(d)
    ensures Step(Lazy, h) == Proceed(Lazy, Low32(d), Advance(h0))
  {
  }

  lemma StepOutsideMemory(h: Hart, h0: Hart)
    requires h0 == Begin(Lazy, h) && !BusLoad(h0.bus, h0.pc, 4).Data?
    ensures Step(Lazy, h) == if BusLoad(h0.bus, h0.pc, 4).Fault? then Escaped(h0, BusLoad(h0.bus, h0.pc, 4).cause)
                             else Crashed
  {
  }

  lemma FetchInMemory(bus: Bus, pc: u64)
    requires bus.paging == Bare && TargetOf(|bus.ram|, pc) == Memory && pc - 0x8000_0000 + 4 <= |bus.ram|
    ensures BusLoad(bus, pc, 4) == Data(WordAt(bus.ram, pc - 0x8000_0000))
  {
    BusReads(bus, pc, 4);
    FetchedBytes(bus.ram, pc - 0x8000_0000);
  }

  lemma LowWord(w: u32)
    ensures Low32(w) == w
  {
  }

  lemma StepOnWord(h: Hart, w: u32, h1: Hart)
    requires BusLoad(h.bus, h.pc, 4) == Data(w) && h1 == Advance(Begin(Lazy, h))
    ensures WordMeans(w, h1, Step(Lazy, h))
  {
    StepInMemory(h, Begin(Lazy, h), w);
    LowWord(w);
    FetchedWordMeans(w, Low32(w), h1, Step(Lazy, h));
  }

  lemma StepFromMemory(h: Hart)
    requires h.bus.paging == Bare && TargetOf(|h.bus.ram|, h.pc) == Memory && h.pc - 0x8000_0000 + 4 <= |h.bus.ram|
    ensures WordMeans(WordAt(h.bus.ram, h.pc - 0x8000_0000),
                      h.(regs := h.regs[0 := 0]).(pc := (h.pc + 4) % TWO64), Step(Lazy, h))
  {
    FetchInMemory(h.bus, h.pc);
    StepOnWord(h, WordAt(h.bus.ram, h.pc - 0x8000_0000), h.(regs := h.regs[0 := 0]).(pc := (h.pc + 4) % TWO64));
  }

  lemma FetchedWordMeans(w: u32, v: u32, h: Hart, s: StepResult)
    requires v == w && s == Proceed(Lazy, v, h)
    ensures WordMeans(w, h, s)
  {
    ProceedMeans(v, h);
  }

  /** Every step of every state. */
  lemma StepIsMeant(h: Hart)
    ensures StepMeans(h, Step(Lazy, h))
  {
    if h.bus.paging == Bare && TargetOf(|h.bus.ram|, h.pc) == Memory && h.pc - 0x8000_0000 + 4 <= |h.bus.ram| {
      StepFromMemory(h);
    } else {
      if h.bus.paging == Bare { BusReads(h.bus, h.pc, 4); }
      StepOutsideMemory(h, Begin(Lazy, h));
    }
  }

  lemma OneEnd(e: Exec, s: StepResult, t: StepResult)
    requires Ends(e, s) && Ends(e, t)
    ensures s == t
  {
    match e
    case Lost =>
    case Throw(h, c) => OneEntry(h, c, s.hart, t.hart);
    case Done(h) => OneCheck(h, s.hart, t.hart);
  }

  lemma OneWordMeaning(w: u32, h: Hart, s: StepResult, t: StepResult)
    requires WordMeans(w, h, s) && WordMeans(w, h, t)
    ensures s == t
  {
    if Classify(w).Some? {
      var op := Classify(w).value;
      var e :| Meaning(op, w, h, e) && Ends(e, s);
      var e' :| Meaning(op, w, h, e') && Ends(e', t);
      OneMeaning(op, w, h, e, e');
      OneEnd(e, s, t);
    }
  }

  lemma OneStep(h: Hart, s: StepResult, t: StepResult)
    requires StepMeans(h, s) && StepMeans(h, t)
    ensures s == t
  {
    if h.bus.paging == Bare && TargetOf(|h.bus.ram|, h.pc) == Memory && h.pc - 0x8000_0000 + 4 <= |h.bus.ram| {
      var w := WordAt(h.bus.ram, h.pc - 0x8000_0000);
      var h1 := h.(regs := h.regs[0 := 0]).(pc := (h.pc + 4) % TWO64);
      assert WordMeans(w, h1, s) && WordMeans(w, h1, t);
      OneWordMeaning(w, h1, s, t);
    }
  }

  /** StepMeans determines the step: it is the only result with that meaning. */
  lemma StepIsDetermined(h: Hart, s: StepResult)
    ensures StepMeans(h, s) <==> s == Step(Lazy, h)
  {
    StepIsMeant(h);
    if StepMeans(h, s) { OneStep(h, s, Step(Lazy, h)); }
  }

  // ---------------------------------------------------------------- returns

  lemma ReturnEnds(u: Hart, w: u32, op: SystemOp, u1: Hart, r: Hart)
    requires Fetches(u, w, System(op)) && u1 == Advance(Begin(Lazy, u)) && ExecuteSystem(op, u1) == Done(r)
    ensures Step(Lazy, u).Retired? && Checked(r, Step(Lazy, u).hart)
  {
    StepOf(Lazy, u, w, System(op));
    InterruptsChecked(r);
  }

  /** The state r is back where h was trapped: the same mode and pc, and of sstatus all bits but the two
      that SRET resets. */
  ghost predicate BackFrom(h: Hart, r: Hart) {
    && r.mode == h.mode && r.pc == SavedPc(h.pc)
    && forall j: nat ::
         Bit(r.csrs[0x100], j) == if j == 5 then true else if j == 8 then false else Bit(h.csrs[0x100], j)
  }

  /** The bracket on steps: a delegated trap, any n quiet rounds, and a step that fetches SRET; that step
      restores the trapped context and then checks for interrupts. */
  lemma TrapReturnSteps(h: Hart, c: Cause, n: nat, u: Hart, w: u32)
    requires ToSupervisor(h, c % TWO63) && QuietRun(HandleTrap(h, c), n)
    requires Run(Lazy, HandleTrap(h, c), n) == Some(u) && Fetches(u, w, System(SRET))
    ensures Step(Lazy, u).Retired?
    ensures exists r :: BackFrom(h, r) && Checked(r, Step(Lazy, u).hart)
  {
    var t := HandleTrap(h, c);
    var u1 := Advance(Begin(Lazy, u));
    QuietRunKeepsContext(t, n);
    ReturnIsBack(h, c, t, u1);
    ReturnEnds(u, w, SRET, u1, Sret(u1));
  }

  lemma ReturnIsBack(h: Hart, c: Cause, t: Hart, u: Hart)
    requires ToSupervisor(h, c % TWO63) && t == HandleTrap(h, c) && SameContext(t, u)
    ensures BackFrom(h, Sret(u))
  {
    ReturnFromContext(h, c, t, u);
    BackByParts(h, Sret(u));
  }

  lemma SavedIsEven(pc: u64)
    ensures SavedPc(pc) == EvenFloor(Wrap(pc - 4))
  {
  }

  lemma BackByParts(h: Hart, r: Hart)
    requires r.mode == h.mode && r.pc == EvenFloor(Wrap(h.pc - 4))
    requires forall j: nat ::
               Bit(r.csrs[SSTATUS], j) ==
                 if j == SPIE then true else if j == SPP then false else Bit(h.csrs[SSTATUS], j)
    ensures BackFrom(h, r)
  {
    SavedIsEven(h.pc);
  }

  /** A machine-mode trap and a step that fetches MRET as the first instruction of its handler: user mode,
      the trapped pc, and of mstatus all bits but MPIE and MPP. */
  ghost predicate BackInUser(h: Hart, r: Hart) {
    && r.mode == User && r.pc == SavedPc(h.pc)
    && forall j: nat ::
         Bit(r.csrs[0x300], j) == if j == 7 then true else if j == 11 || j == 12 then false else Bit(h.csrs[0x300], j)
  }

  lemma MachineReturnStep(h: Hart, c: Cause, w: u32)
    requires !ToSupervisor(h, c % TWO63) && Fetches(HandleTrap(h, c), w, System(MRET))
    ensures Step(Lazy, HandleTrap(h, c)).Retired?
    ensures exists r :: BackInUser(h, r) && Checked(r, Step(Lazy, HandleTrap(h, c)).hart)
  {
    var t := HandleTrap(h, c);
    var u1 := Advance(Begin(Lazy, t));
    MachineIsBack(h, c, t, u1);
    ReturnEnds(t, w, MRET, u1, Mret(u1));
  }

  lemma MachineIsBack(h: Hart, c: Cause, t: Hart, u: Hart)
    requires !ToSupervisor(h, c % TWO63) && t == HandleTrap(h, c) && u.csrs == t.csrs && u.mode == t.mode
    ensures BackInUser(h, Mret(u))
  {
    MachineTrapReturn(h, c);
    SameReturn(t, u);
    UserByParts(h, Mret(u));
  }

  lemma UserByParts(h: Hart, r: Hart)
    requires r.mode == User && r.pc == EvenFloor(Wrap(h.pc - 4))
    requires forall j: nat ::
               Bit(r.csrs[MSTATUS], j) ==
                 if j == M_PIE then true else if j == 11 || j == 12 then false else Bit(h.csrs[MSTATUS], j)
    ensures BackInUser(h, r)
  {
    SavedIsEven(h.pc);
  }

  lemma SameReturn(t: Hart, u: Hart)
    requires u.csrs == t.csrs && u.mode == t.mode
    ensures Mret(u).csrs == Mret(t).csrs && Mret(u).mode == Mret(t).mode && Mret(u).pc == Mret(t).pc
  {
  }

  // ---------------------------------------------------------------- runs

  /** n rounds of the loop lead from h to t: a round that ends by an exception goes on from the state in
      which it was thrown, and only an undefined step stops the run. */
  ghost predicate RunMeans(h: Hart, n: nat, t: Option<Hart>)
    decreases n
  {
    if n == 0 then t == Some(h)
    else
      exists s :: StepMeans(h, s) &&
        match s
        case Retired(u) => RunMeans(u, n - 1, t)
        case Escaped(u, _) => RunMeans(u, n - 1, t)
        case Crashed => t == None
  }

  /** Every run, and no other end. */
  lemma {:induction false} RunIsMeant(h: Hart, n: nat, t: Option<Hart>)
    ensures RunMeans(h, n, t) <==> t == Run(Lazy, h, n)
    decreases n
  {
    if n > 0 {
      var s := Step(Lazy, h);
      StepIsMeant(h);
      if s.Retired? || s.Escaped? { RunIsMeant(s.hart, n - 1, t); }
      forall r | StepMeans(h, r)
        ensures r == s
      {
        StepIsDetermined(h, r);
      }
    }
  }

  /** The state that the constructor leaves. */
  lemma ResetState(entry: u64, garbage: u64, ram: seq<byte>)
    ensures var h := Initial(entry, garbage, ram);
            && h.pc == entry && h.mode == Machine && h.bus == Bus(Bare, garbage, ram)
            && (forall i :: 0 <= i < 32 ==> h.regs[i] == 0) && (forall i :: 0 <= i < 4096 ==> h.csrs[i] == 0)
  {
  }

  // ---------------------------------------------------------------- access faults

  lemma ThrowTraps(h: Hart, w: u32, op: Op, h1: Hart, c: Cause)
    requires Fetches(h, w, op) && h1 == Advance(Begin(Lazy, h)) && Execute(Lazy, op, w, h1) == Throw(h1, c)
    ensures Step(Lazy, h).Retired? && TrappedFrom(Begin(Lazy, h), h.pc, c, Step(Lazy, h).hart)
  {
    PreciseException(h, w, op);
  }

  lemma ParsedLoadTraps(h: Hart, w: u32, o: LoadOp, f: Fields)
    requires Fetches(h, w, Load(o)) && f == Parse(I, w)
    requires Faults(|h.bus.ram|, (h.regs[0 := 0][f.rs1] + f.imm) % TWO64, LoadWidth(o))
    ensures Step(Lazy, h).Retired? && TrappedFrom(Begin(Lazy, h), h.pc, 5, Step(Lazy, h).hart)
  {
    var h1 := Advance(Begin(Lazy, h));
    assert h1.regs == h.regs[0 := 0] && h1.bus == h.bus;
    FetchingIsBare(h, w, Load(o));
    ParsedLoadFaults(o, w, h1, f);
    ThrowTraps(h, w, Load(o), h1, 5);
  }

  lemma ParsedStoreTraps(h: Hart, w: u32, o: StoreOp, f: Fields)
    requires Fetches(h, w, Store(o)) && f == Parse(S, w)
    requires Faults(|h.bus.ram|, (h.regs[0 := 0][f.rs1] + f.imm) % TWO64, StoreWidth(o))
    ensures Step(Lazy, h).Retired? && TrappedFrom(Begin(Lazy, h), h.pc, 7, Step(Lazy, h).hart)
  {
    var h1 := Advance(Begin(Lazy, h));
    assert h1.regs == h.regs[0 := 0] && h1.bus == h.bus;
    FetchingIsBare(h, w, Store(o));
    ParsedStoreFaults(o, w, h1, f);
    ThrowTraps(h, w, Store(o), h1, 7);
  }

  /** A step whose load, with the operands f, faults traps with cause 5 at the pc of the instruction, to
      the level that medeleg chooses, and changes nothing else. */
  lemma LoadFaultTraps(h: Hart, w: u32, o: LoadOp, f: Fields)
    requires Fetches(h, w, Load(o)) && f == Operands(I, w)
    requires Faults(|h.bus.ram|, (h.regs[0 := 0][f.rs1] + f.imm) % TWO64, LoadWidth(o))
    ensures Step(Lazy, h).Retired? && TrappedFrom(Begin(Lazy, h), h.pc, 5, Step(Lazy, h).hart)
  {
    ParsedLoadTraps(h, w, o, f);
  }

  /** The same for stores, with cause 7. */
  lemma StoreFaultTraps(h: Hart, w: u32, o: StoreOp, f: Fields)
    requires Fetches(h, w, Store(o)) && f == Operands(S, w)
    requires Faults(|h.bus.ram|, (h.regs[0 := 0][f.rs1] + f.imm) % TWO64, StoreWidth(o))
    ensures Step(Lazy, h).Retired? && TrappedFrom(Begin(Lazy, h), h.pc, 7, Step(Lazy, h).hart)
  {
    ParsedStoreTraps(h, w, o, f);
  }
}

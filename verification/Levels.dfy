/** Privilege levels: which pending interrupt comes first, which level takes it, and when a step changes
    the level. Section numbers are those of the privileged specification. */
module Levels {
  import opened Words
  import opened Isa
  import opened Decode
  import opened Traps
  import opened Mmu
  import opened HartModel
  import opened TrapEntry
  import opened TrapProperties

  // ---------------------------------------------------------------- interrupts

  /** Decreasing priority (3.1.9): machine external, software and timer, then the same for supervisor. */
  const PRIORITY: seq<nat> := [11, 3, 7, 9, 1, 5]

  lemma FirstOf(h: Hart, a: nat, rest: seq<nat>)
    ensures FirstPending(h, [a] + rest) == if Pending(h, a) then Some(a) else FirstPending(h, rest)
  {
    assert ([a] + rest)[1..] == rest;
  }

  lemma FirstOfThree(h: Hart, a: nat, b: nat, c: nat, rest: seq<nat>)
    ensures FirstPending(h, [a, b, c] + rest)
         == if Pending(h, a) then Some(a) else if Pending(h, b) then Some(b)
            else if Pending(h, c) then Some(c) else FirstPending(h, rest)
  {
    assert [a, b, c] + rest == [a] + ([b] + ([c] + rest));
    FirstOf(h, a, [b] + ([c] + rest));
    FirstOf(h, b, [c] + rest);
    FirstOf(h, c, rest);
  }

  lemma FirstOfSix(h: Hart, a: nat, b: nat, c: nat, d: nat, e: nat, f: nat)
    ensures FirstPending(h, [a, b, c, d, e, f])
         == if Pending(h, a) then Some(a) else if Pending(h, b) then Some(b) else if Pending(h, c) then Some(c)
            else if Pending(h, d) then Some(d) else if Pending(h, e) then Some(e)
            else if Pending(h, f) then Some(f) else None
  {
    assert [a, b, c, d, e, f] == [a, b, c] + ([d, e, f] + []);
    FirstOfThree(h, a, b, c, [d, e, f] + []);
    FirstOfThree(h, d, e, f, []);
  }

  /** The interrupts are tried in the order of their numbers. That picks the one of highest priority
      exactly when none of lower priority has a lower number. */
  lemma PriorityMatches(h: Hart)
    ensures FirstPending(h, INTERRUPTS) == FirstPending(h, PRIORITY)
       <==> if Pending(h, 11) then forall i :: i in {1, 3, 5, 7, 9} ==> !Pending(h, i)
            else if Pending(h, 3) then !Pending(h, 1)
            else if Pending(h, 7) || Pending(h, 9) then !Pending(h, 1) && !Pending(h, 5)
            else true
  {
    FirstOfSix(h, 1, 3, 5, 7, 9, 11);
    FirstOfSix(h, 11, 3, 7, 9, 1, 5);
  }

  const MIDELEG := 0x303

  /** The level that takes interrupt i is chosen by medeleg; the manual chooses by mideleg (3.1.8). */
  lemma DelegationMatches(h: Hart, i: nat)
    requires i < 16
    ensures HandleTrap(h, InterruptCause(i)).mode
              == (if h.mode != Machine && Bit(h.csrs[MIDELEG], i) then Supervisor else Machine)
       <==> h.mode == Machine || Bit(h.csrs[MEDELEG], i) == Bit(h.csrs[MIDELEG], i)
  {
    TrapMode(h, InterruptCause(i));
    assert CauseIndex(InterruptCause(i)) == i;
  }

  // ---------------------------------------------------------------- level of a step

  /** The level after an instruction that does not throw: SRET and MRET choose it, in whatever level
      they are executed, and no other instruction changes it. */
  function LevelAfter(op: Op, h: Hart): Mode {
    match op
    case System(SRET) => if Bit(h.csrs[SSTATUS], SPP) then Supervisor else User
    case System(MRET) => ModeOfMpp(h.csrs[MSTATUS])
    case _ => h.mode
  }

  lemma ExecutorLevel(x: X0, op: Op, w: u32, h: Hart)
    requires Execute(x, op, w, h).Done?
    ensures Execute(x, op, w, h).hart.mode == LevelAfter(op, h)
  {
  }

  function TrapLevel(h: Hart, c: Cause): Mode {
    if ToSupervisor(h, c % TWO63) then Supervisor else Machine
  }

  /** t is at the vector of the level it is in, with the cause in that level's CSR. */
  ghost predicate AtVector(t: Hart) {
    match t.mode
    case User => false
    case Supervisor => exists c: Cause :: t.csrs[SCAUSE] == c && t.pc == VectorOf(t.csrs[STVEC], c)
    case Machine => exists c: Cause :: t.csrs[MCAUSE] == c && t.pc == VectorOf(t.csrs[MTVEC], c)
  }

  lemma TrapMode(h: Hart, c: Cause)
    ensures HandleTrap(h, c).mode == TrapLevel(h, c)
  {
    DelegatedIsBit(h, c);
  }

  lemma TrapsToVector(h: Hart, c: Cause)
    ensures HandleTrap(h, c).mode == TrapLevel(h, c) && AtVector(HandleTrap(h, c))
  {
    TrapMode(h, c);
    if Delegated(h, c) {
      SupervisorVector(h, c, EnterSupervisor(h, c));
    } else {
      MachineVector(h, c, EnterMachine(h, c));
    }
  }

  lemma SupervisorVector(h: Hart, c: Cause, t: Hart)
    requires t == EnterSupervisor(h, c)
    ensures AtVector(t)
  {
    VectorIsTarget(h.csrs[STVEC], c);
    assert t.csrs[SCAUSE] == c && t.pc == VectorOf(t.csrs[STVEC], c);
  }

  lemma MachineVector(h: Hart, c: Cause, t: Hart)
    requires t == EnterMachine(h, c)
    ensures AtVector(t)
  {
    VectorIsTarget(h.csrs[MTVEC], c);
    assert t.csrs[MCAUSE] == c && t.pc == VectorOf(t.csrs[MTVEC], c);
  }

  /** The trap or interrupt that ends a step, after its executor came to r. */
  function Interrupted(r: Exec): Option<Mode> {
    match r
    case Throw(h, c) => Some(TrapLevel(h, c))
    case Done(h) =>
      (match NextInterrupt(h)
       case Some(i) => Some(TrapLevel(WithCsr(h, MIP, Put(h.csrs[MIP], i, false)), InterruptCause(i)))
       case None => None)
    case Lost => None
  }

  lemma FinishLevel(r: Exec)
    requires Finish(r).Retired?
    ensures Interrupted(r).Some? ==> Finish(r).hart.mode == Interrupted(r).value && AtVector(Finish(r).hart)
    ensures Interrupted(r).None? ==> r.Done? && Finish(r).hart == r.hart
  {
    match r
    case Throw(h, c) =>
      NoInterruptAfterTrap(h, c);
      TrapsToVector(h, c);
    case Done(h) =>
      if NextInterrupt(h).Some? {
        var i := NextInterrupt(h).value;
        TrapsToVector(WithCsr(h, MIP, Put(h.csrs[MIP], i, false)), InterruptCause(i));
      }
  }

  /** For every level and every instruction: a step that ends by a trap or an interrupt is at the vector
      of the level it enters, and any other is in the level of LevelAfter. */
  lemma StepLevel(h: Hart, w: u32, op: Op)
    requires Fetches(h, w, op) && Step(Lazy, h).Retired?
    ensures var r := Execute(Lazy, op, w, Advance(Begin(Lazy, h)));
            var t := Step(Lazy, h).hart;
            if Interrupted(r).Some? then t.mode == Interrupted(r).value && AtVector(t)
            else t.mode == LevelAfter(op, h)
  {
    var h1 := Advance(Begin(Lazy, h));
    var r := Execute(Lazy, op, w, h1);
    StepOf(Lazy, h, w, op);
    FinishLevel(r);
    if Interrupted(r).None? {
      ExecutorLevel(Lazy, op, w, h1);
      SameLevel(op, h, h1);
    }
  }

  lemma SameLevel(op: Op, h: Hart, h1: Hart)
    requires h1.mode == h.mode && h1.csrs == h.csrs
    ensures LevelAfter(op, h1) == LevelAfter(op, h)
  {
  }

  // ---------------------------------------------------------------- runs in user mode

  /** The next instruction is SRET or MRET. */
  predicate AtReturn(h: Hart) {
    BusLoad(h.bus, h.pc, 4).Data? &&
    var op := DecodeWord(Low32(BusLoad(h.bus, h.pc, 4).value));
    op == Some(System(SRET)) || op == Some(System(MRET))
  }

  /** One round from user mode, whatever it executes and however it ends, stays there or enters another
      level at its vector, unless the instruction is SRET or MRET. */
  lemma UserNext(h: Hart)
    requires h.mode == User && !AtReturn(h) && Next(Lazy, h).Some?
    ensures var t := Next(Lazy, h).value; t.mode == User || AtVector(t)
  {
    if Step(Lazy, h).Escaped? {
      EscapedExceptionIsNotDelivered(h);
    } else {
      RetiredFetches(h);
      var w := Low32(BusLoad(h.bus, h.pc, 4).value);
      StepLevel(h, w, DecodeWord(w).value);
    }
  }

  lemma RetiredFetches(h: Hart)
    requires Step(Lazy, h).Retired?
    ensures BusLoad(h.bus, h.pc, 4).Data? && DecodeWord(Low32(BusLoad(h.bus, h.pc, 4).value)).Some?
  {
  }

  /** No round among the next n executes SRET or MRET in user mode. */
  predicate NoUserReturn(h: Hart, n: nat)
    decreases n
  {
    n > 0 && h.mode == User ==>
      !AtReturn(h) && (Next(Lazy, h).Some? ==> NoUserReturn(Next(Lazy, h).value, n - 1))
  }

  /** The next n rounds are in user mode up to the first that enters another level, and that one does so
      at the vector of the level. */
  ghost predicate LeavesByVector(h: Hart, n: nat)
    decreases n
  {
    n > 0 && h.mode == User && Next(Lazy, h).Some? ==>
      var t := Next(Lazy, h).value;
      (t.mode == User || AtVector(t)) && LeavesByVector(t, n - 1)
  }

  /** Whatever runs in user mode, on whatever memory and CSRs, another level is entered only at its
      vector, as long as SRET and MRET are not executed there. */
  lemma {:induction false} UserRun(h: Hart, n: nat)
    requires NoUserReturn(h, n)
    ensures LeavesByVector(h, n)
    decreases n
  {
    if n > 0 && h.mode == User && Next(Lazy, h).Some? {
      UserNext(h);
      UserRun(Next(Lazy, h).value, n - 1);
    }
  }
}

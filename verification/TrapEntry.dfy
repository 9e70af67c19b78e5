/** What a trap, a return and the interrupt check do to the hart, from the CSR numbers and bits alone
    (chapters 3.1 and 4.1 of the privileged specification, as far as the source follows them). The
    functions of HartModel are proved against it here; the other modules state their results with it. */
module TrapEntry {
  import opened Words
  import opened Decode
  import opened Traps
  import opened HartModel

  // ---------------------------------------------------------------- entry

  /** medeleg (0x302) sends the trap of this index to supervisor mode. */
  predicate ToSupervisor(h: Hart, index: nat) {
    h.mode != Machine && h.csrs[0x302] / Pow2(index) % 2 == 1
  }

  /** The status word after a trap: the enable bit moves to its shadow and is cleared, and the previous
      mode is recorded, in machine mode always as user mode. */
  ghost predicate SupervisorStatus(h: Hart, y: u64) {
    forall j: nat ::
      Bit(y, j) == if j == 5 then Bit(h.csrs[0x100], 1) else if j == 1 then false
                   else if j == 8 then h.mode == Supervisor else Bit(h.csrs[0x100], j)
  }

  ghost predicate MachineStatus(h: Hart, y: u64) {
    forall j: nat ::
      Bit(y, j) == if j == 7 then Bit(h.csrs[0x300], 3) else if j == 3 || j == 11 || j == 12 then false
                   else Bit(h.csrs[0x300], j)
  }

  function VectorOf(tvec: u64, c: Cause): u64 {
    (tvec - tvec % 2 + if c >= TWO63 && tvec % 2 == 1 then 4 * (c - TWO63) else 0) % TWO64
  }

  /** The pc that is saved: 4 below, with bit 0 cleared. */
  function SavedPc(pc: u64): u64 {
    var p := (pc - 4) % TWO64;
    p - p % 2
  }

  /** t is h after entering supervisor mode with the cause c. */
  ghost predicate InSupervisor(h: Hart, c: Cause, t: Hart) {
    && t.mode == Supervisor && t.pc == VectorOf(h.csrs[0x105], c)
    && t.csrs[0x141] == SavedPc(h.pc) && t.csrs[0x142] == c && t.csrs[0x143] == 0
    && SupervisorStatus(h, t.csrs[0x100])
    && (forall i :: 0 <= i < 4096 && i !in {0x100, 0x141, 0x142, 0x143} ==> t.csrs[i] == h.csrs[i])
    && t.regs == h.regs && t.bus == h.bus
  }

  ghost predicate InMachine(h: Hart, c: Cause, t: Hart) {
    && t.mode == Machine && t.pc == VectorOf(h.csrs[0x305], c)
    && t.csrs[0x341] == SavedPc(h.pc) && t.csrs[0x342] == c && t.csrs[0x343] == 0
    && MachineStatus(h, t.csrs[0x300])
    && (forall i :: 0 <= i < 4096 && i !in {0x300, 0x341, 0x342, 0x343} ==> t.csrs[i] == h.csrs[i])
    && t.regs == h.regs && t.bus == h.bus
  }

  /** t is h after the trap c, an exception below 16 or 2^63 plus the number of an interrupt. */
  ghost predicate Entered(h: Hart, c: Cause, t: Hart) {
    if ToSupervisor(h, c % TWO63) then InSupervisor(h, c, t) else InMachine(h, c, t)
  }

  lemma DelegatedIsBit(h: Hart, c: Cause)
    ensures Delegated(h, c) == ToSupervisor(h, c % TWO63)
  {
    BitIsShift(h.csrs[0x302], c % TWO63);
  }

  lemma DelegatedInterrupt(h: Hart, i: nat)
    requires i < 16
    ensures Delegated(h, InterruptCause(i)) == ToSupervisor(h, i)
  {
    BitIsShift(h.csrs[0x302], i);
    assert CauseIndex(InterruptCause(i)) == i;
  }

  lemma VectorIsTarget(tvec: u64, c: Cause)
    ensures TrapTarget(tvec, c) == VectorOf(tvec, c)
  {
    if c >= TWO63 && tvec % 2 == 1 {
      assert Wrap(4 * c) == 4 * (c - TWO63);
    }
  }

  lemma SupervisorEntered(h: Hart, c: Cause, t: Hart)
    requires h.mode != Machine && t == EnterSupervisor(h, c)
    ensures InSupervisor(h, c, t)
  {
    VectorIsTarget(h.csrs[0x105], c);
  }

  lemma MachineEntered(h: Hart, c: Cause, t: Hart)
    requires t == EnterMachine(h, c)
    ensures InMachine(h, c, t)
  {
    VectorIsTarget(h.csrs[0x305], c);
  }

  /** Every trap, exceptions and interrupts alike: the level by the medeleg bit of the cause, and the
      whole state after it. */
  lemma TrapEntered(h: Hart, c: Cause)
    ensures Entered(h, c, HandleTrap(h, c))
  {
    DelegatedIsBit(h, c);
    if Delegated(h, c) {
      SupervisorEntered(h, c, HandleTrap(h, c));
    } else {
      MachineEntered(h, c, HandleTrap(h, c));
    }
  }

  lemma SameCsrs(s: CsrFile, t: CsrFile)
    requires forall i :: 0 <= i < 4096 ==> s[i] == t[i]
    ensures s == t
  {
  }

  lemma OneSupervisorEntry(h: Hart, c: Cause, t: Hart, u: Hart)
    requires InSupervisor(h, c, t) && InSupervisor(h, c, u)
    ensures t == u
  {
    SameBits(t.csrs[0x100], u.csrs[0x100]);
    SameCsrs(t.csrs, u.csrs);
  }

  lemma OneMachineEntry(h: Hart, c: Cause, t: Hart, u: Hart)
    requires InMachine(h, c, t) && InMachine(h, c, u)
    ensures t == u
  {
    SameBits(t.csrs[0x300], u.csrs[0x300]);
    SameCsrs(t.csrs, u.csrs);
  }

  /** Entered determines the state. */
  lemma OneEntry(h: Hart, c: Cause, t: Hart, u: Hart)
    requires Entered(h, c, t) && Entered(h, c, u)
    ensures t == u
  {
    if ToSupervisor(h, c % TWO63) { OneSupervisorEntry(h, c, t, u); } else { OneMachineEntry(h, c, t, u); }
  }

  // ---------------------------------------------------------------- return

  /** t is h after SRET: pc from sepc, mode from SPP, SIE from SPIE. */
  ghost predicate SretDone(h: Hart, t: Hart) {
    && t.pc == h.csrs[0x141] && t.mode == (if Bit(h.csrs[0x100], 8) then Supervisor else User)
    && (forall j: nat ::
          Bit(t.csrs[0x100], j) == if j == 1 then Bit(h.csrs[0x100], 5) else if j == 5 then true
                                   else if j == 8 then false else Bit(h.csrs[0x100], j))
    && (forall i :: 0 <= i < 4096 && i != 0x100 ==> t.csrs[i] == h.csrs[i])
    && t.regs == h.regs && t.bus == h.bus
  }

  /** t is h after MRET: pc from mepc, MIE from MPIE, and the mode from MPP, where the source takes 1 for
      supervisor mode, 2 for machine mode and 0 and 3 for user mode. */
  ghost predicate MretDone(h: Hart, t: Hart) {
    var mpp := h.csrs[0x300] / 0x800 % 4;
    && t.pc == h.csrs[0x341] && t.mode == (if mpp == 1 then Supervisor else if mpp == 2 then Machine else User)
    && (forall j: nat ::
          Bit(t.csrs[0x300], j) == if j == 3 then Bit(h.csrs[0x300], 7) else if j == 7 then true
                                   else if j == 11 || j == 12 then false else Bit(h.csrs[0x300], j))
    && (forall i :: 0 <= i < 4096 && i != 0x300 ==> t.csrs[i] == h.csrs[i])
    && t.regs == h.regs && t.bus == h.bus
  }

  lemma TwoBits(x: nat)
    ensures x % 4 == BitValue(x % 2 == 1) + 2 * BitValue(x / 2 % 2 == 1)
  {
    var y := x / 2;
    DivModUnique(x, 4, y / 2, x % 2 + 2 * (y % 2));
  }

  lemma MppBits(m: u64)
    ensures m / 0x800 % 4 == BitValue(Bit(m, 11)) + 2 * BitValue(Bit(m, 12))
  {
    assert Pow2(11) == 0x800 && Pow2(12) == 0x1000 by {
      Pow2Values();
      Pow2Add(3, 8);
      Pow2Add(4, 8);
    }
    BitIsShift(m, 11);
    BitIsShift(m, 12);
    TwoBits(m / 0x800);
    assert m / 0x1000 == m / 0x800 / 2;
  }

  lemma SretReturns(h: Hart)
    ensures SretDone(h, Sret(h))
  {
  }

  lemma MretReturns(h: Hart)
    ensures MretDone(h, Mret(h))
  {
    MppBits(h.csrs[0x300]);
  }

  lemma OneSret(h: Hart, t: Hart, u: Hart)
    requires SretDone(h, t) && SretDone(h, u)
    ensures t == u
  {
    SameBits(t.csrs[0x100], u.csrs[0x100]);
    SameCsrs(t.csrs, u.csrs);
  }

  lemma OneMret(h: Hart, t: Hart, u: Hart)
    requires MretDone(h, t) && MretDone(h, u)
    ensures t == u
  {
    SameBits(t.csrs[0x300], u.csrs[0x300]);
    SameCsrs(t.csrs, u.csrs);
  }

  // ---------------------------------------------------------------- interrupts

  /** Interrupts are enabled: always in user mode, by bit 1 of sstatus (0x100) in supervisor mode, by
      bit 3 of mstatus (0x300) in machine mode. */
  predicate MayInterrupt(h: Hart) {
    match h.mode
    case User => true
    case Supervisor => h.csrs[0x100] / 2 % 2 == 1
    case Machine => h.csrs[0x300] / 8 % 2 == 1
  }

  lemma EnabledIsBit(h: Hart)
    ensures InterruptsEnabled(h) == MayInterrupt(h)
  {
    assert Pow2(1) == 2 && Pow2(3) == 8;
    BitIsShift(h.csrs[0x100], 1);
    BitIsShift(h.csrs[0x300], 3);
  }

  /** The six interrupts that are set in mie (0x304) and mip (0x344). */
  function Active(h: Hart): u64 {
    And(And(h.csrs[0x304], h.csrs[0x344]), 0xAAA)
  }

  lemma InterruptMask(i: nat)
    ensures Bit(0xAAA, i) == (i in INTERRUPTS)
  {
    if i < 12 {
      assert Bit(0xAAA, 0) == false && Bit(0xAAA, 1) && !Bit(0xAAA, 2) && Bit(0xAAA, 3);
      assert !Bit(0xAAA, 4) && Bit(0xAAA, 5) && !Bit(0xAAA, 6) && Bit(0xAAA, 7);
      assert !Bit(0xAAA, 8) && Bit(0xAAA, 9) && !Bit(0xAAA, 10) && Bit(0xAAA, 11);
    } else {
      assert 0xAAA < Pow2(12);
      BitAboveBound(0xAAA, 12, i);
    }
  }

  lemma ActiveBit(h: Hart, i: nat)
    ensures Bit(Active(h), i) == (i in INTERRUPTS && Pending(h, i))
  {
    InterruptMask(i);
  }

  /** i is the lowest bit of x. */
  ghost predicate LowestBit(x: nat, i: nat) {
    Bit(x, i) && forall j: nat :: j < i ==> !Bit(x, j)
  }

  ghost predicate DeliveredWith(h: Hart, i: nat, mip: u64, t: Hart)
    requires i < 16
  {
    && (forall j: nat :: Bit(mip, j) == (Bit(h.csrs[0x344], j) && j != i))
    && Entered(h.(csrs := h.csrs[0x344 := mip]), TWO63 + i, t)
  }

  /** t is h after the interrupt i: its mip bit is cleared, and the trap is entered. */
  ghost predicate Delivered(h: Hart, i: nat, t: Hart)
    requires i < 16
  {
    exists m: u64 :: DeliveredWith(h, i, m, t)
  }

  /** t is h after the interrupt check: the lowest active interrupt is delivered if interrupts are
      enabled and there is one; otherwise nothing happens. */
  ghost predicate Checked(h: Hart, t: Hart) {
    if MayInterrupt(h) && Active(h) != 0
    then exists i: nat :: i < 12 && LowestBit(Active(h), i) && Delivered(h, i, t)
    else t == h
  }

  lemma {:induction false} FirstIsLowest(h: Hart, order: seq<nat>, i: nat)
    requires forall a, b :: 0 <= a < b < |order| ==> order[a] < order[b]
    requires FirstPending(h, order) == Some(i)
    ensures i in order && Pending(h, i) && forall j :: j in order && j < i ==> !Pending(h, j)
  {
    if !Pending(h, order[0]) {
      FirstIsLowest(h, order[1..], i);
      assert order == [order[0]] + order[1..];
    }
  }

  lemma NoActive(h: Hart)
    ensures Active(h) == 0 <==> FirstPending(h, INTERRUPTS) == None
  {
    FirstPendingIsListed(h, INTERRUPTS);
    forall i: nat
      ensures Bit(Active(h), i) == (i in INTERRUPTS && Pending(h, i))
    {
      ActiveBit(h, i);
    }
    forall i: nat
      ensures !Bit(0, i)
    {
      BitAboveBound(0, 0, i);
    }
    if FirstPending(h, INTERRUPTS) == None {
      SameBits(Active(h), 0);
    } else {
      assert Bit(Active(h), FirstPending(h, INTERRUPTS).value);
    }
  }

  lemma LowestActive(h: Hart, i: nat)
    requires FirstPending(h, INTERRUPTS) == Some(i)
    ensures i < 12 && LowestBit(Active(h), i)
  {
    FirstIsLowest(h, INTERRUPTS, i);
    forall j: nat
      ensures Bit(Active(h), j) == (j in INTERRUPTS && Pending(h, j))
    {
      ActiveBit(h, j);
    }
  }

  lemma TakenIsDelivered(h: Hart, i: nat)
    requires i < 16
    ensures Delivered(h, i, TakeInterrupt(h, i))
  {
    var m := Put(h.csrs[0x344], i, false);
    TrapEntered(h.(csrs := h.csrs[0x344 := m]), TWO63 + i);
    assert DeliveredWith(h, i, m, TakeInterrupt(h, i));
  }

  /** The interrupt check, for every state. */
  lemma InterruptsChecked(h: Hart)
    ensures Checked(h, HandleInterrupts(h))
  {
    EnabledIsBit(h);
    NoActive(h);
    if MayInterrupt(h) && Active(h) != 0 {
      var i := FirstPending(h, INTERRUPTS).value;
      LowestActive(h, i);
      TakenIsDelivered(h, i);
    }
  }

  lemma OneDelivery(h: Hart, i: nat, t: Hart, u: Hart)
    requires i < 16 && Delivered(h, i, t) && Delivered(h, i, u)
    ensures t == u
  {
    var m: u64 :| DeliveredWith(h, i, m, t);
    var n: u64 :| DeliveredWith(h, i, n, u);
    SameBits(m, n);
    OneEntry(h.(csrs := h.csrs[0x344 := m]), TWO63 + i, t, u);
  }

  /** Checked determines the state. */
  lemma OneCheck(h: Hart, t: Hart, u: Hart)
    requires Checked(h, t) && Checked(h, u)
    ensures t == u
  {
    if MayInterrupt(h) && Active(h) != 0 {
      var i: nat :| i < 12 && LowestBit(Active(h), i) && Delivered(h, i, t);
      var j: nat :| j < 12 && LowestBit(Active(h), j) && Delivered(h, j, u);
      assert i == j;
      OneDelivery(h, i, t, u);
    }
  }
}

/** Draining the pending interrupts: HandleInterrupts, then the return instruction of the level it
    entered, again and again. */
module Drain {
  import opened Words
  import opened Decode
  import opened Division
  import opened Traps
  import opened HartModel
  import opened TrapEntry
  import opened TrapProperties

  /** One round. */
  function Round(h: Hart): Hart {
    var t := HandleInterrupts(h);
    if t.mode == Supervisor then Sret(t) else Mret(t)
  }

  function Rounds(h: Hart, n: nat): Hart
    decreases n
  {
    if n == 0 then h else Rounds(Round(h), n - 1)
  }

  /** The members of a list of bit indices that are pending and enabled, in order. */
  function PendingOf(order: seq<nat>, h: Hart): seq<nat> {
    if order == [] then []
    else (if Pending(h, order[0]) then [order[0]] else []) + PendingOf(order[1..], h)
  }

  function PendingList(h: Hart): seq<nat> {
    PendingOf(INTERRUPTS, h)
  }

  lemma {:induction false} FirstIsHead(order: seq<nat>, h: Hart)
    ensures FirstPending(h, order) == if PendingOf(order, h) == [] then None else Some(PendingOf(order, h)[0])
  {
    if order != [] {
      FirstIsHead(order[1..], h);
    }
  }

  predicate Ascending(s: seq<nat>) {
    forall i, j :: 0 <= i < j < |s| ==> s[i] < s[j]
  }

  lemma {:induction false} PendingIsListed(order: seq<nat>, h: Hart)
    ensures forall i :: i in PendingOf(order, h) <==> i in order && Pending(h, i)
  {
    if order != [] {
      PendingIsListed(order[1..], h);
      assert order == [order[0]] + order[1..];
    }
  }

  lemma {:induction false} PendingIsAscending(order: seq<nat>, h: Hart)
    requires Ascending(order)
    ensures Ascending(PendingOf(order, h))
  {
    if order != [] {
      PendingIsAscending(order[1..], h);
      PendingIsListed(order[1..], h);
      var p := PendingOf(order[1..], h);
      forall j | 0 <= j < |p|
        ensures order[0] < p[j]
      {
        assert p[j] in p && p[j] in order[1..];
      }
    }
  }

  /** If only the pending bit b changes, to clear, the list loses b and keeps the rest in order. */
  lemma {:induction false} ClearingRemoves(order: seq<nat>, h: Hart, t: Hart, b: nat)
    requires Ascending(order)
    requires forall i: nat :: Pending(t, i) == (Pending(h, i) && i != b)
    requires PendingOf(order, h) != [] && PendingOf(order, h)[0] == b
    ensures PendingOf(order, t) == PendingOf(order, h)[1..]
  {
    assert forall i :: i in order[1..] ==> order[0] < i;
    if Pending(h, order[0]) {
      SamePending(order[1..], h, t, b);
    } else {
      ClearingRemoves(order[1..], h, t, b);
    }
  }

  lemma {:induction false} SamePending(order: seq<nat>, h: Hart, t: Hart, b: nat)
    requires forall i: nat :: Pending(t, i) == (Pending(h, i) && i != b)
    requires b !in order
    ensures PendingOf(order, t) == PendingOf(order, h)
  {
    if order != [] {
      SamePending(order[1..], h, t, b);
    }
  }

  // ---------------------------------------------------------------- one round

  /** A taken interrupt clears its own mip bit and nothing else of mip and mie. */
  lemma RoundClearsOneBit(h: Hart, i: nat)
    requires NextInterrupt(h) == Some(i)
    ensures Round(h).csrs[MIP] == Put(h.csrs[MIP], i, false) && Round(h).csrs[MIE] == h.csrs[MIE]
    ensures Round(h).csrs[MEDELEG] == h.csrs[MEDELEG] && Round(h).regs == h.regs && Round(h).bus == h.bus
  {
  }

  lemma RoundPending(h: Hart, i: nat)
    requires NextInterrupt(h) == Some(i)
    ensures forall j: nat :: Pending(Round(h), j) == (Pending(h, j) && j != i)
  {
    RoundClearsOneBit(h, i);
  }

  /** The state after HandleInterrupts is a trap with the cause of that interrupt. */
  lemma DeliveredCause(h: Hart, i: nat)
    requires NextInterrupt(h) == Some(i)
    ensures var t := HandleInterrupts(h);
            t.csrs[if t.mode == Supervisor then SCAUSE else MCAUSE] == TWO63 + i && t.mode != User
  {
  }

  lemma DelegatedRound(h: Hart, i: nat, h1: Hart)
    requires i < 16 && ToSupervisor(h1, i) && h1 == WithCsr(h, MIP, Put(h.csrs[MIP], i, false))
    ensures var r := Sret(HandleTrap(h1, InterruptCause(i)));
            && r.pc == EvenFloor(Wrap(h.pc - 4)) && r.mode == h.mode
            && Bit(r.csrs[SSTATUS], SIE) == Bit(h.csrs[SSTATUS], SIE)
  {
    var t := HandleTrap(h1, InterruptCause(i));
    ReturnFromContext(h1, InterruptCause(i), t, t);
  }

  lemma RoundMode(h: Hart, i: nat, h1: Hart)
    requires NextInterrupt(h) == Some(i) && h1 == WithCsr(h, MIP, Put(h.csrs[MIP], i, false))
    ensures var t := HandleTrap(h1, InterruptCause(i));
            Round(h) == if ToSupervisor(h1, i) then Sret(t) else Mret(t)
  {
    DelegatedInterrupt(h1, i);
    TrapLevels(h1, InterruptCause(i));
  }

  lemma TrapLevels(h: Hart, c: Cause)
    ensures HandleTrap(h, c).mode == if Delegated(h, c) then Supervisor else Machine
  {
  }

  lemma SameDelegation(h: Hart, h1: Hart, i: nat)
    requires h1.mode == h.mode && h1.csrs[0x302] == h.csrs[0x302]
    ensures ToSupervisor(h1, i) == ToSupervisor(h, i)
  {
  }

  lemma UndelegatedRound(h: Hart, i: nat, h1: Hart)
    requires i < 16 && !ToSupervisor(h1, i) && h1 == WithCsr(h, MIP, Put(h.csrs[MIP], i, false))
    ensures var r := Mret(HandleTrap(h1, InterruptCause(i))); r.pc == EvenFloor(Wrap(h.pc - 4)) && r.mode == User
  {
    MachineTrapReturn(h1, InterruptCause(i));
  }

  lemma StillEnabled(h: Hart, r: Hart)
    requires InterruptsEnabled(h)
    requires || r.mode == User
             || (r.mode == h.mode == Supervisor && Bit(r.csrs[SSTATUS], SIE) == Bit(h.csrs[SSTATUS], SIE))
    ensures MayInterrupt(r)
  {
    EnabledIsBit(r);
  }

  /** From an enabled state the round returns to an enabled state: a delegated interrupt comes back
      to the interrupted mode with its enable restored, any other comes back to user mode. The pc is
      4 below where it was, because the saved epc is always the pc minus 4. */
  lemma RoundReturns(h: Hart, i: nat)
    requires NextInterrupt(h) == Some(i)
    ensures MayInterrupt(Round(h)) && Round(h).pc == EvenFloor(Wrap(h.pc - 4))
    ensures Round(h).mode == if ToSupervisor(h, i) then h.mode else User
  {
    var h1 := WithCsr(h, MIP, Put(h.csrs[MIP], i, false));
    RoundMode(h, i, h1);
    SameDelegation(h, h1, i);
    if ToSupervisor(h1, i) {
      DelegatedRound(h, i, h1);
    } else {
      UndelegatedRound(h, i, h1);
    }
    StillEnabled(h, Round(h));
  }

  /** So an interrupt and its return never resume at the interrupted instruction: with an even pc they
      re-run the instruction before it. */
  lemma InterruptResumesEarly(h: Hart, i: nat)
    requires NextInterrupt(h) == Some(i)
    ensures Round(h).pc != h.pc
    ensures Round(h).pc == Wrap(h.pc - 4) <==> h.pc % 2 == 0
  {
    RoundReturns(h, i);
    EvenBack(h.pc);
  }

  lemma EvenBack(pc: u64)
    ensures EvenFloor(Wrap(pc - 4)) != pc
    ensures EvenFloor(Wrap(pc - 4)) == Wrap(pc - 4) <==> pc % 2 == 0
  {
  }

  // ---------------------------------------------------------------- the whole drain

  lemma EvenFloorThenBack(u: u64, m: nat)
    ensures EvenFloor(Wrap(EvenFloor(u) - 4 * m)) == EvenFloor(Wrap(u - 4 * m))
  {
    var x := u - 4 * m;
    var w, q := Wrap(x), x / TWO64;
    assert x == w + TWO64 * q && w % 2 == u % 2;
    WrapShift(w - u % 2, q);
  }

  /** Going back 4 bytes and then 4 * m more. */
  lemma BackAgain(pc: u64, m: nat)
    ensures EvenFloor(Wrap(EvenFloor(Wrap(pc - 4)) - 4 * m)) == EvenFloor(Wrap(pc - 4 * (m + 1)))
  {
    var u := Wrap(pc - 4);
    EvenFloorThenBack(u, m);
    WrapShift(u - 4 * m, (pc - 4) / TWO64);
  }

  lemma PendingBelow12(h: Hart)
    ensures forall i :: i in PendingList(h) <==> i in INTERRUPTS && Pending(h, i)
    ensures forall i :: i in PendingList(h) ==> i < 12
    ensures Ascending(PendingList(h))
  {
    PendingIsListed(INTERRUPTS, h);
    PendingIsAscending(INTERRUPTS, h);
  }

  lemma HeadIsNext(h: Hart)
    requires MayInterrupt(h)
    ensures NextInterrupt(h) == if PendingList(h) == [] then None else Some(PendingList(h)[0])
  {
    EnabledIsBit(h);
    FirstIsHead(INTERRUPTS, h);
  }

  lemma OneRound(h: Hart)
    requires MayInterrupt(h) && PendingList(h) != []
    ensures MayInterrupt(Round(h)) && PendingList(Round(h)) == PendingList(h)[1..]
  {
    HeadIsNext(h);
    var i := PendingList(h)[0];
    RoundReturns(h, i);
    RoundPending(h, i);
    PendingBelow12(h);
    ClearingRemoves(INTERRUPTS, h, Round(h), i);
  }

  lemma RoundMip(h: Hart, i: nat)
    requires NextInterrupt(h) == Some(i)
    ensures forall j: nat :: Bit(Round(h).csrs[MIP], j) == (Bit(h.csrs[MIP], j) && j != i)
  {
    RoundClearsOneBit(h, i);
  }

  /** t is h after draining the first k of its pending interrupts. */
  ghost predicate Drained(h: Hart, bits: seq<nat>, k: nat, t: Hart)
    requires k <= |bits|
  {
    && MayInterrupt(t) && PendingList(t) == bits[k..]
    && (forall j: nat :: Bit(t.csrs[MIP], j) == (Bit(h.csrs[MIP], j) && j !in bits[..k]))
    && t.csrs[MIE] == h.csrs[MIE] && t.regs == h.regs && t.bus == h.bus
    && t.pc == (if k == 0 then h.pc else EvenFloor(Wrap(h.pc - 4 * k)))
  }

  lemma DrainOneMore(h: Hart, r: Hart, bits: seq<nat>, k: nat, t: Hart)
    requires 0 < k <= |bits| && NextInterrupt(h) == Some(bits[0]) && r == Round(h)
    requires Drained(r, bits[1..], k - 1, t)
    ensures Drained(h, bits, k, t)
  {
    RoundClearsOneBit(h, bits[0]);
    RoundMip(h, bits[0]);
    RoundReturns(h, bits[0]);
    DrainedOneMore(h, r, bits, k, t);
  }

  lemma DrainedOneMore(h: Hart, r: Hart, bits: seq<nat>, k: nat, t: Hart)
    requires 0 < k <= |bits| && Drained(r, bits[1..], k - 1, t)
    requires r.csrs[MIE] == h.csrs[MIE] && r.regs == h.regs && r.bus == h.bus
    requires r.pc == EvenFloor(Wrap(h.pc - 4))
    requires forall j: nat :: Bit(r.csrs[MIP], j) == (Bit(h.csrs[MIP], j) && j != bits[0])
    ensures Drained(h, bits, k, t)
  {
    BackAgain(h.pc, k - 1);
    assert bits[..k] == [bits[0]] + bits[1..][..k - 1];
    assert bits[1..][k - 1..] == bits[k..];
  }

  /** Draining from any enabled state, with bits the list of the pending and enabled interrupts:
      after k rounds the hart is enabled again, exactly the first k of the bits have been cleared in
      mip and nothing else, the rest is still pending in the same order, and the pc has gone back by
      4 * k. */
  lemma {:induction false} DrainInOrder(h: Hart, k: nat)
    requires MayInterrupt(h) && k <= |PendingList(h)|
    ensures Drained(h, PendingList(h), k, Rounds(h, k))
    decreases k
  {
    if k > 0 {
      HeadIsNext(h);
      OneRound(h);
      DrainInOrder(Round(h), k - 1);
      DrainOneMore(h, Round(h), PendingList(h), k, Rounds(h, k));
    }
  }

  /** The list is ascending and has exactly the six interrupts that are set in both mie and mip; the
      round k delivers its element k with cause 2^63 + bits[k]; and after |bits| rounds, no earlier,
      HandleInterrupts has nothing left to do. */
  lemma DrainDelivers(h: Hart, k: nat)
    requires MayInterrupt(h) && k <= |PendingList(h)|
    ensures var bits := PendingList(h); var t := Rounds(h, k);
            && Ascending(bits) && (forall i :: i in bits <==> i in INTERRUPTS && Pending(h, i))
            && (k < |bits| ==> NextInterrupt(t) == Some(bits[k]) &&
                               var d := HandleInterrupts(t);
                               d.csrs[if d.mode == Supervisor then SCAUSE else MCAUSE] == TWO63 + bits[k])
            && (k == |bits| ==> HandleInterrupts(t) == t)
  {
    var bits, t := PendingList(h), Rounds(h, k);
    PendingBelow12(h);
    DrainInOrder(h, k);
    HeadIsNext(t);
    if k < |bits| {
      DeliveredCause(t, bits[k]);
    }
  }

  // ---------------------------------------------------------------- the number of rounds

  function SumBits(x: nat, n: nat): nat {
    if n == 0 then 0 else SumBits(x, n - 1) + BitValue(Bit(x, n - 1))
  }

  lemma {:induction false} SumBitsShift(x: nat, n: nat)
    requires n > 0
    ensures SumBits(x, n) == x % 2 + SumBits(x / 2, n - 1)
  {
    if n > 1 {
      SumBitsShift(x, n - 1);
    }
  }

  lemma {:induction false} PopCountIsSum(x: nat, n: nat)
    requires x < Pow2(n)
    ensures PopCount(x) == SumBits(x, n)
    decreases n
  {
    if n > 0 {
      PopCountIsSum(x / 2, n - 1);
      SumBitsShift(x, n);
    }
  }

  lemma PendingLength(h: Hart)
    ensures |PendingList(h)| == BitValue(Pending(h, 1)) + BitValue(Pending(h, 3)) + BitValue(Pending(h, 5))
                              + BitValue(Pending(h, 7)) + BitValue(Pending(h, 9)) + BitValue(Pending(h, 11))
  {
    assert |PendingOf([11], h)| == BitValue(Pending(h, 11));
    assert |PendingOf([9, 11], h)| == BitValue(Pending(h, 9)) + |PendingOf([11], h)|;
    assert |PendingOf([7, 9, 11], h)| == BitValue(Pending(h, 7)) + |PendingOf([9, 11], h)|;
    assert |PendingOf([5, 7, 9, 11], h)| == BitValue(Pending(h, 5)) + |PendingOf([7, 9, 11], h)|;
    assert |PendingOf([3, 5, 7, 9, 11], h)| == BitValue(Pending(h, 3)) + |PendingOf([5, 7, 9, 11], h)|;
  }

  lemma SumOfInterruptBits(x: nat)
    requires forall i: nat :: i < 12 && i !in INTERRUPTS ==> !Bit(x, i)
    ensures SumBits(x, 12) == BitValue(Bit(x, 1)) + BitValue(Bit(x, 3)) + BitValue(Bit(x, 5))
                            + BitValue(Bit(x, 7)) + BitValue(Bit(x, 9)) + BitValue(Bit(x, 11))
  {
    assert !Bit(x, 0) && !Bit(x, 2) && !Bit(x, 4) && !Bit(x, 6) && !Bit(x, 8) && !Bit(x, 10);
    assert SumBits(x, 1) == 0 && SumBits(x, 2) == BitValue(Bit(x, 1));
    assert SumBits(x, 4) == SumBits(x, 2) + BitValue(Bit(x, 3));
    assert SumBits(x, 6) == SumBits(x, 4) + BitValue(Bit(x, 5));
    assert SumBits(x, 8) == SumBits(x, 6) + BitValue(Bit(x, 7));
    assert SumBits(x, 10) == SumBits(x, 8) + BitValue(Bit(x, 9));
    assert SumBits(x, 12) == SumBits(x, 10) + BitValue(Bit(x, 11));
  }

  lemma MaskedPopCount(x: nat)
    requires x < Pow2(12) && forall i: nat :: i < 12 && i !in INTERRUPTS ==> !Bit(x, i)
    ensures PopCount(x) == BitValue(Bit(x, 1)) + BitValue(Bit(x, 3)) + BitValue(Bit(x, 5))
                         + BitValue(Bit(x, 7)) + BitValue(Bit(x, 9)) + BitValue(Bit(x, 11))
  {
    PopCountIsSum(x, 12);
    SumOfInterruptBits(x);
  }

  lemma MaskedBelow(x: u64)
    ensures And(x, 0xAAA) < Pow2(12)
  {
    Pow2Add(4, 8);
    Pow2Values();
    AndBelow(x, 0xAAA, 12);
  }

  /** The number of rounds is the population count of mie & mip & 0xAAA. */
  lemma DrainLength(h: Hart)
    ensures |PendingList(h)| == PopCount(And(And(h.csrs[MIE], h.csrs[MIP]), 0xAAA))
  {
    forall i: nat | i < 12
      ensures Bit(Active(h), i) == (Pending(h, i) && i in INTERRUPTS)
    {
      ActiveBit(h, i);
    }
    MaskedBelow(And(h.csrs[MIE], h.csrs[MIP]));
    MaskedPopCount(Active(h));
    PendingLength(h);
  }
}

/** The `CPU` class (include/cpu.h, source/cpu.cpp): registers, CSRs, pc and mode updated in place.
    Each method is proved to take State() where the function of HartModel.dfy takes it. */
module Cpu {
  import opened Words
  import opened Isa
  import opened Decode
  import opened Traps
  import opened Mmu
  import opened HartModel

  datatype Fetched = FetchedWord(w: u32) | FetchFault(cause: Cause) | FetchLost

  class CPU {
    var pc: u64
    var priv_mode: Mode
    const regs: array<u64>
    const csrs: array<u64>
    const mmu: MMU

    ghost predicate Valid()
      reads this, mmu
    {
      && regs.Length == 32 && csrs.Length == 4096 && mmu.Valid()
      && regs != csrs && regs as object != mmu.ram.mem && csrs as object != mmu.ram.mem
    }

    ghost function State(): Hart
      requires Valid()
      reads this, regs, csrs, mmu, mmu.ram, mmu.ram.mem
    {
      Hart(pc, priv_mode, regs[..], csrs[..], mmu.State())
    }

    constructor (entry_point: u64, size: nat, image: seq<byte>, garbage: u64)
      requires |image| <= size
      ensures Valid()
      ensures State() == Initial(entry_point, garbage, image + seq(size - |image|, k => 0))
    {
      pc, priv_mode := entry_point, Machine;
      regs := new u64[32](i => 0);
      csrs := new u64[4096](i => 0);
      mmu := new MMU(size, image, garbage);
      new;
      assert regs[..] == seq(32, i => 0) && csrs[..] == seq(4096, i => 0);
    }

    // -------------------------------------------------------------- setters

    method SetReg(reg: nat, val: u64)
      requires Valid() && reg < 32
      modifies regs
      ensures Valid() && State() == WithReg(Lazy, old(State()), reg, val)
    {
      regs[reg] := val;
    }

    method UpdatePaging(satp: u64)
      requires Valid()
      modifies mmu
      ensures Valid() && mmu.ram.mem[..] == old(mmu.ram.mem[..])
      ensures mmu.State() == UpdatePagingMode(old(mmu.State()), satp)
    {
      mmu.SetPagingMode(if satp / TWO63 == 1 then Sv39 else Bare);
      mmu.SetRootPageTable(satp % 0x1000_0000_0000);
    }

    method SetCsr(csr: nat, val: u64)
      requires Valid() && csr < 4096
      modifies csrs, mmu
      ensures Valid() && State() == WithCsr(old(State()), csr, val)
    {
      csrs[csr] := val;
      if csr == SATP {
        UpdatePaging(val);
      }
      assert csrs[..] == old(csrs[..])[csr := val];
    }

    // -------------------------------------------------------------- traps and returns

    method HandleTrap(cause: Cause)
      requires Valid()
      modifies this, csrs
      ensures Valid() && State() == HartModel.HandleTrap(old(State()), cause)
    {
      var trap_pc := Wrap(pc - 4);
      var trap_priv_mode := priv_mode;
      if trap_priv_mode != Machine && Bit(csrs[MEDELEG], CauseIndex(cause)) {
        priv_mode := Supervisor;
        pc := TrapTarget(csrs[STVEC], cause);
        csrs[SEPC] := EvenFloor(trap_pc);
        csrs[SCAUSE] := cause;
        csrs[STVAL] := 0;
        csrs[SSTATUS] := Put(csrs[SSTATUS], SPIE, Bit(csrs[SSTATUS], SIE));
        csrs[SSTATUS] := Put(csrs[SSTATUS], SIE, false);
        if trap_priv_mode == User {
          csrs[SSTATUS] := Put(csrs[SSTATUS], SPP, false);
        } else {
          csrs[SSTATUS] := Put(csrs[SSTATUS], SPP, true);
        }
        assert csrs[..] == HartModel.HandleTrap(old(State()), cause).csrs;
      } else {
        priv_mode := Machine;
        pc := TrapTarget(csrs[MTVEC], cause);
        csrs[MEPC] := EvenFloor(trap_pc);
        csrs[MCAUSE] := cause;
        csrs[MTVAL] := 0;
        csrs[MSTATUS] := Put(csrs[MSTATUS], M_PIE, Bit(csrs[MSTATUS], M_IE));
        csrs[MSTATUS] := Put(csrs[MSTATUS], M_IE, false);
        csrs[MSTATUS] := Put(Put(csrs[MSTATUS], 11, false), 12, false);
        assert csrs[..] == HartModel.HandleTrap(old(State()), cause).csrs;
      }
    }

    method HandleInterrupts()
      requires Valid()
      modifies this, csrs, mmu
      ensures Valid() && State() == HartModel.HandleInterrupts(old(State()))
    {
      if priv_mode == Machine && !Bit(csrs[MSTATUS], M_IE) {
        return;
      }
      if priv_mode == Supervisor && !Bit(csrs[SSTATUS], SIE) {
        return;
      }
      ghost var h := State();
      for k := 0 to |INTERRUPTS|
        invariant Valid() && State() == h
        invariant FirstPending(h, INTERRUPTS) == FirstPending(h, INTERRUPTS[k..])
      {
        var i := INTERRUPTS[k];
        assert INTERRUPTS[k..][1..] == INTERRUPTS[k + 1..];
        if Bit(csrs[MIE], i) && Bit(csrs[MIP], i) {
          SetCsr(MIP, Put(csrs[MIP], i, false));
          HandleTrap(InterruptCause(i));
          return;
        }
      }
    }

    method ReturnFromSupervisor()
      requires Valid()
      modifies this, csrs, mmu
      ensures Valid() && State() == Sret(old(State()))
    {
      pc := csrs[SEPC];
      priv_mode := if Bit(csrs[SSTATUS], SPP) then Supervisor else User;
      SetCsr(SSTATUS, Put(csrs[SSTATUS], SIE, Bit(csrs[SSTATUS], SPIE)));
      SetCsr(SSTATUS, Put(csrs[SSTATUS], SPIE, true));
      SetCsr(SSTATUS, Put(csrs[SSTATUS], SPP, false));
      assert csrs[..] == Sret(old(State())).csrs;
    }

    method ReturnFromMachine()
      requires Valid()
      modifies this, csrs, mmu
      ensures Valid() && State() == Mret(old(State()))
    {
      pc := csrs[MEPC];
      priv_mode := ModeOfMpp(csrs[MSTATUS]);
      SetCsr(MSTATUS, Put(csrs[MSTATUS], M_IE, Bit(csrs[MSTATUS], M_PIE)));
      SetCsr(MSTATUS, Put(csrs[MSTATUS], M_PIE, true));
      SetCsr(MSTATUS, Put(Put(csrs[MSTATUS], 11, false), 12, false));
      assert csrs[..] == Mret(old(State())).csrs;
    }

    // -------------------------------------------------------------- fetch and decode

    method Fetch() returns (r: Fetched)
      requires Valid()
      modifies `pc
      ensures match BusLoad(old(State()).bus, old(pc), 4)
              case Data(d) => r == FetchedWord(Low32(d)) && State() == Advance(old(State()))
              case Fault(c) => r == FetchFault(c) && State() == old(State())
              case NoValue => r == FetchLost
    {
      var inst := mmu.Load(pc, 4);
      match inst
      case Fault(c) => r := FetchFault(c);
      case NoValue => r := FetchLost;
      case Data(d) =>
        pc := Wrap(pc + 4);
        r := FetchedWord(Low32(d));
    }

    static method Decode(instruction: u32) returns (r: Option<Op>)
      ensures r == DecodeWord(instruction)
    {
      for k := 0 to |TABLE|
        invariant Scan(TABLE, instruction) == Scan(TABLE[k..], instruction)
      {
        assert TABLE[k..][1..] == TABLE[k + 1..];
        if And(instruction, MaskOf(TABLE[k])) == MatcherOf(TABLE[k]) {
          return Some(TABLE[k]);
        }
      }
      return None;
    }

    // -------------------------------------------------------------- execute

    /** The outcome and the new state are those of an Exec. */
    ghost predicate Ended(r: Outcome, e: Exec)
      reads this, regs, csrs, mmu, mmu.ram, mmu.ram.mem
    {
      match e
      case Done(h) => r == Normal && Valid() && State() == h
      case Throw(h, c) => r == Thrown(c) && Valid() && State() == h
      case Lost => r == Undefined
    }

    method WriteResult(rd: nat, v: Option<u64>) returns (r: Outcome)
      requires Valid() && rd < 32
      modifies regs
      ensures Ended(r, WriteBack(Lazy, old(State()), rd, v))
    {
      match v
      case None => r := Undefined;
      case Some(x) =>
        SetReg(rd, x);
        r := Normal;
    }

    method ExecuteSystemOp(op: SystemOp) returns (r: Outcome)
      requires Valid()
      modifies this, csrs, mmu
      ensures Ended(r, ExecuteSystem(op, old(State())))
    {
      r := Normal;
      match op
      case SRET => ReturnFromSupervisor();
      case MRET => ReturnFromMachine();
      case ECALL =>
        match priv_mode {
          case Machine => r := Thrown(ECALL_FROM_MACHINE);
          case Supervisor => r := Thrown(ECALL_FROM_SUPERVISOR);
          case User => r := Thrown(ECALL_FROM_USER);
        }
      case FENCE => return;
      case EBREAK => return;
    }

    method LoadInto(rd: nat, addr: u64, op: LoadOp) returns (r: Outcome)
      requires Valid() && rd < 32
      modifies regs
      ensures Ended(r, ExecuteLoad(Lazy, old(State()), rd, addr, op))
    {
      var data := mmu.Load(addr, LoadSize(op));
      match data
      case Fault(c) => r := Thrown(c);
      case NoValue => r := Undefined;
      case Data(d) =>
        SetReg(rd, LoadValue(op, d));
        r := Normal;
    }

    method StoreFrom(addr: u64, size: nat, d: u64) returns (r: Outcome)
      requires Valid()
      modifies mmu.ram.mem
      ensures Ended(r, ExecuteStore(old(State()), addr, size, d))
    {
      r := mmu.Store(addr, size, d);
    }

    method ExecuteCsrOp(op: CsrOp, f: Fields) returns (r: Outcome)
      requires Valid() && f.rd < 32 && f.rs1 < 32 && f.imm < 4096
      modifies csrs, mmu, regs
      ensures Ended(r, ExecuteCsr(Lazy, old(State()), op, f))
    {
      var csr := Low32(csrs[f.imm]);
      SetCsr(f.imm, CsrValue(op, csr, regs[f.rs1], f.rs1));
      SetReg(f.rd, csr);
      r := Normal;
    }

    method ExecuteAtomicOp(op: AtomicOp, width: Width, f: Fields) returns (r: Outcome)
      requires Valid() && f.rd < 32 && f.rs1 < 32 && f.rs2 < 32
      modifies regs, mmu.ram.mem
      ensures Ended(r, ExecuteAtomic(Lazy, old(State()), op, width, f))
    {
      var size := if width.Word? then 4 else 8;
      var data := regs[f.rs1];
      r := Normal;
      if op.LR? {
        var loaded := mmu.Load(f.rs1, size);
        match loaded
        case Fault(c) => r := Thrown(c);
        case NoValue => r := Undefined;
        case Data(d) => SetReg(f.rd, d);
      } else if op.SC? {
        r := StoreFrom(f.rs1, size, regs[f.rs2]);
        if r == Normal {
          SetReg(f.rd, 0);
        }
      } else if WritesRs1(op, width) {
        SetReg(f.rd, data);
        SetReg(f.rs1, AtomicValue(op, data, regs[f.rs2]));
      } else if Low32(data) < 32 {
        SetReg(Low32(data), AtomicValue(op, data, regs[f.rs2]));
        if op.AMOSWAP? {
          SetReg(f.rd, data);
        }
      } else {
        r := Undefined;
      }
    }

    method JumpAndLink(rd: nat, imm: u32) returns (r: Outcome)
      requires Valid() && rd < 32
      modifies `pc, regs
      ensures Ended(r, ExecuteJal(Lazy, old(State()), rd, imm))
    {
      SetReg(rd, pc);
      pc := Wrap(pc + SignExtend20(imm) - 4);
      r := Normal;
    }

    method JumpAndLinkRegister(rd: nat, rs1: nat, imm: u32) returns (r: Outcome)
      requires Valid() && rd < 32 && rs1 < 32
      modifies `pc, regs
      ensures Ended(r, ExecuteJalr(Lazy, old(State()), rd, rs1, imm))
    {
      SetReg(rd, pc);
      pc := EvenFloor(Wrap(regs[rs1] + SignExtend12(imm)));
      r := Normal;
    }

    method BranchIf(taken: bool, imm: u32) returns (r: Outcome)
      requires Valid()
      modifies `pc
      ensures Ended(r, ExecuteBranch(old(State()), taken, imm))
    {
      if taken {
        pc := Wrap(pc + SignExtend13(imm) - 4);
      }
      r := Normal;
    }

    method Execute(op: Op, instruction: u32) returns (r: Outcome)
      requires Valid()
      modifies this, regs, csrs, mmu, mmu.ram.mem
      ensures Ended(r, HartModel.Execute(Lazy, op, instruction, old(State())))
    {
      var f := Parse(FormatOf(op), instruction);
      var a, b := regs[f.rs1], regs[f.rs2];
      match op
      case System(o) => r := ExecuteSystemOp(o);
      case Upper(o) => r := WriteResult(f.rd, Some(UpperValue(o, f.imm, pc)));
      case JAL => r := JumpAndLink(f.rd, f.imm);
      case JALR => r := JumpAndLinkRegister(f.rd, f.rs1, f.imm);
      case Branch(o) => r := BranchIf(BranchTaken(o, a, b), f.imm);
      case Load(o) => r := LoadInto(f.rd, Wrap(a + f.imm), o);
      case Store(o) => r := StoreFrom(Wrap(a + f.imm), StoreSize(o), b);
      case Immediate(o) => r := WriteResult(f.rd, ImmediateValue(o, a, f.imm));
      case Register(o) => r := WriteResult(f.rd, RegisterValue(o, a, b));
      case Immediate32(o) => r := WriteResult(f.rd, Immediate32Value(o, a, f.imm));
      case Register32(o) => r := WriteResult(f.rd, Register32Value(o, a, b));
      case FENCE_I => r := Normal;
      case Csr(o) => r := ExecuteCsrOp(o, f);
      case Atomic(o, width) => r := ExecuteAtomicOp(o, width, f);
    }

    // -------------------------------------------------------------- step and run

    /** The outcome and the new state are those of a StepResult; Thrown(c) stands for the exception
        that leaves `Step`. */
    ghost predicate Stepped(r: Outcome, e: StepResult)
      reads this, regs, csrs, mmu, mmu.ram, mmu.ram.mem
    {
      match e
      case Retired(h) => r == Normal && Valid() && State() == h
      case Escaped(h, c) => r == Thrown(c) && Valid() && State() == h
      case Crashed => r == Undefined
    }

    /** The try block of `Step` around the executor, and the interrupt check after it. */
    method Settle(executed: Outcome, ghost e: Exec) returns (r: Outcome)
      requires Ended(executed, e) && (executed != Undefined ==> Valid())
      modifies this, csrs, mmu
      ensures Stepped(r, Finish(e))
    {
      match executed
      case Undefined => return Undefined;
      case Thrown(c) =>
        HandleTrap(c);
        HandleInterrupts();
        return Normal;
      case Normal =>
        HandleInterrupts();
        return Normal;
    }

    method ExecuteWord(instruction: u32) returns (r: Outcome)
      requires Valid()
      modifies this, regs, csrs, mmu, mmu.ram.mem
      ensures Stepped(r, Proceed(Lazy, instruction, old(State())))
    {
      var inst := Decode(instruction);
      match inst
      case None => return Thrown(ILLEGAL_INSTRUCTION);
      case Some(op) =>
        ghost var e := HartModel.Execute(Lazy, op, instruction, State());
        var executed := Execute(op, instruction);
        r := Settle(executed, e);
    }

    method Step() returns (r: Outcome)
      requires Valid()
      modifies this, regs, csrs, mmu, mmu.ram.mem
      ensures Stepped(r, HartModel.Step(Lazy, old(State())))
    {
      SetReg(0, 0);
      var fetched := Fetch();
      match fetched
      case FetchFault(c) => return Thrown(c);
      case FetchLost => return Undefined;
      case FetchedWord(instruction) => r := ExecuteWord(instruction);
    }

    /** The first n rounds of the endless loop of `Run`. */
    method RunRounds(n: nat) returns (alive: bool)
      requires Valid()
      modifies this, regs, csrs, mmu, mmu.ram.mem
      ensures match HartModel.Run(Lazy, old(State()), n)
              case Some(h) => alive && Valid() && State() == h
              case None => !alive
    {
      for k := 0 to n
        invariant Valid() && HartModel.Run(Lazy, old(State()), n) == HartModel.Run(Lazy, State(), n - k)
      {
        var r := Step();
        if r == Undefined {
          return false;
        }
      }
      return true;
    }
  }
}

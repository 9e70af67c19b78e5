/** Loads and stores from the address to the register or memory, by bytes and numbers: where an access
    goes, when it traps, and what it reads or writes. */
module Accesses {
  import opened Words
  import opened Isa
  import opened Parsing
  import opened Traps
  import opened Ram
  import opened Mmu
  import opened HartModel

  // ---------------------------------------------------------------- what an access does

  datatype Target = Memory | Uart | Stub | Nowhere

  /** The address map (include/config.h), with n bytes of RAM. */
  function TargetOf(n: nat, a: u64): Target {
    if 0x8000_0000 <= a < 0x8000_0000 + n then Memory
    else if 0x1000_0000 <= a < 0x1000_1000 then Uart
    else if 0x200_0000 <= a < 0x201_0000 || 0xc00_0000 <= a < 0x1000_0000 || 0x1000_1000 <= a < 0x1000_2000 then Stub
    else Nowhere
  }

  /** Byte k of the loaded register: from memory below the width, above it the sign or zero. */
  ghost predicate HoldsBytes(ram: seq<byte>, i: nat, n: nat, signed: bool, v: u64)
    requires 0 < n && i + n <= |ram|
  {
    forall k: nat :: k < 8 ==>
      ByteOf(v, k) == if k < n then ram[i + k] else if signed && ram[i + n - 1] >= 128 then 255 else 0
  }

  /** r is h with only rd replaced. */
  predicate OnlyRegister(h: Hart, r: Exec, rd: nat)
    requires rd < 32
  {
    r.Done? && r.hart == h.(regs := h.regs[rd := r.hart.regs[rd]])
  }

  /** A load of n bytes at addr into rd ends as r. */
  ghost predicate LoadEnds(h: Hart, addr: u64, n: nat, signed: bool, rd: nat, r: Exec)
    requires 0 < n && rd < 32
  {
    match h.bus.paging
    case Sv39 => r == Lost
    case Bare =>
      (match TargetOf(|h.bus.ram|, addr)
       case Memory =>
         if addr - 0x8000_0000 + n <= |h.bus.ram|
         then OnlyRegister(h, r, rd) && HoldsBytes(h.bus.ram, addr - 0x8000_0000, n, signed, r.hart.regs[rd])
         else r == Lost
       case Uart =>
         if n != 1 then r == Throw(h, 5)
         else if addr == 0x1000_0000 then r == Done(h.(regs := h.regs[rd := 0])) else r == Lost
       case Stub => r == Lost
       case Nowhere => r == Throw(h, 5))
    case _ => r == Throw(h, 12)
  }

  /** Memory after a store: n bytes from i on are those of d, all others stay. */
  ghost predicate HasStored(ram: seq<byte>, i: nat, n: nat, d: u64, after: seq<byte>) {
    && |after| == |ram|
    && forall j :: 0 <= j < |ram| ==> after[j] == if i <= j < i + n then ByteOf(d, j - i) else ram[j]
  }

  /** A store of the n low bytes of d at addr ends as r. */
  ghost predicate StoreEnds(h: Hart, addr: u64, n: nat, d: u64, r: Exec) {
    match h.bus.paging
    case Sv39 => r == Lost
    case Bare =>
      (match TargetOf(|h.bus.ram|, addr)
       case Memory =>
         if addr - 0x8000_0000 + n <= |h.bus.ram|
         then r.Done? && r.hart == h.(bus := h.bus.(ram := r.hart.bus.ram))
              && HasStored(h.bus.ram, addr - 0x8000_0000, n, d, r.hart.bus.ram)
         else r == Lost
       case Uart => r == if n != 1 then Throw(h, 7) else Done(h)
       case Stub => r == Done(h)
       case Nowhere => r == Throw(h, 7))
    case _ => r == Throw(h, 12)
  }

  /** Bytes read, and whether the rest of the register is filled with the sign. */
  function LoadWidth(o: LoadOp): (n: nat)
    ensures n == 1 || n == 2 || n == 4 || n == 8
  {
    match o
    case LB | LBU => 1
    case LH | LHU => 2
    case LW | LWU => 4
    case LD => 8
  }

  predicate SignFilled(o: LoadOp) {
    o == LB || o == LH || o == LW
  }

  function StoreWidth(o: StoreOp): (n: nat)
    ensures n == 1 || n == 2 || n == 4 || n == 8
  {
    match o
    case SB => 1
    case SH => 2
    case SW => 4
    case SD => 8
  }

  /** A load with the operands f: the offset is added unsigned. */
  ghost predicate LoadMeans(o: LoadOp, h: Hart, f: Fields, r: Exec)
    requires f.rd < 32 && f.rs1 < 32
  {
    LoadEnds(h, (h.regs[f.rs1] + f.imm) % TWO64, LoadWidth(o), SignFilled(o), f.rd, r)
  }

  ghost predicate StoreMeans(o: StoreOp, h: Hart, f: Fields, r: Exec)
    requires f.rs1 < 32 && f.rs2 < 32
  {
    StoreEnds(h, (h.regs[f.rs1] + f.imm) % TWO64, StoreWidth(o), h.regs[f.rs2], r)
  }

  // ---------------------------------------------------------------- bytes of an extended value

  lemma {:induction false} ByteOfParts(x: nat, y: nat, n: nat, k: nat)
    requires x < Pow256(n)
    ensures ByteOf(x + Pow256(n) * y, k) == if k < n then ByteOf(x, k) else ByteOf(y, k - n)
    decreases n
  {
    if n > 0 {
      var p := Pow256(n - 1);
      ByteProduct(p, y);
      assert (x + 256 * (p * y)) % 256 == x % 256 && (x + 256 * (p * y)) / 256 == x / 256 + p * y;
      if k > 0 { ByteOfParts(x / 256, y, n - 1, k - 1); }
    }
  }

  lemma {:induction false} ByteOfOnes(n: nat, k: nat)
    requires k < n
    ensures ByteOf(Pow256(n) - 1, k) == 255
    decreases n
  {
    assert (Pow256(n) - 1) % 256 == 255 && (Pow256(n) - 1) / 256 == Pow256(n - 1) - 1;
    if k > 0 { ByteOfOnes(n - 1, k - 1); }
  }

  lemma {:induction false} ByteOfZero(k: nat)
    ensures ByteOf(0, k) == 0
  {
    if k > 0 { ByteOfZero(k - 1); }
  }

  /** The fill above n bytes: all ones or zero. */
  lemma FilledBytes(x: nat, n: nat, negative: bool, k: nat)
    requires n <= 8 && x < Pow256(n) && k < 8
    ensures ByteOf(x + Pow256(n) * (if negative then Pow256(8 - n) - 1 else 0), k)
         == if k < n then ByteOf(x, k) else if negative then 255 else 0
  {
    ByteOfParts(x, if negative then Pow256(8 - n) - 1 else 0, n, k);
    if k >= n {
      if negative { ByteOfOnes(8 - n, k - n); } else { ByteOfZero(k - n); }
    }
  }

  lemma OnesAbove()
    ensures Pow256(1) * (Pow256(7) - 1) == TWO64 - 0x100
    ensures Pow256(2) * (Pow256(6) - 1) == TWO64 - 0x1_0000
    ensures Pow256(4) * (Pow256(4) - 1) == TWO64 - 0x1_0000_0000
    ensures Pow256(8) * (Pow256(0) - 1) == 0
  {
    Pow256Values();
    assert Pow256(3) == 0x100_0000 && Pow256(6) == 0x1_0000_0000_0000;
    assert Pow256(7) == 0x100_0000_0000_0000;
  }

  lemma SignedFill(d: nat, n: nat, m: nat)
    requires (n == 1 && m == 0x100) || (n == 2 && m == 0x1_0000) || (n == 4 && m == 0x1_0000_0000)
    requires d < m
    ensures m == Pow256(n) && SignExtendTo64(d, m) == d + Pow256(n) * (if d >= m / 2 then Pow256(8 - n) - 1 else 0)
  {
    Pow256Values();
    OnesAbove();
  }

  lemma TopByte(d: nat, n: nat)
    requires n > 0 && d < Pow256(n)
    ensures ByteOf(d, n - 1) >= 128 <==> 2 * d >= Pow256(n)
    decreases n
  {
    if n > 1 { TopByte(d / 256, n - 1); }
  }

  lemma SignedBytes(mem: seq<byte>, i: nat, n: nat, m: nat)
    requires (n == 1 && m == 0x100) || (n == 2 && m == 0x1_0000) || (n == 4 && m == 0x1_0000_0000)
    requires i + n <= |mem|
    ensures HoldsBytes(mem, i, n, true, SignExtendTo64(LoadBytes(mem, i, n), m))
  {
    var d := LoadBytes(mem, i, n);
    Pow256Values();
    LoadBytesBound(mem, i, n);
    SignedFill(d, n, m);
    TopByte(d, n);
    LoadedByte(mem, i, n, n - 1);
    forall k: nat | k < 8
      ensures ByteOf(SignExtendTo64(d, m), k)
           == if k < n then mem[i + k] else if mem[i + n - 1] >= 128 then 255 else 0
    {
      FilledBytes(d, n, d >= m / 2, k);
      LoadedByte(mem, i, n, k);
    }
  }

  lemma PlainBytes(mem: seq<byte>, i: nat, n: nat)
    requires IsAccessSize(n) && i + n <= |mem|
    ensures LoadBytes(mem, i, n) < TWO64 && HoldsBytes(mem, i, n, false, LoadBytes(mem, i, n))
  {
    LoadFits(mem, i, n);
    forall k: nat | k < 8
      ensures ByteOf(LoadBytes(mem, i, n), k) == if k < n then mem[i + k] else 0
    {
      LoadedByte(mem, i, n, k);
    }
  }

  lemma LoadedValue(o: LoadOp, mem: seq<byte>, i: nat)
    requires i + LoadWidth(o) <= |mem|
    ensures LoadBytes(mem, i, LoadWidth(o)) < TWO64
    ensures HoldsBytes(mem, i, LoadWidth(o), SignFilled(o), LoadValue(o, LoadBytes(mem, i, LoadWidth(o))))
  {
    PlainBytes(mem, i, LoadWidth(o));
    match o
    case LB => SignedBytes(mem, i, 1, 0x100);
    case LH => SignedBytes(mem, i, 2, 0x1_0000);
    case LW => SignedBytes(mem, i, 4, 0x1_0000_0000);
    case _ =>
  }

  lemma {:induction false} SameBytes(x: nat, y: nat, n: nat)
    requires x < Pow256(n) && y < Pow256(n)
    requires forall k: nat :: k < n ==> ByteOf(x, k) == ByteOf(y, k)
    ensures x == y
    decreases n
  {
    if n > 0 {
      assert ByteOf(x, 0) == ByteOf(y, 0);
      forall k: nat | k < n - 1
        ensures ByteOf(x / 256, k) == ByteOf(y / 256, k)
      {
        assert ByteOf(x, k + 1) == ByteOf(y, k + 1);
      }
      SameBytes(x / 256, y / 256, n - 1);
    }
  }

  // ---------------------------------------------------------------- executors

  /** The outcome of a bus read, by target. */
  lemma BusReads(bus: Bus, a: u64, n: nat)
    requires bus.paging == Bare && IsAccessSize(n)
    ensures BusLoad(bus, a, n)
         == match TargetOf(|bus.ram|, a)
            case Memory => RamLoad(bus.ram, a - 0x8000_0000, n)
            case Uart => if n != 1 then Fault(5) else if a == 0x1000_0000 then Data(0) else NoValue
            case Stub => NoValue
            case Nowhere => Fault(5)
  {
  }

  lemma LoadInMemory(h: Hart, rd: nat, addr: u64, o: LoadOp)
    requires rd < 32 && h.bus.paging == Bare && TargetOf(|h.bus.ram|, addr) == Memory
    ensures LoadEnds(h, addr, LoadWidth(o), SignFilled(o), rd, ExecuteLoad(Lazy, h, rd, addr, o))
  {
    var i := addr - 0x8000_0000;
    BusReads(h.bus, addr, LoadWidth(o));
    if i + LoadWidth(o) <= |h.bus.ram| {
      LoadedValue(o, h.bus.ram, i);
    }
  }

  lemma ZeroLoaded(o: LoadOp)
    requires LoadWidth(o) == 1
    ensures LoadValue(o, 0) == 0
  {
  }

  lemma LoadOutside(h: Hart, rd: nat, addr: u64, o: LoadOp)
    requires rd < 32 && !(h.bus.paging == Bare && TargetOf(|h.bus.ram|, addr) == Memory)
    ensures LoadEnds(h, addr, LoadWidth(o), SignFilled(o), rd, ExecuteLoad(Lazy, h, rd, addr, o))
  {
    if h.bus.paging == Bare {
      BusReads(h.bus, addr, LoadWidth(o));
      if LoadWidth(o) == 1 { ZeroLoaded(o); }
    }
  }

  lemma LoadAt(h: Hart, rd: nat, addr: u64, o: LoadOp)
    requires rd < 32
    ensures LoadEnds(h, addr, LoadWidth(o), SignFilled(o), rd, ExecuteLoad(Lazy, h, rd, addr, o))
  {
    if h.bus.paging == Bare && TargetOf(|h.bus.ram|, addr) == Memory {
      LoadInMemory(h, rd, addr, o);
    } else {
      LoadOutside(h, rd, addr, o);
    }
  }

  /** An executor runs on the fields of its format. */
  lemma Dispatch(op: Op, w: u32, h: Hart, format: Format, f: Fields)
    requires format == FormatOf(op) && f == Parse(format, w)
    ensures f.rd < 32 && f.rs1 < 32 && f.rs2 < 32 && f.imm < TWO32 && (op.Csr? ==> f.imm < 4096)
    ensures Execute(Lazy, op, w, h) == ExecuteFields(Lazy, op, f, h)
  {
  }

  lemma LoadFieldsExecute(o: LoadOp, h: Hart, f: Fields)
    requires f.rd < 32 && f.rs1 < 32 && f.rs2 < 32 && f.imm < TWO32
    ensures LoadMeans(o, h, f, ExecuteFields(Lazy, Load(o), f, h))
  {
    LoadAt(h, f.rd, Wrap(h.regs[f.rs1] + f.imm), o);
  }

  /** Every load, with the operands cut out of the word. */
  lemma LoadExecutes(o: LoadOp, w: u32, h: Hart)
    ensures LoadMeans(o, h, Operands(I, w), Execute(Lazy, Load(o), w, h))
  {
    Dispatch(Load(o), w, h, I, Operands(I, w));
    LoadFieldsExecute(o, h, Operands(I, w));
  }

  lemma BusWrites(bus: Bus, a: u64, n: nat, d: u64)
    requires bus.paging == Bare && IsAccessSize(n)
    ensures BusStore(bus, a, n, d)
         == match TargetOf(|bus.ram|, a)
            case Memory => RamStore(bus.ram, a - 0x8000_0000, n, d)
            case Uart => if n != 1 then StoreFault(7) else Stored(bus.ram)
            case Stub => Stored(bus.ram)
            case Nowhere => StoreFault(7)
  {
  }

  lemma StoredBytes(ram: seq<byte>, i: nat, n: nat, d: u64)
    requires i + n <= |ram|
    ensures HasStored(ram, i, n, d, StoreBytes(ram, i, n, d))
  {
    forall j | 0 <= j < |ram|
      ensures StoreBytes(ram, i, n, d)[j] == if i <= j < i + n then ByteOf(d, j - i) else ram[j]
    {
      StoredByte(ram, i, n, d, j);
    }
  }

  lemma StoreAt(h: Hart, addr: u64, n: nat, d: u64)
    requires IsAccessSize(n)
    ensures StoreEnds(h, addr, n, d, ExecuteStore(h, addr, n, d))
  {
    if h.bus.paging == Bare {
      BusWrites(h.bus, addr, n, d);
      if TargetOf(|h.bus.ram|, addr) == Memory && addr - 0x8000_0000 + n <= |h.bus.ram| {
        StoredBytes(h.bus.ram, addr - 0x8000_0000, n, d);
      }
    }
  }

  lemma StoreFieldsExecute(o: StoreOp, h: Hart, f: Fields)
    requires f.rd < 32 && f.rs1 < 32 && f.rs2 < 32 && f.imm < TWO32
    ensures StoreMeans(o, h, f, ExecuteFields(Lazy, Store(o), f, h))
  {
    StoreAt(h, Wrap(h.regs[f.rs1] + f.imm), StoreWidth(o), h.regs[f.rs2]);
  }

  /** Every store. */
  lemma StoreExecutes(o: StoreOp, w: u32, h: Hart)
    ensures StoreMeans(o, h, Operands(S, w), Execute(Lazy, Store(o), w, h))
  {
    Dispatch(Store(o), w, h, S, Operands(S, w));
    StoreFieldsExecute(o, h, Operands(S, w));
  }

  /** When an access traps: outside the RAM and every device, or in the UART with more than one byte. */
  predicate Faults(n: nat, a: u64, width: nat) {
    TargetOf(n, a) == Nowhere || (TargetOf(n, a) == Uart && width != 1)
  }

  lemma LoadThrows(o: LoadOp, h: Hart, f: Fields, r: Exec)
    requires f.rd < 32 && f.rs1 < 32 && h.bus.paging == Bare && LoadMeans(o, h, f, r)
    ensures r.Throw? <==> Faults(|h.bus.ram|, (h.regs[f.rs1] + f.imm) % TWO64, LoadWidth(o))
    ensures r.Throw? ==> r == Throw(h, 5)
  {
  }

  lemma StoreThrows(o: StoreOp, h: Hart, f: Fields, r: Exec)
    requires f.rs1 < 32 && f.rs2 < 32 && h.bus.paging == Bare && StoreMeans(o, h, f, r)
    ensures r.Throw? <==> Faults(|h.bus.ram|, (h.regs[f.rs1] + f.imm) % TWO64, StoreWidth(o))
    ensures r.Throw? ==> r == Throw(h, 7)
  {
  }

  lemma ParsedLoadFaults(o: LoadOp, w: u32, h: Hart, f: Fields)
    requires f == Parse(I, w) && h.bus.paging == Bare
    ensures var r := Execute(Lazy, Load(o), w, h);
            && (r.Throw? <==> Faults(|h.bus.ram|, (h.regs[f.rs1] + f.imm) % TWO64, LoadWidth(o)))
            && (r.Throw? ==> r == Throw(h, 5))
  {
    Dispatch(Load(o), w, h, I, f);
    LoadFieldsExecute(o, h, f);
    LoadThrows(o, h, f, ExecuteFields(Lazy, Load(o), f, h));
  }

  lemma ParsedStoreFaults(o: StoreOp, w: u32, h: Hart, f: Fields)
    requires f == Parse(S, w) && h.bus.paging == Bare
    ensures var r := Execute(Lazy, Store(o), w, h);
            && (r.Throw? <==> Faults(|h.bus.ram|, (h.regs[f.rs1] + f.imm) % TWO64, StoreWidth(o)))
            && (r.Throw? ==> r == Throw(h, 7))
  {
    Dispatch(Store(o), w, h, S, f);
    StoreFieldsExecute(o, h, f);
    StoreThrows(o, h, f, ExecuteFields(Lazy, Store(o), f, h));
  }

  /** In Bare mode a load throws exactly then, with cause 5, and a store with cause 7. */
  lemma LoadFaults(o: LoadOp, w: u32, h: Hart)
    requires h.bus.paging == Bare
    ensures var f := Operands(I, w); var r := Execute(Lazy, Load(o), w, h);
            && (r.Throw? <==> Faults(|h.bus.ram|, (h.regs[f.rs1] + f.imm) % TWO64, LoadWidth(o)))
            && (r.Throw? ==> r == Throw(h, 5))
  {
    ParsedLoadFaults(o, w, h, Operands(I, w));
  }

  lemma StoreFaults(o: StoreOp, w: u32, h: Hart)
    requires h.bus.paging == Bare
    ensures var f := Operands(S, w); var r := Execute(Lazy, Store(o), w, h);
            && (r.Throw? <==> Faults(|h.bus.ram|, (h.regs[f.rs1] + f.imm) % TWO64, StoreWidth(o)))
            && (r.Throw? ==> r == Throw(h, 7))
  {
    ParsedStoreFaults(o, w, h, Operands(S, w));
  }

  // ---------------------------------------------------------------- one outcome only

  lemma OneLoad(o: LoadOp, h: Hart, f: Fields, r: Exec, s: Exec)
    requires f.rd < 32 && f.rs1 < 32 && LoadMeans(o, h, f, r) && LoadMeans(o, h, f, s)
    ensures r == s
  {
    var addr := (h.regs[f.rs1] + f.imm) % TWO64;
    if h.bus.paging == Bare && TargetOf(|h.bus.ram|, addr) == Memory
       && addr - 0x8000_0000 + LoadWidth(o) <= |h.bus.ram| {
      Pow256Values();
      SameBytes(r.hart.regs[f.rd], s.hart.regs[f.rd], 8);
    }
  }

  lemma OneStore(o: StoreOp, h: Hart, f: Fields, r: Exec, s: Exec)
    requires f.rs1 < 32 && f.rs2 < 32 && StoreMeans(o, h, f, r) && StoreMeans(o, h, f, s)
    ensures r == s
  {
    var addr := (h.regs[f.rs1] + f.imm) % TWO64;
    if h.bus.paging == Bare && TargetOf(|h.bus.ram|, addr) == Memory
       && addr - 0x8000_0000 + StoreWidth(o) <= |h.bus.ram| {
      assert r.hart.bus.ram == s.hart.bus.ram;
    }
  }
}

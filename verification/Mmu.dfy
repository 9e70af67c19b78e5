/** The bus (include/mmu.h, source/mmu.cpp): device dispatch, and the two ways an address passes
    through `Translate`. */
module Mmu {
  import opened Words
  import opened Traps
  import opened Ram

  // include/config.h
  const KERNBASE: u64 := 0x8000_0000
  const UART_BASE: u64 := 0x1000_0000
  const UART_SIZE := 0x1000
  const VIRTIO_BASE: u64 := 0x1000_1000
  const VIRTIO_SIZE := 0x1000
  const CLINT_BASE: u64 := 0x0200_0000
  const CLINT_SIZE := 0x1_0000
  const PLIC_BASE: u64 := 0x0c00_0000
  const PLIC_SIZE := 0x400_0000

  datatype PagingMode = Bare | Sv32 | Sv39 | Sv48 | Sv57

  /** What later accesses read: the two paging fields and the RAM, which starts at KERNBASE. The
      size of the RAM is the length of the sequence. */
  datatype Bus = Bus(paging: PagingMode, root: u64, ram: seq<byte>)

  predicate InUart(a: u64) { UART_BASE <= a < UART_BASE + UART_SIZE }
  predicate InRam(bus: Bus, a: u64) { KERNBASE <= a < KERNBASE + |bus.ram| }

  /** VirtIO, CLINT or PLIC: their `Load` leaves the data as it was, their `Store` ignores it. */
  predicate InStub(a: u64) {
    || VIRTIO_BASE <= a < VIRTIO_BASE + VIRTIO_SIZE
    || CLINT_BASE <= a < CLINT_BASE + CLINT_SIZE
    || PLIC_BASE <= a < PLIC_BASE + PLIC_SIZE
  }

  /** The UART takes one-byte accesses only. Its `Load` copies out of the zeroed data into the
      buffer at index base - addr, which is in the array for the first register alone. */
  function UartLoad(a: u64, size: int): Access {
    if size != 1 then Fault(LOAD_ACCESS_FAULT)
    else if a == UART_BASE then Data(0)
    else NoValue
  }

  /** The dispatch of `MMU::Load` on a physical address. */
  function PhysicalLoad(bus: Bus, a: u64, size: int): Access {
    if InRam(bus, a) then RamLoad(bus.ram, a - KERNBASE, size)
    else if InUart(a) then UartLoad(a, size)
    else if InStub(a) then NoValue
    else Fault(LOAD_ACCESS_FAULT)
  }

  /** The dispatch of `MMU::Store`. The UART's buffer is never read back, so a device store leaves
      the bus as it is. */
  function PhysicalStore(bus: Bus, a: u64, size: int, d: u64): StoreResult {
    if InRam(bus, a) then RamStore(bus.ram, a - KERNBASE, size, d)
    else if InUart(a) && size != 1 then StoreFault(STORE_ACCESS_FAULT)
    else if InUart(a) || InStub(a) then Stored(bus.ram)
    else StoreFault(STORE_ACCESS_FAULT)
  }

  /** Whatever the size of the RAM, no physical address belongs to two devices, so the order of the
      tests in `Load` and `Store` does not matter; and below the RAM and outside the devices every
      access faults. */
  lemma DevicesAreDisjoint(bus: Bus, a: u64, size: int, d: u64)
    ensures !(InRam(bus, a) && InUart(a)) && !(InRam(bus, a) && InStub(a)) && !(InUart(a) && InStub(a))
    ensures !InRam(bus, a) && !InUart(a) && !InStub(a) ==>
              PhysicalLoad(bus, a, size) == Fault(LOAD_ACCESS_FAULT)
              && PhysicalStore(bus, a, size, d) == StoreFault(STORE_ACCESS_FAULT)
  {
  }

  // ---------------------------------------------------------------- re-entrant translation

  /** What `Translate` and the `Load` it calls can come to within a bounded call depth. */
  datatype Reentry<+T> = Returned(value: T) | Raised(cause: Cause) | TooDeep

  /** Where the page walk sends the first page-table read. */
  function FirstEntry(root: u64, va: u64): u64 {
    Wrap(Wrap(root * 4096) + va / 0x4000_0000 % 0x200 * 8)
  }

  /** `MMU::Translate` up to its first page-table read, which goes through `MMU::Load` and so
      through `Translate` again. What the walk would do with the entry is left open as `rest`. */
  function TranslateWithin(depth: nat, bus: Bus, va: u64, rest: u64 -> Reentry<u64>): Reentry<u64>
    decreases depth, 1
  {
    if bus.paging.Bare? then Returned(va)
    else if !bus.paging.Sv39? then Raised(INSTRUCTION_PAGE_FAULT)
    else
      match LoadWithin(depth, bus, FirstEntry(bus.root, va), 8, rest)
      case Returned(Data(pte)) => rest(pte)
      case Returned(Fault(c)) => Raised(c)
      case Returned(NoValue) => rest(0)
      case Raised(c) => Raised(c)
      case TooDeep => TooDeep
  }

  /** `MMU::Load`; each call uses up one level of the depth. */
  function LoadWithin(depth: nat, bus: Bus, va: u64, size: int, rest: u64 -> Reentry<u64>): Reentry<Access>
    decreases depth, 0
  {
    if depth == 0 then TooDeep
    else
      match TranslateWithin(depth - 1, bus, va, rest)
      case Returned(pa) => Returned(PhysicalLoad(bus, pa, size))
      case Raised(c) => Raised(c)
      case TooDeep => TooDeep
  }

  /** Under Sv39 no load and no translation ever returns (a store translates first): whatever the page
      tables hold and however deep the call stack, the first page-table read re-enters the translation
      it is part of. */
  lemma {:induction false} ReentryNeverReturns(depth: nat, bus: Bus, va: u64, size: int, rest: u64 -> Reentry<u64>)
    requires bus.paging.Sv39?
    ensures LoadWithin(depth, bus, va, size, rest) == TooDeep
    ensures TranslateWithin(depth, bus, va, rest) == TooDeep
  {
    if depth > 0 {
      ReentryNeverReturns(depth - 1, bus, va, 8, rest);
      ReentryNeverReturns(depth - 1, bus, FirstEntry(bus.root, va), 8, rest);
    }
  }

  /** In every other mode one level is enough, and the outcome is the one of `BusLoad`. */
  lemma OneLevelIsEnough(depth: nat, bus: Bus, va: u64, size: int, rest: u64 -> Reentry<u64>)
    requires !bus.paging.Sv39? && depth > 0
    ensures match LoadWithin(depth, bus, va, size, rest)
            case Returned(x) => x == BusLoad(bus, va, size)
            case Raised(c) => BusLoad(bus, va, size) == Fault(c)
            case TooDeep => false
  {
    assert TranslateWithin(depth - 1, bus, va, rest)
        == if bus.paging.Bare? then Returned(va) else Raised(INSTRUCTION_PAGE_FAULT);
  }

  /** `MMU::Load`. By ReentryNeverReturns it has no value under Sv39. */
  function BusLoad(bus: Bus, va: u64, size: int): Access {
    match bus.paging
    case Bare => PhysicalLoad(bus, va, size)
    case Sv39 => NoValue
    case _ => Fault(INSTRUCTION_PAGE_FAULT)
  }

  function BusStore(bus: Bus, va: u64, size: int, d: u64): StoreResult {
    match bus.paging
    case Bare => PhysicalStore(bus, va, size, d)
    case Sv39 => StoreLost
    case _ => StoreFault(INSTRUCTION_PAGE_FAULT)
  }

  // ---------------------------------------------------------------- the MMU object

  datatype Translation = Physical(addr: u64) | PageFault | Endless

  class MMU {
    var paging_mode: PagingMode
    var root_page_table: u64
    const ram: RAM

    ghost predicate Valid()
      reads this
    {
      ram.base == KERNBASE
    }

    ghost function State(): Bus
      reads this, ram, ram.mem
    {
      Bus(paging_mode, root_page_table, ram.mem[..])
    }

    /** `root_page_table` is not initialised by the source; any value may stand here. */
    constructor (size: nat, image: seq<byte>, garbage: u64)
      requires |image| <= size
      ensures Valid() && fresh(ram) && fresh(ram.mem)
      ensures State() == Bus(Bare, garbage, image + seq(size - |image|, k => 0))
    {
      paging_mode, root_page_table := Bare, garbage;
      ram := new RAM(KERNBASE, size, image);
    }

    method SetPagingMode(mode: PagingMode)
      modifies `paging_mode
      ensures paging_mode == mode
    {
      paging_mode := mode;
    }

    method SetRootPageTable(page_table: u64)
      modifies `root_page_table
      ensures root_page_table == page_table
    {
      root_page_table := page_table;
    }

    method Translate(virtual_addr: u64) returns (t: Translation)
      ensures t == match paging_mode
                   case Bare => Physical(virtual_addr)
                   case Sv39 => Endless
                   case _ => PageFault
    {
      if paging_mode == Bare {
        return Physical(virtual_addr);
      } else if paging_mode != Sv39 {
        return PageFault;
      }
      return Endless;
    }

    method Load(addr: u64, size: int) returns (r: Access)
      requires Valid()
      ensures r == BusLoad(State(), addr, size)
    {
      var t := Translate(addr);
      match t
      case Endless => return NoValue;
      case PageFault => return Fault(INSTRUCTION_PAGE_FAULT);
      case Physical(a) =>
        if ram.IsValidAddr(a) {
          r := ram.Load(a, size);
        } else if InUart(a) {
          r := UartLoad(a, size);
        } else if InStub(a) {
          r := NoValue;
        } else {
          r := Fault(LOAD_ACCESS_FAULT);
        }
    }

    method Store(addr: u64, size: int, data: u64) returns (r: Outcome)
      requires Valid()
      modifies ram.mem
      ensures match BusStore(old(State()), addr, size, data)
              case Stored(m) => r == Normal && State() == old(State()).(ram := m)
              case StoreFault(c) => r == Thrown(c) && State() == old(State())
              case StoreLost => r == Undefined
    {
      var t := Translate(addr);
      match t
      case Endless => return Undefined;
      case PageFault => return Thrown(INSTRUCTION_PAGE_FAULT);
      case Physical(a) =>
        if ram.IsValidAddr(a) {
          r := ram.Store(a, size, data);
        } else if InUart(a) && size != 1 {
          r := Thrown(STORE_ACCESS_FAULT);
        } else if InUart(a) || InStub(a) {
          r := Normal;
        } else {
          r := Thrown(STORE_ACCESS_FAULT);
        }
    }
  }
}

/** The Sv39 walk of `MMU::Translate` (source/mmu.cpp) with its page-table read taken as a physical
    read, given as a function of the address; EntryOn is that read on a bus. */
module PageWalk {
  import opened Words
  import opened Decode
  import opened Division
  import opened Isa
  import opened Traps
  import opened Mmu

  // ---------------------------------------------------------------- page-table entries

  datatype Pte = Pte(v: nat, r: nat, w: nat, x: nat, u: nat, g: nat, a: nat, d: nat, rsw: nat,
                     ppn0: nat, ppn1: nat, ppn2: nat, reserved: nat)

  function ParsePageTableEntry(pte: u64): (e: Pte)
    ensures e.ppn0 < 0x200 && e.ppn1 < 0x200 && e.ppn2 < 0x400_0000
  {
    Pte(pte % 2, pte / 2 % 2, pte / 4 % 2, pte / 8 % 2, pte / 0x10 % 2, pte / 0x20 % 2, pte / 0x40 % 2,
        pte / 0x80 % 2, pte / 0x100 % 4, pte / 0x400 % 0x200, pte / 0x8_0000 % 0x200,
        pte / 0x1000_0000 % 0x400_0000, pte / 0x40_0000_0000_0000 % 0x400)
  }

  function Flags(e: Pte): nat {
    e.v + 2 * e.r + 4 * e.w + 8 * e.x + 0x10 * e.u + 0x20 * e.g + 0x40 * e.a + 0x80 * e.d + 0x100 * e.rsw
  }

  lemma Peel(x: nat, m: nat, n: nat)
    requires m > 0 && n > 0
    ensures m * n > 0 && x / m == x / m % n + n * (x / (m * n))
  {
    DivDiv(x, m, n);
  }

  lemma FlagsPeel(x: nat)
    ensures x == x % 2 + 2 * (x / 2 % 2) + 4 * (x / 4 % 2) + 8 * (x / 8 % 2) + 0x10 * (x / 0x10)
    ensures x / 0x10 == x / 0x10 % 2 + 2 * (x / 0x20 % 2) + 4 * (x / 0x40 % 2) + 8 * (x / 0x80 % 2) + 0x10 * (x / 0x100)
  {
    Peel(x, 2, 2);
    Peel(x, 4, 2);
    Peel(x, 8, 2);
    Peel(x, 0x10, 2);
    Peel(x, 0x20, 2);
    Peel(x, 0x40, 2);
    Peel(x, 0x80, 2);
  }

  lemma NumbersPeel(x: u64)
    ensures x / 0x100 == x / 0x100 % 4 + 4 * (x / 0x400 % 0x200) + 0x800 * (x / 0x8_0000 % 0x200)
                       + 0x10_0000 * (x / 0x1000_0000 % 0x400_0000)
                       + 0x4000_0000_0000 * (x / 0x40_0000_0000_0000 % 0x400)
  {
    Peel(x, 0x100, 4);
    Peel(x, 0x400, 0x200);
    Peel(x, 0x8_0000, 0x200);
    Peel(x, 0x1000_0000, 0x400_0000);
    TopBits(x);
  }

  lemma TopBits(x: u64)
    ensures x / 0x40_0000_0000_0000 % 0x400 == x / 0x40_0000_0000_0000
  {
  }

  /** The fields are all of the entry, in the order of section 4.4.1 of the privileged specification:
      flags in bits 9..0, then ppn0, ppn1, ppn2 and the reserved bits. */
  lemma EntryIsItsFields(pte: u64)
    ensures var e := ParsePageTableEntry(pte);
            pte == Flags(e) + 0x400 * e.ppn0 + 0x8_0000 * e.ppn1 + 0x1000_0000 * e.ppn2
                 + 0x40_0000_0000_0000 * e.reserved
  {
    FlagsPeel(pte);
    NumbersPeel(pte);
    FieldSum(pte, ParsePageTableEntry(pte), pte / 0x10, pte / 0x100);
  }

  lemma FieldSum(pte: u64, e: Pte, p: nat, q: nat)
    requires pte == e.v + 2 * e.r + 4 * e.w + 8 * e.x + 0x10 * p
    requires p == e.u + 2 * e.g + 4 * e.a + 8 * e.d + 0x10 * q
    requires q == e.rsw + 4 * e.ppn0 + 0x800 * e.ppn1 + 0x10_0000 * e.ppn2 + 0x4000_0000_0000 * e.reserved
    ensures pte == Flags(e) + 0x400 * e.ppn0 + 0x8_0000 * e.ppn1 + 0x1000_0000 * e.ppn2
                 + 0x40_0000_0000_0000 * e.reserved
  {
  }

  // ---------------------------------------------------------------- the walk

  /** vpn[i], and the size of a page of level i. */
  function PageSize(i: nat): (s: nat)
    ensures s > 0
  {
    if i == 0 then 0x1000 else 0x200 * PageSize(i - 1)
  }

  function Vpn(va: u64, i: nat): nat {
    va / PageSize(i) % 0x200
  }

  /** The next table address. All operands are promoted to `int`: the shift of ppn2 keeps 32 bits and
      can make the result negative, and the product overflows, which is undefined, from ppn0 = 128. */
  function NextTable(e: Pte): Option<u64>
    requires e.ppn0 < 0x200 && e.ppn1 < 0x200
  {
    if e.ppn0 * 0x1000 * 0x1000 >= 0x8000_0000 then None
    else Some(Wrap(Signed32(Or(Or(Low32(e.ppn2 * 0x4000_0000), e.ppn1 * 0x20_0000), e.ppn0 * 0x100_0000))))
  }

  datatype WalkResult =
    | Leaf(level: nat, pte: Pte)
    | WalkFault(cause: Cause)
    | WalkLost

  /** What one entry decides at level i. */
  datatype Verdict = Invalid | IsLeaf | NextLevel

  function Judge(e: Pte, i: nat): Verdict {
    if e.v == 0 || (e.r == 0 && e.w == 1) then Invalid
    else if e.r == 1 || e.x == 1 then IsLeaf
    else if i == 0 then Invalid
    else NextLevel
  }

  function EntryAddress(a: u64, va: u64, i: nat): u64 {
    Wrap(a + Vpn(va, i) * 8)
  }

  /** What an 8-byte read of an entry does: it sets `pte_raw`, leaves it as it was (a stub device),
      throws, or has no meaning. */
  datatype EntryRead = Entry(raw: u64) | Unanswered | ReadFault(cause: Cause) | ReadLost

  /** One round of the loop: it ends the walk or names the next table, and the entry that led there
      stays in `pte_raw`. */
  datatype Round = Stop(result: WalkResult) | Descend(table: u64, raw: u64)

  function Examine(raw: u64, i: nat): (r: Round)
    ensures r.Stop? && r.result.Leaf? ==> r.result.level == i
    ensures r.Descend? ==> i > 0 && r.raw == raw
  {
    var e := ParsePageTableEntry(raw);
    match Judge(e, i)
    case Invalid => Stop(WalkFault(INSTRUCTION_PAGE_FAULT))
    case IsLeaf => Stop(Leaf(i, e))
    case NextLevel =>
      match NextTable(e)
      case None => Stop(WalkLost)
      case Some(next) => Descend(next, raw)
  }

  function Visit(read: u64 -> EntryRead, p: u64, raw: u64, i: nat): (r: Round)
    ensures r.Stop? && r.result.Leaf? ==> r.result.level == i
    ensures r.Descend? ==> i > 0
  {
    match read(p)
    case ReadFault(c) => Stop(WalkFault(c))
    case ReadLost => Stop(WalkLost)
    case Unanswered => Examine(raw, i)
    case Entry(x) => Examine(x, i)
  }

  /** The loop from level i on, with the table at a and the last entry in raw. */
  function Walk(read: u64 -> EntryRead, va: u64, a: u64, raw: u64, i: nat): WalkResult
    decreases i
  {
    match Visit(read, EntryAddress(a, va, i), raw, i)
    case Stop(r) => r
    case Descend(next, x) => Walk(read, va, next, x, i - 1)
  }

  /** The addresses it reads. */
  function Reads(read: u64 -> EntryRead, va: u64, a: u64, raw: u64, i: nat): (ps: seq<u64>)
    ensures |ps| > 0
    decreases i
  {
    var p := EntryAddress(a, va, i);
    [p] +
    match Visit(read, p, raw, i)
    case Stop(_) => []
    case Descend(next, x) => Reads(read, va, next, x, i - 1)
  }

  function RootTable(root: u64): u64 {
    Wrap(root * 0x1000)
  }

  /** ppn2 << 30 as an `int`, widened. */
  function Gigapage(e: Pte): int {
    Signed32(e.ppn2 * 0x4000_0000)
  }

  /** The address that the switch after the loop puts together. The parts occupy different bits. */
  function Physical(level: nat, e: Pte, va: u64): u64
    requires level <= 2
  {
    match level
    case 0 => Wrap(e.ppn0 * 0x1000 + va % 0x1000)
    case 1 => Wrap(Gigapage(e) + e.ppn1 * 0x20_0000 + va % 0x20_0000)
    case 2 => Wrap(Gigapage(e) + va % 0x4000_0000)
  }

  /** The whole walk: three levels, and `pte_raw` is 0 at first. */
  function WalkFrom(read: u64 -> EntryRead, root: u64, va: u64): WalkResult {
    Walk(read, va, RootTable(root), 0, 2)
  }

  function ReadsFrom(read: u64 -> EntryRead, root: u64, va: u64): (ps: seq<u64>)
    ensures |ps| > 0
  {
    Reads(read, va, RootTable(root), 0, 2)
  }

  function LastRead(read: u64 -> EntryRead, root: u64, va: u64): u64 {
    var ps := Reads(read, va, RootTable(root), 0, 2);
    ps[|ps| - 1]
  }

  datatype Translated = Address(addr: u64) | Failed(cause: Cause) | Meaningless

  function TranslateSv39(read: u64 -> EntryRead, root: u64, va: u64): Translated {
    match WalkFrom(read, root, va)
    case Leaf(i, e) => if i <= 2 then Address(Physical(i, e, va)) else Meaningless
    case WalkFault(c) => Failed(c)
    case WalkLost => Meaningless
  }

  /** The loop as written: i counts down, a moves to the next table, the leaf breaks out, and a read
      that is not answered leaves pte_raw. */
  method Translate(read: u64 -> EntryRead, root_page_table: u64, virtual_addr: u64) returns (r: Translated)
    ensures r == TranslateSv39(read, root_page_table, virtual_addr)
  {
    var i := 2;
    var a: u64 := Wrap(root_page_table * 0x1000);
    var pte_raw: u64 := 0;
    while true
      invariant 0 <= i <= 2
      invariant WalkFrom(read, root_page_table, virtual_addr) == Walk(read, virtual_addr, a, pte_raw, i)
      decreases i
    {
      var loaded := read(Wrap(a + Vpn(virtual_addr, i) * 8));
      match loaded {
        case ReadFault(c) => return Failed(c);
        case ReadLost => return Meaningless;
        case Unanswered =>
        case Entry(x) => pte_raw := x;
      }
      var pte := ParsePageTableEntry(pte_raw);
      if pte.v == 0 || (pte.r == 0 && pte.w == 1) {
        return Failed(INSTRUCTION_PAGE_FAULT);
      }
      if pte.r == 1 || pte.x == 1 {
        return Address(Physical(i, pte, virtual_addr));
      } else if i == 0 {
        return Failed(INSTRUCTION_PAGE_FAULT);
      }
      match NextTable(pte) {
        case None => return Meaningless;
        case Some(next) => a := next;
      }
      i := i - 1;
    }
  }

  /** The read that re-enters the translation is the first one of the walk. */
  lemma FirstEntryIsWalked(read: u64 -> EntryRead, root: u64, va: u64)
    ensures ReadsFrom(read, root, va)[0] == FirstEntry(root, va)
  {
    PageSizes();
  }

  // ---------------------------------------------------------------- entries on the bus

  /** The read of an entry at a physical address of a bus. */
  function EntryOn(bus: Bus, p: u64): EntryRead {
    if !InRam(bus, p) && InStub(p) then Unanswered
    else
      match PhysicalLoad(bus, p, 8)
      case Data(x) => Entry(x)
      case Fault(c) => ReadFault(c)
      case NoValue => ReadLost
  }

  /** An entry that the loop can go on with, or the 0 it starts with: never a leaf. */
  predicate IsPointer(raw: u64) {
    var e := ParsePageTableEntry(raw);
    e.v == 0 || (e.r == 0 && e.x == 0)
  }

  lemma ZeroIsPointer()
    ensures IsPointer(0)
  {
  }

  /** No leaf is left over from an earlier level: the entry of a leaf is what the last read of the walk
      gave, even if reads before it were not answered. */
  lemma {:induction false} LeafWasRead(read: u64 -> EntryRead, va: u64, a: u64, raw: u64, i: nat)
    requires IsPointer(raw) && Walk(read, va, a, raw, i).Leaf?
    ensures var ps := Reads(read, va, a, raw, i);
            read(ps[|ps| - 1]).Entry? &&
            ParsePageTableEntry(read(ps[|ps| - 1]).raw) == Walk(read, va, a, raw, i).pte
    decreases i
  {
    var p := EntryAddress(a, va, i);
    VisitReads(read, p, raw, i);
    match Visit(read, p, raw, i)
    case Stop(_) => assert Reads(read, va, a, raw, i) == [p];
    case Descend(next, x) =>
      LeafWasRead(read, va, next, x, i - 1);
      assert Reads(read, va, a, raw, i) == [p] + Reads(read, va, next, x, i - 1);
  }

  lemma VisitReads(read: u64 -> EntryRead, p: u64, raw: u64, i: nat)
    requires IsPointer(raw)
    ensures match Visit(read, p, raw, i)
            case Stop(Leaf(_, e)) => read(p).Entry? && ParsePageTableEntry(read(p).raw) == e
            case Stop(_) => true
            case Descend(_, x) => IsPointer(x)
  {
  }

  function Reader(bus: Bus): u64 -> EntryRead {
    (p: u64) => EntryOn(bus, p)
  }

  /** On a bus: a translated address was decided by an entry in RAM, the last one that the walk read. */
  lemma LeafIsInRam(bus: Bus, root: u64, va: u64)
    requires TranslateSv39(Reader(bus), root, va).Address?
    ensures WalkFrom(Reader(bus), root, va).Leaf?
    ensures var p := LastRead(Reader(bus), root, va);
            && InRam(bus, p) && PhysicalLoad(bus, p, 8).Data?
            && ParsePageTableEntry(PhysicalLoad(bus, p, 8).value) == WalkFrom(Reader(bus), root, va).pte
  {
    ZeroIsPointer();
    LeafWasRead(Reader(bus), va, RootTable(root), 0, 2);
  }

  // ---------------------------------------------------------------- shape of the result

  /** The walk reads at most one entry per level, and exactly down to the level of the leaf. */
  lemma {:induction false} ReadsPerLevel(read: u64 -> EntryRead, va: u64, a: u64, raw: u64, i: nat)
    ensures 1 <= |Reads(read, va, a, raw, i)| <= i + 1
    ensures var t := Walk(read, va, a, raw, i);
            t.Leaf? ==> t.level <= i && |Reads(read, va, a, raw, i)| == i + 1 - t.level
    decreases i
  {
    match Visit(read, EntryAddress(a, va, i), raw, i)
    case Stop(_) =>
    case Descend(next, x) => ReadsPerLevel(read, va, next, x, i - 1);
  }

  lemma PageSizes()
    ensures PageSize(0) == 0x1000 && PageSize(1) == 0x20_0000 && PageSize(2) == 0x4000_0000
  {
  }

  // A frame number times the page size, plus an offset below it, modulo 2^64.

  lemma Frame0(frame: int, offset: nat)
    requires offset < 0x1000
    ensures Wrap(frame * 0x1000 + offset) == Wrap(frame * 0x1000) + offset && Wrap(frame * 0x1000) % 0x1000 == 0
  {
    var f, k := frame % 0x10_0000_0000_0000, frame / 0x10_0000_0000_0000;
    WrapShift(f * 0x1000 + offset, k);
    WrapShift(f * 0x1000, k);
  }

  lemma Frame1(frame: int, offset: nat)
    requires offset < 0x20_0000
    ensures Wrap(frame * 0x20_0000 + offset) == Wrap(frame * 0x20_0000) + offset
    ensures Wrap(frame * 0x20_0000) % 0x20_0000 == 0
  {
    var f, k := frame % 0x800_0000_0000, frame / 0x800_0000_0000;
    WrapShift(f * 0x20_0000 + offset, k);
    WrapShift(f * 0x20_0000, k);
  }

  lemma Frame2(frame: int, offset: nat)
    requires offset < 0x4000_0000
    ensures Wrap(frame * 0x4000_0000 + offset) == Wrap(frame * 0x4000_0000) + offset
    ensures Wrap(frame * 0x4000_0000) % 0x4000_0000 == 0
  {
    var f, k := frame % 0x4_0000_0000, frame / 0x4_0000_0000;
    WrapShift(f * 0x4000_0000 + offset, k);
    WrapShift(f * 0x4000_0000, k);
  }

  /** The page frame that a leaf of level i names. */
  function Frame(level: nat, e: Pte): int
    requires level <= 2
  {
    match level
    case 0 => e.ppn0
    case 1 => Gigapage(e) / 0x20_0000 + e.ppn1
    case 2 => Gigapage(e) / 0x4000_0000
  }

  lemma GigapageIsAligned(e: Pte)
    ensures Gigapage(e) % 0x4000_0000 == 0
  {
    var p := e.ppn2;
    assert p * 0x4000_0000 == TWO32 * (p / 4) + p % 4 * 0x4000_0000;
    Low32Shift(p % 4 * 0x4000_0000, p / 4);
  }

  /** A leaf of level i keeps the low 12 + 9 * i bits of the virtual address, and everything above
      them is the frame of the entry. */
  lemma LeafAddress(level: nat, e: Pte, va: u64)
    requires level <= 2
    ensures var s := PageSize(level);
            && Physical(level, e, va) == Wrap(Frame(level, e) * s) + va % s
            && Wrap(Frame(level, e) * s) % s == 0
  {
    PageSizes();
    GigapageIsAligned(e);
    match level
    case 0 => Frame0(e.ppn0, va % 0x1000);
    case 1 => Frame1(Frame(1, e), va % 0x20_0000);
    case 2 => Frame2(Frame(2, e), va % 0x4000_0000);
  }

  /** Two addresses with the same vpn from level i up, whose walk ends in a leaf of level i, reach
      the same leaf. */
  lemma {:induction false} SameLeaf(read: u64 -> EntryRead, va: u64, va': u64, a: u64, raw: u64, i: nat)
    requires Walk(read, va, a, raw, i).Leaf?
    requires forall j :: Walk(read, va, a, raw, i).level <= j <= i ==> Vpn(va, j) == Vpn(va', j)
    ensures Walk(read, va', a, raw, i) == Walk(read, va, a, raw, i)
    decreases i
  {
    ReadsPerLevel(read, va, a, raw, i);
    assert EntryAddress(a, va, i) == EntryAddress(a, va', i);
    match Visit(read, EntryAddress(a, va, i), raw, i)
    case Stop(_) =>
    case Descend(next, x) => SameLeaf(read, va, va', next, x, i - 1);
  }

  /** The result of translation: at most three reads; and on success there is a level such that the
      low 12 + 9 * level bits come from the virtual address, and every address that shares the vpns of
      that level and above is translated to the same page, at its own offset. */
  lemma TranslationShape(read: u64 -> EntryRead, root: u64, va: u64)
    ensures |ReadsFrom(read, root, va)| <= 3
    ensures TranslateSv39(read, root, va).Address? ==>
              WalkFrom(read, root, va).Leaf? &&
              var level := WalkFrom(read, root, va).level;
              && level <= 2 && |ReadsFrom(read, root, va)| == 3 - level
              && TranslateSv39(read, root, va).addr % PageSize(level) == va % PageSize(level)
  {
    ReadsPerLevel(read, va, RootTable(root), 0, 2);
    match WalkFrom(read, root, va)
    case Leaf(i, e) =>
      LeafAddress(i, e, va);
      PageSizes();
      OffsetOf(TranslateSv39(read, root, va).addr, Wrap(Frame(i, e) * PageSize(i)), va % PageSize(i), PageSize(i));
    case _ =>
  }

  lemma OffsetOf(x: nat, base: nat, offset: nat, s: nat)
    requires s > 0 && base % s == 0 && offset < s && x == base + offset
    ensures x % s == offset && x / s == base / s
  {
    assert x == s * (base / s) + offset;
    DivModUnique(x, s, base / s, offset);
  }

  lemma SamePage(read: u64 -> EntryRead, root: u64, va: u64, va': u64)
    requires TranslateSv39(read, root, va).Address?
    requires var i := WalkFrom(read, root, va).level;
             forall j :: i <= j <= 2 ==> Vpn(va, j) == Vpn(va', j)
    ensures var i := WalkFrom(read, root, va).level;
            var t, t' := TranslateSv39(read, root, va), TranslateSv39(read, root, va');
            t'.Address? && t'.addr - va' % PageSize(i) == t.addr - va % PageSize(i)
  {
    ReadsPerLevel(read, va, RootTable(root), 0, 2);
    SameLeaf(read, va, va', RootTable(root), 0, 2);
    var leaf := WalkFrom(read, root, va);
    LeafAddress(leaf.level, leaf.pte, va);
    LeafAddress(leaf.level, leaf.pte, va');
  }

  /** The walk looks at 39 bits only: the ISA wants a page fault when bits 63..39 differ from bit 38
      (section 4.4.1 of the privileged specification), but here such an address is translated like the
      one below 2^39 that agrees with it. */
  lemma HighBitsIgnored(read: u64 -> EntryRead, root: u64, va: u64)
    ensures TranslateSv39(read, root, va) == TranslateSv39(read, root, va % 0x80_0000_0000)
  {
    var low := va % 0x80_0000_0000;
    LowVpns(va, low);
    WalkDependsOnVpns(read, va, low, RootTable(root), 0, 2);
    match WalkFrom(read, root, va)
    case Leaf(i, e) => if i <= 2 { LowOffsets(va, low, i, e); }
    case _ =>
  }

  lemma LowOffsets(va: u64, low: u64, i: nat, e: Pte)
    requires low == va % 0x80_0000_0000 && i <= 2
    ensures Physical(i, e, va) == Physical(i, e, low)
  {
    LowOffset(va, low, va / 0x80_0000_0000);
  }

  lemma LowOffset(va: u64, low: u64, k: nat)
    requires va == low + 0x80_0000_0000 * k
    ensures low % 0x1000 == va % 0x1000 && low % 0x20_0000 == va % 0x20_0000
    ensures low % 0x4000_0000 == va % 0x4000_0000
  {
    Shift0(low, 0x800_0000 * k);
    Shift1(low, 0x4_0000 * k);
    Shift2(low, 0x200 * k);
  }

  lemma Shift0(x: nat, j: nat)
    ensures (x + 0x1000 * j) % 0x1000 == x % 0x1000
  {
  }

  lemma Shift1(x: nat, j: nat)
    ensures (x + 0x20_0000 * j) % 0x20_0000 == x % 0x20_0000
  {
  }

  lemma Shift2(x: nat, j: nat)
    ensures (x + 0x4000_0000 * j) % 0x4000_0000 == x % 0x4000_0000
  {
  }

  lemma LowVpn(va: u64, low: u64, s: nat, n: nat)
    requires low == va % 0x80_0000_0000
    requires (s, n) in {(0x1000, 0x4_0000), (0x20_0000, 0x200), (0x4000_0000, 1)}
    ensures va / s % 0x200 == low / s % 0x200
  {
    var k := va / 0x80_0000_0000;
    assert va == low + 0x80_0000_0000 * k;
    assert va / s == low / s + 0x200 * (n * k);
  }

  lemma LowVpns(va: u64, low: u64)
    requires low == va % 0x80_0000_0000
    ensures forall j :: 0 <= j <= 2 ==> Vpn(va, j) == Vpn(low, j)
  {
    PageSizes();
    LowVpn(va, low, 0x1000, 0x4_0000);
    LowVpn(va, low, 0x20_0000, 0x200);
    LowVpn(va, low, 0x4000_0000, 1);
  }

  lemma {:induction false} WalkDependsOnVpns(read: u64 -> EntryRead, va: u64, va': u64, a: u64, raw: u64, i: nat)
    requires forall j :: 0 <= j <= i ==> Vpn(va, j) == Vpn(va', j)
    ensures Walk(read, va', a, raw, i) == Walk(read, va, a, raw, i)
    decreases i
  {
    assert EntryAddress(a, va, i) == EntryAddress(a, va', i);
    match Visit(read, EntryAddress(a, va, i), raw, i)
    case Stop(_) =>
    case Descend(next, x) => WalkDependsOnVpns(read, va, va', next, x, i - 1);
  }
}

/** The walk of the source by the bits of its entries, and against the one of section 4.4 of the
    privileged specification: which tables and which address each entry leads to. Permissions, the
    accessed and dirty bits and the reserved bits, which the source does not look at, are outside the
    comparison, and so is the kind of access, which gives a page fault its cause: it is the source's one
    cause here. */
module Sv39Manual {
  import opened Words
  import opened Division
  import opened Decode
  import opened PageWalk
  import opened Departures
  import opened Conformance

  predicate IsPte(e: Pte) {
    e.ppn0 < 0x200 && e.ppn1 < 0x200 && e.ppn2 < 0x400_0000
  }

  /** The physical page number of an entry (bits 53..10), times the page size. */
  function FrameOf(raw: u64): u64 {
    raw / 0x400 % 0x1000_0000_0000 * 0x1000
  }

  /** 4 KiB, 2 MiB and 1 GiB. */
  function SizeOf(level: nat): (s: nat)
    ensures s > 0
  {
    if level == 0 then 0x1000 else if level == 1 then 0x20_0000 else 0x4000_0000
  }

  /** A leaf faults if its frame is not aligned to the size of its page (step 6 of 4.3.2). */
  function LeafResult(level: nat, raw: u64, va: u64): Translated
    requires level <= 2
  {
    if FrameOf(raw) % SizeOf(level) != 0 then Failed(12) else Address(FrameOf(raw) + va % SizeOf(level))
  }

  predicate LeafFits(level: nat, raw: u64) {
    if level == 0 then FrameOf(raw) < 0x20_0000
    else FrameOf(raw) % SizeOf(level) == 0 && FrameOf(raw) < 0x8000_0000
  }

  predicate PointerFits(raw: u64) {
    FrameOf(raw) % 0x20_0000 == 0 && FrameOf(raw) < 0x8000_0000
  }

  // ---------------------------------------------------------------- one entry, by its fields

  function PageAddress(e: Pte): (a: u64)
    requires IsPte(e)
  {
    e.ppn0 * 0x1000 + e.ppn1 * 0x20_0000 + e.ppn2 * 0x4000_0000
  }

  lemma FrameIsFields(raw: u64)
    ensures FrameOf(raw) == PageAddress(ParsePageTableEntry(raw))
  {
    var e := ParsePageTableEntry(raw);
    EntryIsItsFields(raw);
    var p := e.ppn0 + 0x200 * e.ppn1 + 0x4_0000 * e.ppn2;
    FieldsAbove(raw, Flags(e), p, e.reserved);
  }

  lemma FieldsAbove(raw: u64, flags: nat, p: nat, q: nat)
    requires raw == flags + 0x400 * p + 0x40_0000_0000_0000 * q && flags < 0x400 && p < 0x1000_0000_0000
    ensures raw / 0x400 % 0x1000_0000_0000 == p
  {
    DivModUnique(raw, 0x400, p + 0x1000_0000_0000 * q, flags);
    DivModUnique(p + 0x1000_0000_0000 * q, 0x1000_0000_0000, q, p);
  }

  /** The two predicates on the page numbers. */
  lemma FitsByFields(e: Pte, a: u64)
    requires IsPte(e) && a == PageAddress(e)
    ensures a < 0x20_0000 <==> e.ppn1 == 0 && e.ppn2 == 0
    ensures a < 0x8000_0000 <==> e.ppn2 < 2
    ensures a % 0x1000 == 0
    ensures a % 0x20_0000 == 0 <==> e.ppn0 == 0
    ensures a % 0x4000_0000 == 0 <==> e.ppn0 == 0 && e.ppn1 == 0
  {
    DivModUnique(a, 0x20_0000, e.ppn1 + 0x200 * e.ppn2, e.ppn0 * 0x1000);
    DivModUnique(a, 0x4000_0000, e.ppn2, e.ppn0 * 0x1000 + e.ppn1 * 0x20_0000);
  }

  /** The base of the gigapage that the source computes, from the two low bits of ppn2. */
  function GigapageBase(k: nat): u64
    requires k < 4
  {
    if k < 2 then k * 0x4000_0000 else TWO64 - (4 - k) * 0x4000_0000
  }

  /** The source's address for any leaf: ppn1 and ppn2 are dropped at level 0; above, ppn2 counts with two
      bits only, as a signed number. */
  lemma LeafValue(level: nat, e: Pte, va: u64)
    requires level <= 2 && IsPte(e)
    ensures Physical(level, e, va) ==
              match level
              case 0 => e.ppn0 * 0x1000 + va % 0x1000
              case 1 => GigapageBase(e.ppn2 % 4) + e.ppn1 * 0x20_0000 + va % 0x20_0000
              case 2 => GigapageBase(e.ppn2 % 4) + va % 0x4000_0000
  {
    LowGigapage(e.ppn2);
    SignedGigapage(e.ppn2 % 4);
    match level
    case 0 =>
    case 1 => WideBase(e.ppn2 % 4, e.ppn1 * 0x20_0000 + va % 0x20_0000);
    case 2 => WideBase(e.ppn2 % 4, va % 0x4000_0000);
  }

  lemma SignedGigapage(k: nat)
    requires k < 4
    ensures Signed32(k * 0x4000_0000) == if k < 2 then k * 0x4000_0000 else (k - 4) * 0x4000_0000
  {
  }

  lemma WideBase(k: nat, off: nat)
    requires k < 4 && off < 0x4000_0000
    ensures Wrap((if k < 2 then k * 0x4000_0000 else (k - 4) * 0x4000_0000) + off) == GigapageBase(k) + off
  {
  }

  lemma LeafByFields(level: nat, e: Pte, va: u64, a: u64)
    requires level <= 2 && IsPte(e) && a == PageAddress(e) && a % SizeOf(level) == 0
    ensures Physical(level, e, va) == a + va % SizeOf(level)
       <==> if level == 0 then a < 0x20_0000 else a < 0x8000_0000
  {
    FitsByFields(e, a);
    LeafValue(level, e, va);
  }

  /** The source's result is the manual's exactly for a frame that is aligned and below 2^31, or below
      2^21 for the smallest pages. */
  lemma LeafMatches(level: nat, raw: u64, va: u64)
    requires level <= 2
    ensures Address(Physical(level, ParsePageTableEntry(raw), va)) == LeafResult(level, raw, va)
       <==> LeafFits(level, raw)
  {
    var e := ParsePageTableEntry(raw);
    FrameIsFields(raw);
    FitsByFields(e, FrameOf(raw));
    if FrameOf(raw) % SizeOf(level) == 0 {
      LeafByFields(level, e, va, FrameOf(raw));
    }
  }

  lemma CombineScaled(op: BitOp, x: nat, y: nat, k: nat, p: nat)
    requires p == Pow2(k)
    ensures Combine(op, p * x, p * y) == p * Combine(op, x, y)
  {
    LoHiOfParts(0, x, k);
    LoHiOfParts(0, y, k);
    CombineSplit(op, p * x, p * y, k);
  }

  lemma Pow2Of21()
    ensures Pow2(21) == 0x20_0000 && Pow2(30) == 0x4000_0000
  {
    Pow2Values();
    assert Pow2(4) == 0x10;
    Pow2Add(5, 16);
    assert Pow2(9) == 0x200;
    Pow2Add(9, 21);
  }

  /** The next table that the source computes is aligned to 2 MiB. */
  lemma NextIsAligned(a: u32, b: nat, c: nat)
    requires a % 0x20_0000 == 0 && b < 0x200 && c < 0x80
    ensures Or(Or(a, b * 0x20_0000), c * 0x100_0000) % 0x20_0000 == 0
  {
    Pow2Of21();
    var d := a / 0x20_0000;
    CombineScaled(OrOp, d, b, 21, 0x20_0000);
    CombineScaled(OrOp, Combine(OrOp, d, b), c * 8, 21, 0x20_0000);
  }

  lemma SignedAligned(v: u64)
    requires v % 0x20_0000 == 0
    ensures Wrap(Signed32(v)) % 0x20_0000 == 0
  {
    LowAligned(v, v / 0x20_0000);
    WideAligned(Signed32(v));
  }

  lemma LowAligned(v: u64, m: nat)
    requires v == 0x20_0000 * m
    ensures Low32(v) % 0x20_0000 == 0
  {
    DivModUnique(v, TWO32, m / 0x800, 0x20_0000 * (m % 0x800));
  }

  lemma WideAligned(s: int)
    requires -0x8000_0000 <= s < 0x8000_0000 && s % 0x20_0000 == 0
    ensures Wrap(s) % 0x20_0000 == 0
  {
  }

  lemma LowPage(e: Pte)
    requires IsPte(e)
    ensures PageAddress(e) % 0x20_0000 == e.ppn0 * 0x1000
  {
    DivModUnique(PageAddress(e), 0x20_0000, e.ppn1 + e.ppn2 * 0x200, e.ppn0 * 0x1000);
  }

  lemma NextWithoutLow(a: nat, b: nat)
    requires a < 4 && b < 0x200
    ensures Or(Or(a * 0x4000_0000, b * 0x20_0000), 0) == a * 0x4000_0000 + b * 0x20_0000
  {
    Pow2Of21();
    OrDisjoint(b * 0x20_0000, a, 30);
    OrCommutes(b * 0x20_0000, a * 0x4000_0000);
    OrWithZero(a * 0x4000_0000 + b * 0x20_0000);
  }

  lemma OrCommutes(x: u64, y: u64)
    ensures Or(x, y) == Or(y, x)
  {
    SameBits(Or(x, y), Or(y, x));
  }

  lemma LowGigapage(p: nat)
    ensures Low32(p * 0x4000_0000) == p % 4 * 0x4000_0000
  {
    assert p * 0x4000_0000 == TWO32 * (p / 4) + p % 4 * 0x4000_0000;
    Low32Shift(p % 4 * 0x4000_0000, p / 4);
  }

  lemma NextValue(p: nat, b: nat)
    requires p < 0x400_0000 && b < 0x200
    ensures Wrap(Signed32(p % 4 * 0x4000_0000 + b * 0x20_0000)) == p * 0x4000_0000 + b * 0x20_0000 <==> p < 2
  {
  }

  lemma NextTableOf(e: Pte)
    requires IsPte(e) && e.ppn0 == 0
    ensures NextTable(e) == Some(Wrap(Signed32(e.ppn2 % 4 * 0x4000_0000 + e.ppn1 * 0x20_0000)))
  {
    LowGigapage(e.ppn2);
    NextWithoutLow(e.ppn2 % 4, e.ppn1);
  }

  lemma NextTableAligned(e: Pte)
    requires IsPte(e) && NextTable(e).Some?
    ensures NextTable(e).value % 0x20_0000 == 0
  {
    LowGigapage(e.ppn2);
    var a := Low32(e.ppn2 * 0x4000_0000);
    NextIsAligned(a, e.ppn1, e.ppn0);
    SignedAligned(Or(Or(a, e.ppn1 * 0x20_0000), e.ppn0 * 0x100_0000));
  }

  lemma NextByFields(e: Pte)
    requires IsPte(e)
    ensures NextTable(e) == Some(PageAddress(e)) <==> e.ppn0 == 0 && e.ppn2 < 2
  {
    if e.ppn0 == 0 {
      NextAligned(e);
    } else if NextTable(e).Some? {
      NextApart(e, NextTable(e).value);
    }
  }

  lemma NextAligned(e: Pte)
    requires IsPte(e) && e.ppn0 == 0
    ensures NextTable(e) == Some(PageAddress(e)) <==> e.ppn2 < 2
  {
    NextTableOf(e);
    NextValue(e.ppn2, e.ppn1);
  }

  lemma NextApart(e: Pte, a: u64)
    requires IsPte(e) && e.ppn0 != 0 && NextTable(e) == Some(a)
    ensures a != PageAddress(e)
  {
    LowPage(e);
    NextTableAligned(e);
  }

  /** The next table is the manual's exactly for a table on a 2 MiB boundary below 2^31. */
  lemma NextMatches(raw: u64)
    ensures NextTable(ParsePageTableEntry(raw)) == Some(FrameOf(raw)) <==> PointerFits(raw)
  {
    var e := ParsePageTableEntry(raw);
    FrameIsFields(raw);
    FitsByFields(e, FrameOf(raw));
    NextByFields(e);
  }

  lemma SignBits(x: u32, i: nat)
    ensures Bit(Wrap(Signed32(x)), i) == if i < 32 then Bit(x, i) else i < 64 && Bit(x, 31)
  {
    SignBit(x);
    SignedValue(x);
    if x >= 0x8000_0000 {
      HighOnes(x, i);
    } else if i >= 32 {
      assert Pow2(32) == TWO32 by { Pow2Values(); }
      BitAboveBound(x, 32, i);
    }
  }

  lemma SignedValue(x: u32)
    ensures Wrap(Signed32(x)) == if x < 0x8000_0000 then x else x + TWO32 * 0xffff_ffff
  {
  }

  lemma SignBit(x: u32)
    ensures Bit(x, 31) == (x >= 0x8000_0000)
  {
    assert Pow2(31) == 0x8000_0000 by {
      Pow2Values();
      Pow2Add(1, 31);
    }
    BitIsShift(x, 31);
  }

  lemma HighOnes(x: u32, i: nat)
    ensures Bit(x + TWO32 * 0xffff_ffff, i) == if i < 32 then Bit(x, i) else i < 64
  {
    Pow2Values();
    var y := x + TWO32 * 0xffff_ffff;
    LoHiOfParts(x, 0xffff_ffff, 32);
    if i < 32 {
      BitOfLow(y, 32, i);
    } else {
      HiBits(y, 32, i - 32);
      OnesBits(32, i - 32);
    }
  }

  lemma {:induction false} OnesBits(n: nat, i: nat)
    ensures Bit(Pow2(n) - 1, i) == (i < n)
    decreases i
  {
    if n == 0 {
      BitAboveBound(0, 0, i);
    } else {
      assert (Pow2(n) - 1) % 2 == 1 && (Pow2(n) - 1) / 2 == Pow2(n - 1) - 1;
      if i > 0 { OnesBits(n - 1, i - 1); }
    }
  }

  /** The next table of any entry: undefined from ppn0 = 128 on; else the three page numbers at bits 24,
      21 and 30, as a 32-bit number that is sign-extended. */
  lemma NextTableBits(e: Pte, i: nat)
    requires IsPte(e) && i < 64
    ensures NextTable(e).None? <==> e.ppn0 >= 128
    ensures e.ppn0 < 128 ==>
              var j := if i < 32 then i else 31;
              Bit(NextTable(e).value, i)
                == ((j >= 30 && Bit(e.ppn2, j - 30)) || (j >= 21 && Bit(e.ppn1, j - 21))
                    || (j >= 24 && Bit(e.ppn0, j - 24)))
  {
    if e.ppn0 < 128 {
      var x := Or(Or(Low32(e.ppn2 * 0x4000_0000), e.ppn1 * 0x20_0000), e.ppn0 * 0x100_0000);
      OrBelow32(Low32(e.ppn2 * 0x4000_0000), e.ppn1 * 0x20_0000, e.ppn0 * 0x100_0000);
      SignBits(x, i);
      PieceBits(e, if i < 32 then i else 31);
    }
  }

  lemma OrBelow32(a: u32, b: u32, c: u32)
    ensures Or(Or(a, b), c) < TWO32
  {
    Pow2Values();
    CombineBound(OrOp, a, b, 32);
    CombineBound(OrOp, Or(a, b), c, 32);
  }

  lemma PieceBits(e: Pte, j: nat)
    requires IsPte(e) && j < 32
    ensures Bit(Low32(e.ppn2 * 0x4000_0000), j) == (j >= 30 && Bit(e.ppn2, j - 30))
    ensures Bit(e.ppn1 * 0x20_0000, j) == (j >= 21 && Bit(e.ppn1, j - 21))
    ensures Bit(e.ppn0 * 0x100_0000, j) == (j >= 24 && Bit(e.ppn0, j - 24))
  {
    assert Pow2(24) == 0x100_0000 by {
      Pow2Values();
      Pow2Add(8, 16);
    }
    Pow2Of21();
    ShiftedUpBits(e.ppn2, 30, j);
    ShiftedUpBits(e.ppn1, 21, j);
    ShiftedUpBits(e.ppn0, 24, j);
    Low32Bits(e.ppn2 * 0x4000_0000, j);
  }

  // ---------------------------------------------------------------- the whole walk

  /** The address of the entry for va in the table at a. */
  function EntryAt(a: u64, va: u64, level: nat): u64 {
    (a + va / SizeOf(level) % 0x200 * 8) % TWO64
  }

  /** Bits 0 to 3 of an entry: valid, readable, writable, executable. */
  predicate IsInvalid(raw: u64) {
    raw % 2 == 0 || (raw / 2 % 2 == 0 && raw / 4 % 2 == 1)
  }

  predicate IsLeafEntry(raw: u64) {
    raw / 2 % 2 == 1 || raw / 8 % 2 == 1
  }

  /** Steps 2 to 6 of 4.3.2 from level i on; a read without an answer is not defined there. */
  function ManualWalk(read: u64 -> EntryRead, va: u64, a: u64, i: nat): Translated
    requires i <= 2
    decreases i
  {
    match read(EntryAt(a, va, i))
    case ReadFault(c) => Failed(c)
    case ReadLost => Meaningless
    case Unanswered => Meaningless
    case Entry(raw) =>
      if IsInvalid(raw) then Failed(12)
      else if IsLeafEntry(raw) then LeafResult(i, raw, va)
      else if i == 0 then Failed(12)
      else ManualWalk(read, va, FrameOf(raw), i - 1)
  }

  /** Bits 63..39 repeat bit 38. */
  predicate Canonical(va: u64) {
    va < 0x40_0000_0000 || va >= TWO64 - 0x40_0000_0000
  }

  function ManualTranslate(read: u64 -> EntryRead, root: u64, va: u64): Translated {
    if Canonical(va) then ManualWalk(read, va, root * 0x1000 % TWO64, 2) else Failed(12)
  }

  /** Every read of the manual's walk is answered, and every entry it meets is one on which the source
      agrees with it. */
  predicate WalkFits(read: u64 -> EntryRead, va: u64, a: u64, i: nat)
    requires i <= 2
    decreases i
  {
    match read(EntryAt(a, va, i))
    case ReadFault(_) => true
    case ReadLost => true
    case Unanswered => false
    case Entry(raw) =>
      if IsInvalid(raw) then true
      else if IsLeafEntry(raw) then LeafFits(i, raw)
      else i == 0 || (PointerFits(raw) && WalkFits(read, va, FrameOf(raw), i - 1))
  }

  function Outcome(w: WalkResult, va: u64): Translated {
    match w
    case Leaf(i, e) => if i <= 2 then Address(Physical(i, e, va)) else Meaningless
    case WalkFault(c) => Failed(c)
    case WalkLost => Meaningless
  }

  lemma SameEntryAddress(a: u64, va: u64, i: nat)
    requires i <= 2
    ensures EntryAddress(a, va, i) == EntryAt(a, va, i)
  {
    PageSizes();
  }

  lemma JudgeByBits(raw: u64, i: nat)
    ensures Judge(ParsePageTableEntry(raw), i)
         == if IsInvalid(raw) then Invalid else if IsLeafEntry(raw) then IsLeaf
            else if i == 0 then Invalid else NextLevel
  {
  }

  lemma {:induction false} WalkMatches(read: u64 -> EntryRead, va: u64, a: u64, raw: u64, i: nat)
    requires i <= 2 && WalkFits(read, va, a, i)
    ensures Outcome(Walk(read, va, a, raw, i), va) == ManualWalk(read, va, a, i)
    decreases i
  {
    SameEntryAddress(a, va, i);
    match read(EntryAt(a, va, i))
    case Entry(x) =>
      JudgeByBits(x, i);
      if IsInvalid(x) {
      } else if IsLeafEntry(x) {
        LeafMatches(i, x, va);
      } else if i > 0 {
        NextMatches(x);
        WalkMatches(read, va, FrameOf(x), x, i - 1);
      }
    case _ =>
  }

  /** For a canonical address, tables on 2 MiB boundaries below 2^31 and leaves of the kinds of LeafFits,
      the translation is the manual's: the same address, or a fault of the same cause. */
  lemma TranslationMatches(read: u64 -> EntryRead, root: u64, va: u64)
    requires Canonical(va) && WalkFits(read, va, root * 0x1000 % TWO64, 2)
    ensures TranslateSv39(read, root, va) == ManualTranslate(read, root, va)
  {
    WalkMatches(read, va, RootTable(root), 0, 2);
  }

  // ---------------------------------------------------------------- the walk of the source, by bits

  /** next is the table that the source computes from an entry, as NextTableBits has it. */
  ghost predicate IsNextTable(raw: u64, next: u64) {
    var p0, p1, p2 := raw / 0x400 % 0x200, raw / 0x8_0000 % 0x200, raw / 0x1000_0000 % 0x400_0000;
    forall i: nat :: i < 64 ==>
      var j := if i < 32 then i else 31;
      Bit(next, i) == ((j >= 30 && Bit(p2, j - 30)) || (j >= 21 && Bit(p1, j - 21)) || (j >= 24 && Bit(p0, j - 24)))
  }

  /** The loop from level i on ends as r: an unanswered read leaves the last entry in place, a fault of
      the read is passed on, and every other end is decided by the bits of the entry. */
  ghost predicate WalkEnds(read: u64 -> EntryRead, va: u64, a: u64, last: u64, i: nat, r: WalkResult)
    requires i <= 2
    decreases i, 1
  {
    match read(EntryAt(a, va, i))
    case ReadFault(c) => r == WalkFault(c)
    case ReadLost => r == WalkLost
    case Unanswered => EntryEnds(read, va, last, i, r)
    case Entry(x) => EntryEnds(read, va, x, i, r)
  }

  ghost predicate EntryEnds(read: u64 -> EntryRead, va: u64, x: u64, i: nat, r: WalkResult)
    requires i <= 2
    decreases i, 0
  {
    if IsInvalid(x) then r == WalkFault(12)
    else if IsLeafEntry(x) then r == Leaf(i, ParsePageTableEntry(x))
    else if i == 0 then r == WalkFault(12)
    else if x / 0x400 % 0x200 >= 128 then r == WalkLost
    else exists next: u64 :: IsNextTable(x, next) && WalkEnds(read, va, next, x, i - 1, r)
  }

  lemma NextIsNextTable(x: u64)
    ensures var e := ParsePageTableEntry(x);
            && (NextTable(e).None? <==> x / 0x400 % 0x200 >= 128)
            && (NextTable(e).Some? ==> IsNextTable(x, NextTable(e).value))
  {
    var e := ParsePageTableEntry(x);
    NextTableBits(e, 0);
    if NextTable(e).Some? {
      forall i: nat | i < 64 { NextTableBits(e, i); }
    }
  }

  lemma OneNextTable(x: u64, a: u64, b: u64)
    requires IsNextTable(x, a) && IsNextTable(x, b)
    ensures a == b
  {
    forall i: nat
      ensures Bit(a, i) == Bit(b, i)
    {
      if i >= 64 {
        NoBitsAbove64(a, i);
        NoBitsAbove64(b, i);
      }
    }
    SameBits(a, b);
  }

  lemma ExamineByBits(x: u64, i: nat)
    ensures Examine(x, i)
         == if IsInvalid(x) || (!IsLeafEntry(x) && i == 0) then Stop(WalkFault(12))
            else if IsLeafEntry(x) then Stop(Leaf(i, ParsePageTableEntry(x)))
            else match NextTable(ParsePageTableEntry(x))
                 case None => Stop(WalkLost)
                 case Some(next) => Descend(next, x)
  {
    JudgeByBits(x, i);
  }

  /** The recursive walk ends so, and in no other way. */
  lemma {:induction false} WalkIsMeant(read: u64 -> EntryRead, va: u64, a: u64, last: u64, i: nat, r: WalkResult)
    requires i <= 2
    ensures WalkEnds(read, va, a, last, i, r) <==> r == Walk(read, va, a, last, i)
    decreases i, 1
  {
    SameEntryAddress(a, va, i);
    match read(EntryAt(a, va, i))
    case Unanswered => EntryIsMeant(read, va, a, last, last, i, r);
    case Entry(x) => EntryIsMeant(read, va, a, last, x, i, r);
    case _ =>
  }

  lemma {:induction false} EntryIsMeant(read: u64 -> EntryRead, va: u64, a: u64, last: u64, x: u64, i: nat,
                                        r: WalkResult)
    requires i <= 2 && Visit(read, EntryAddress(a, va, i), last, i) == Examine(x, i)
    ensures EntryEnds(read, va, x, i, r) <==> r == Walk(read, va, a, last, i)
    decreases i, 0
  {
    ExamineByBits(x, i);
    NextIsNextTable(x);
    if Examine(x, i).Descend? {
      var next := Examine(x, i).table;
      WalkIsMeant(read, va, next, x, i - 1, r);
      forall n: u64 | IsNextTable(x, n)
        ensures n == next
      {
        OneNextTable(x, n, next);
      }
    }
  }

  /** The translation of the source: the walk from the root with no entry yet, and the address of its
      leaf as LeafValue has it. */
  lemma TranslationIsMeant(read: u64 -> EntryRead, root: u64, va: u64, r: WalkResult)
    requires WalkEnds(read, va, root * 0x1000 % TWO64, 0, 2, r)
    ensures TranslateSv39(read, root, va) == Outcome(r, va)
  {
    WalkIsMeant(read, va, root * 0x1000 % TWO64, 0, 2, r);
  }
}

/** Instructions whose executors depart from the ISA manual: an independent statement of what the
    manual asks for, and the exact condition under which the executor delivers it. Section numbers are
    those of the unprivileged specification. */
module Departures {
  import opened Words
  import opened Isa
  import opened Decode
  import opened Division
  import opened HartModel
  import opened Programs

  // ---------------------------------------------------------------- comparisons and shifts

  /** SLT compares as signed (2.4.2). The executor compares as unsigned, which is right exactly when
      the operands have the same sign. */
  lemma SltIsSigned(a: u64, b: u64)
    ensures RegisterValue(SLT, a, b) == Some(BitValue(Signed64(a) < Signed64(b)))
       <==> (a < TWO63) == (b < TWO63)
  {
  }

  /** An arithmetic right shift: the signed value divided by 2^n, rounded down. */
  function ArithmeticShift(a: u64, n: nat): u64 {
    Wrap(Signed64(a) / Pow2(n))
  }

  /** SRA shifts arithmetically by the low 6 bits of rs2 (2.4.2). The executor shifts logically by all
      of rs2: right exactly for a non-negative operand or a zero amount, provided rs2 is below 64;
      otherwise its shift is undefined. */
  lemma SraIsArithmetic(a: u64, b: u64)
    ensures b >= 64 ==> RegisterValue(SRA, a, b) == None
    ensures b < 64 ==>
              (RegisterValue(SRA, a, b) == Some(ArithmeticShift(a, b)) <==> a < TWO63 || b == 0)
  {
    if 0 < b < 64 && a >= TWO63 {
      LogicalIsPositive(a, Pow2(b), Pow2(b - 1));
    }
  }

  /** A negative operand: the logical shift gives a non-negative number, the arithmetic one does not. */
  lemma LogicalIsPositive(a: u64, p: nat, q: nat)
    requires a >= TWO63 && p == 2 * q && q > 0
    ensures Quotient(a, p) != Wrap((a - TWO64) / p)
  {
    NegativeQuotient(a - TWO64, p);
    HalfQuotient(a, p, q);
  }

  /** A product of positive numbers is at least each factor. */
  lemma AtLeast(p: nat, k: nat)
    requires p > 0
    ensures p * k >= k
  {
    var m: nat := p - 1;
    assert (m + 1) * k == m * k + k;
  }

  lemma NegativeQuotient(x: int, p: nat)
    requires -TWO63 <= x < 0 && p > 0
    ensures -TWO63 <= x / p < 0
  {
    DivisionBounds(x, p, x / p, x % p);
  }

  lemma DivisionBounds(x: int, p: nat, q: int, r: nat)
    requires x < 0 && x == p * q + r && r < p
    ensures x <= q < 0
  {
    if q < 0 {
      var k: nat := -q - 1;
      assert p * q == -(p * k) - p;
      AtLeast(p, k);
    }
  }

  lemma HalfQuotient(a: u64, p: nat, q: nat)
    requires p == 2 * q && q > 0
    ensures Quotient(a, p) < TWO63
  {
    var x := Quotient(a, p);
    HalfBound(a, p, q, x, a % p) by { FloorProduct(a, p); }
  }

  lemma HalfBound(a: u64, p: nat, q: nat, x: nat, r: nat)
    requires p == 2 * q && q > 0 && a == p * x + r
    ensures x < TWO63
  {
    AtLeast(q, x);
    assert p * x == 2 * (q * x) by { DoubleProduct(q, x); }
  }

  /** Every word that decodes to SRAI asks for a shift by 1024 or more: the executor takes the whole
      12-bit immediate, whose bit 10 marks the instruction, as the amount. SRAI is never defined. */
  lemma SraiIsUndefined(w: u32, x: X0, h: Hart)
    requires DecodeWord(w) == Some(Immediate(SRAI))
    ensures Execute(x, Immediate(SRAI), w, h) == Lost
  {
    AssembledOfDecoded(w);
    SraiImmediate(w);
  }

  lemma SraiImmediate(w: u32)
    requires DecodeWord(w) == Some(Immediate(SRAI))
    ensures Parse(I, w).imm >= 0x400
  {
    DecodeIsClassify(w);
    MatchesIsClassified(Immediate(SRAI), w);
    MatchesIsFits(Immediate(SRAI), w);
  }

  /** The three 32-bit immediate shifts read their amount from a format that has no immediate: on
      every word that decodes to one of them, rd becomes a copy of rs1. */
  lemma ImmediateShifts32Copy(o: Immediate32Op, w: u32, h: Hart)
    requires o != ADDIW
    ensures var f := Parse(FormatOf(Immediate32(o)), w);
            Execute(Lazy, Immediate32(o), w, h) == Done(h.(regs := h.regs[f.rd := h.regs[f.rs1]]))
  {
    ShiftByZero(h.regs[Parse(R, w).rs1]);
  }

  lemma ShiftByZero(a: u64)
    ensures ShiftLeft(a, 0) == Some(a) && ShiftRight(a, 0) == Some(a)
  {
  }

  /** MRET enters the mode that MPP encodes (privileged specification, 3.3.2: 0 user, 1 supervisor, 3
      machine) exactly when that is user or supervisor mode. */
  lemma MretMode(h: Hart)
    ensures var m := h.csrs[MSTATUS];
            var mpp := BitValue(Bit(m, 11)) + 2 * BitValue(Bit(m, 12));
            var wanted := if mpp == 0 then Some(User) else if mpp == 1 then Some(Supervisor)
                          else if mpp == 3 then Some(Machine) else None;
            Some(Mret(h).mode) == wanted <==> mpp < 2
  {
  }

  // ---------------------------------------------------------------- immediates

  /** The 12-bit immediate as the manual extends it (2.4.1, 2.6). */
  function Extended(imm: nat): u64
    requires imm < 0x1000
  {
    Wrap(if imm < 0x800 then imm else imm - 0x1000)
  }

  lemma ExtendedParts(imm: nat)
    requires 0x800 <= imm < 0x1000
    ensures Pow2(12) == 0x1000 && Pow2(52) == 0x10_0000_0000_0000
    ensures Lo(Extended(imm), 12) == imm && Hi(Extended(imm), 12) == Pow2(52) - 1
    ensures Lo(imm, 12) == imm && Hi(imm, 12) == 0
  {
    Pow2Of52();
    assert Extended(imm) == imm + 0x1000 * 0xf_ffff_ffff_ffff;
    LoHiOfParts(imm, 0xf_ffff_ffff_ffff, 12);
    LoHiOfParts(imm, 0, 12);
  }

  lemma {:induction false} WithOnes(op: BitOp, h: nat, n: nat)
    requires h < Pow2(n)
    ensures Combine(op, h, Pow2(n) - 1)
         == match op case AndOp => h case OrOp => Pow2(n) - 1 case XorOp => Pow2(n) - 1 - h
    decreases n
  {
    if n > 0 {
      WithOnes(op, h / 2, n - 1);
      CombineHalves(op, h, Pow2(n) - 1);
      assert (Pow2(n) - 1) / 2 == Pow2(n - 1) - 1 && (Pow2(n) - 1) % 2 == 1;
    }
  }

  lemma {:induction false} WithNothing(h: nat)
    ensures Combine(AndOp, h, 0) == 0 && Combine(OrOp, h, 0) == h && Combine(XorOp, h, 0) == h
  {
    if h > 0 {
      WithNothing(h / 2);
    }
  }

  /** For an immediate with bit 11 set, the executors' zero-extended and the manual's sign-extended
      operand give the same low 12 bits; above them the results are those of combining with zeros and
      with ones. */
  lemma ImmediateSplit(op: BitOp, a: u64, imm: nat)
    requires 0x800 <= imm < 0x1000
    ensures a / 0x1000 < Pow2(52)
    ensures Bitwise(op, a, imm)
         == Combine(op, Lo(a, 12), imm) + 0x1000 * Combine(op, a / 0x1000, 0)
    ensures Bitwise(op, a, Extended(imm))
         == Combine(op, Lo(a, 12), imm) + 0x1000 * Combine(op, a / 0x1000, Pow2(52) - 1)
  {
    ExtendedParts(imm);
    LoHiAreModDiv(a, 12);
    CombineSplit(op, a, imm, 12);
    CombineSplit(op, a, Extended(imm), 12);
  }

  lemma UpperHalves(op: BitOp, a: u64, imm: nat) returns (low: nat)
    requires 0x800 <= imm < 0x1000
    ensures Bitwise(op, a, imm) == low + 0x1000 * (match op case AndOp => 0 case _ => a / 0x1000)
    ensures Bitwise(op, a, Extended(imm))
         == low + 0x1000 * (match op
                            case AndOp => a / 0x1000
                            case OrOp => 0xf_ffff_ffff_ffff
                            case XorOp => 0xf_ffff_ffff_ffff - a / 0x1000)
  {
    low := Combine(op, Lo(a, 12), imm);
    Pow2Of52();
    ImmediateSplit(op, a, imm);
    WithOnes(op, a / 0x1000, 52);
    WithNothing(a / 0x1000);
  }

  lemma Pow2Of52()
    ensures Pow2(12) == 0x1000 && Pow2(52) == 0x10_0000_0000_0000
  {
    Pow2Values();
    assert Pow2(4) == 16;
    Pow2Add(4, 8);
    Pow2Add(4, 16);
    Pow2Add(20, 32);
  }

  /** XORI matches the manual exactly for immediates without the sign bit. */
  lemma XoriMatches(a: u64, imm: nat)
    requires imm < 0x1000
    ensures ImmediateValue(XORI, a, imm) == Some(Xor(a, Extended(imm))) <==> imm < 0x800
  {
    if imm >= 0x800 {
      var low := UpperHalves(XorOp, a, imm);
    }
  }

  lemma AndHalves(a: u64, imm: nat, e: u64)
    requires imm < 0x1000 && e == Extended(imm)
    ensures And(a, imm) == And(a, e) <==> imm < 0x800 || a / 0x1000 == 0
  {
    if imm >= 0x800 {
      var low := UpperHalves(AndOp, a, imm);
    }
  }

  lemma OrHalves(a: u64, imm: nat, e: u64)
    requires imm < 0x1000 && e == Extended(imm)
    ensures Or(a, imm) == Or(a, e) <==> imm < 0x800 || a / 0x1000 == 0xf_ffff_ffff_ffff
  {
    if imm >= 0x800 {
      var low := UpperHalves(OrOp, a, imm);
    }
  }

  lemma UpperPart(a: u64)
    ensures a / 0x1000 == 0 <==> a < 0x1000
    ensures a / 0x1000 == 0xf_ffff_ffff_ffff <==> a >= TWO64 - 0x1000
  {
  }

  /** ANDI also when the operand has no bits above the immediate. */
  lemma AndiMatches(a: u64, imm: nat)
    requires imm < 0x1000
    ensures ImmediateValue(ANDI, a, imm) == Some(And(a, Extended(imm))) <==> imm < 0x800 || a < 0x1000
  {
    AndHalves(a, imm, Extended(imm));
    UpperPart(a);
  }

  /** ORI also when the operand has all bits above the immediate. */
  lemma OriMatches(a: u64, imm: nat)
    requires imm < 0x1000
    ensures ImmediateValue(ORI, a, imm) == Some(Or(a, Extended(imm)))
       <==> imm < 0x800 || a >= TWO64 - 0x1000
  {
    OrHalves(a, imm, Extended(imm));
    UpperPart(a);
  }

  lemma WrapsDiffer(x: int, y: int)
    requires 0 < x - y < TWO64
    ensures Wrap(x) != Wrap(y)
  {
  }

  /** Load and store addresses use the offset unsigned; they are the manual's exactly when bit 11 of
      the offset is clear. */
  lemma OffsetMatches(a: u64, imm: nat)
    requires imm < 0x1000
    ensures Wrap(a + imm) == Wrap(a + Extended(imm)) <==> imm < 0x800
  {
    if imm >= 0x800 {
      WrapSum(a, imm - 0x1000);
      WrapsDiffer(a + imm, a + imm - 0x1000);
    }
  }

  /** AUIPC adds its immediate unsigned; the manual sign-extends the 32-bit value (2.4.1). */
  lemma AuipcMatches(pc: u64, imm: u32)
    ensures UpperValue(AUIPC, imm, Wrap(pc + 4)) == Wrap(pc + Signed32(imm)) <==> imm < 0x8000_0000
  {
    PcArithmetic(pc, imm);
    if imm >= 0x8000_0000 {
      WrapsDiffer(pc + imm, pc + imm - TWO32);
    }
  }

  // ---------------------------------------------------------------- high products

  /** The product whose upper half MULH, MULHSU and MULHU must deliver (7.1). */
  function FullProduct(o: RegisterOp, a: u64, b: u64): int {
    match o
    case MULH => Signed64(a) * Signed64(b)
    case MULHSU => Signed64(a) * b
    case _ => a * b
  }

  lemma ProductBelow(m: nat, n: nat, t: nat)
    requires m < t && n < t
    ensures m * n < t * t
  {
    MulGap(m + 1, t, n);
    MulGap(t, t, m);
    assert (m + 1) * n == m * n + n && (m + 1) * t == t * m + t;
  }

  lemma ProductSign(x: int, y: int)
    ensures x * y == Abs(x) * Abs(y) || x * y == -(Abs(x) * Abs(y))
  {
  }

  lemma ProductRange(x: int, y: int)
    requires -TWO63 <= x < TWO64 && -TWO63 <= y < TWO64
    ensures -TWO64 * TWO64 <= x * y < TWO64 * TWO64
  {
    ProductBelow(Abs(x), Abs(y), TWO64);
    ProductSign(x, y);
  }

  lemma FullProductFacts(o: RegisterOp, a: u64, b: u64)
    ensures Wrap(FullProduct(o, a, b)) == Wrap(a * b)
    ensures -TWO64 * TWO64 <= FullProduct(o, a, b) < TWO64 * TWO64
  {
    var x, y := Signed64(a), Signed64(b);
    SignedIsCongruent(a);
    SignedIsCongruent(b);
    WrapProduct(x, y);
    WrapProduct(x, b);
    ProductRange(x, y);
    ProductRange(x, b);
    ProductRange(a, b);
  }

  lemma HalvesAgree(v: int)
    requires -TWO64 * TWO64 <= v < TWO64 * TWO64
    ensures Wrap(v) == Wrap(v / TWO64) <==> v % (TWO64 + 1) == if v < 0 then TWO64 else 0
  {
    HalvesOf(v, v / TWO64, v % TWO64);
  }

  lemma HalvesOf(v: int, h: int, l: u64)
    requires v == TWO64 * h + l && -TWO64 <= h < TWO64
    ensures l == Wrap(h) <==> v % (TWO64 + 1) == if v < 0 then TWO64 else 0
  {
    assert v == (TWO64 + 1) * h + (l - h);
  }

  /** All three return the low half. That is the manual's result exactly when the two halves of the
      product agree, that is, when 2^64 + 1 divides it (or, when it is negative, divides its successor). */
  lemma HighProductMatches(o: RegisterOp, a: u64, b: u64)
    requires o == MULH || o == MULHSU || o == MULHU
    ensures var v := FullProduct(o, a, b);
            RegisterValue(o, a, b) == Some(Wrap(v / TWO64))
            <==> v % (TWO64 + 1) == if v < 0 then TWO64 else 0
  {
    FullProductFacts(o, a, b);
    HalvesAgree(FullProduct(o, a, b));
  }

  // ---------------------------------------------------------------- comparisons with an immediate

  /** SLTI compares as signed with the sign-extended immediate (2.4.1); the executor compares as
      unsigned with the zero-extended one. */
  lemma SltiMatches(a: u64, imm: nat)
    requires imm < 0x1000
    ensures ImmediateValue(SLTI, a, imm) == Some(BitValue(Signed64(a) < Signed64(Extended(imm))))
       <==> if imm < 0x800 then a < TWO63 else imm <= a < TWO63 || a >= TWO64 - 0x1000 + imm
  {
  }

  /** SLTIU compares as unsigned with the sign-extended immediate. */
  lemma SltiuMatches(a: u64, imm: nat)
    requires imm < 0x1000
    ensures ImmediateValue(SLTIU, a, imm) == Some(BitValue(a < Extended(imm)))
       <==> imm < 0x800 || a < imm || a >= TWO64 - 0x1000 + imm
  {
  }

  // ---------------------------------------------------------------- CSR set and clear

  lemma Low32Bits(x: u64, i: nat)
    ensures Bit(Low32(x), i) == (i < 32 && Bit(x, i))
  {
    Pow2Values();
    LoHiAreModDiv(x, 32);
    BitOfLow(x, 32, i);
  }

  /** Every bit of the upper half of x is also set in y. */
  ghost predicate UpperWithin(x: u64, y: u64) {
    forall i :: 32 <= i < 64 && Bit(x, i) ==> Bit(y, i)
  }

  /** CSRRS must set the bits of rs1 and keep all others; the executor does so exactly when the upper
      half of the old value is within rs1, because it reads the old value through 32 bits. */
  lemma CsrrsSets(old64: u64, a: u64, rs1: nat)
    requires rs1 < 32
    ensures CsrValue(CSRRS, Low32(old64), a, rs1) == Or(old64, a) <==> UpperWithin(old64, a)
  {
    var v, w := CsrValue(CSRRS, Low32(old64), a, rs1), Or(old64, a);
    forall i: nat
      ensures Bit(v, i) == ((i < 32 && Bit(old64, i)) || Bit(a, i))
    {
      Low32Bits(old64, i);
    }
    if UpperWithin(old64, a) {
      forall i: nat
        ensures Bit(v, i) == Bit(w, i)
      {
        if i >= 64 { NoBitsAbove64(old64, i); }
      }
      SameBits(v, w);
    } else {
      var i :| 32 <= i < 64 && Bit(old64, i) && !Bit(a, i);
      assert Bit(w, i) && !Bit(v, i);
    }
  }

  lemma NotBits(a: u64, i: nat)
    requires i < 64
    ensures Bit(Not(a), i) == !Bit(a, i)
  {
    Pow2Values();
    NotBit(a, 64, i);
  }

  /** CSRRC must clear the bits of rs1 and keep all others: the same condition. */
  lemma CsrrcClears(old64: u64, a: u64, rs1: nat)
    requires rs1 < 32
    ensures CsrValue(CSRRC, Low32(old64), a, rs1) == And(old64, Not(a)) <==> UpperWithin(old64, a)
  {
    var v, w := CsrValue(CSRRC, Low32(old64), a, rs1), And(old64, Not(a));
    forall i: nat
      ensures Bit(v, i) == (i < 32 && Bit(old64, i) && !Bit(a, i))
      ensures Bit(w, i) == (i < 64 && Bit(old64, i) && !Bit(a, i))
    {
      Low32Bits(old64, i);
      if i < 64 { NotBits(a, i); } else { NoBitsAbove64(old64, i); }
    }
    if UpperWithin(old64, a) {
      SameBits(v, w);
    } else {
      var i :| 32 <= i < 64 && Bit(old64, i) && !Bit(a, i);
      assert Bit(w, i) && !Bit(v, i);
    }
  }

  lemma SmallHasNoUpper(old64: u64, a: u64)
    requires a < TWO32
    ensures UpperWithin(old64, a) <==> old64 < TWO32
  {
    Pow2Values();
    forall i: nat | i >= 32
      ensures !Bit(a, i) && (old64 < TWO32 ==> !Bit(old64, i))
    {
      BitAboveBound(a, 32, i);
      if old64 < TWO32 { BitAboveBound(old64, 32, i); }
    }
    if UpperWithin(old64, a) {
      forall i: nat
        ensures Bit(old64, i) == Bit(Low32(old64), i)
      {
        Low32Bits(old64, i);
        if i >= 64 { NoBitsAbove64(old64, i); }
      }
      SameBits(old64, Low32(old64));
    }
  }

  /** The three instructions that take a 5-bit number: CSRRWI is the manual's always, CSRRSI and CSRRCI
      exactly when the old value fits 32 bits. */
  lemma CsrNumberForms(old64: u64, a: u64, rs1: nat)
    requires rs1 < 32
    ensures CsrValue(CSRRWI, Low32(old64), a, rs1) == rs1
    ensures CsrValue(CSRRSI, Low32(old64), a, rs1) == Or(old64, rs1) <==> old64 < TWO32
    ensures CsrValue(CSRRCI, Low32(old64), a, rs1) == And(old64, Not(rs1)) <==> old64 < TWO32
  {
    CsrrsSets(old64, rs1, rs1);
    CsrrcClears(old64, rs1, rs1);
    SmallHasNoUpper(old64, rs1);
    LowNot(old64, rs1);
  }

  /** On a 32-bit number, complementing in 32 or in 64 bits is the same. */
  lemma LowNot(old64: u64, n: u32)
    ensures And(Low32(old64), TWO32 - 1 - n) == And(Low32(old64), Not(n))
  {
    Pow2Values();
    forall i: nat
      ensures Bit(And(Low32(old64), TWO32 - 1 - n), i) == Bit(And(Low32(old64), Not(n)), i)
    {
      Low32Bits(old64, i);
      if i < 32 {
        NotBit(n, 32, i);
        NotBits(n, i);
      }
    }
    SameBits(And(Low32(old64), TWO32 - 1 - n), And(Low32(old64), Not(n)));
  }

  /** rd must receive the old value: in all six it does exactly when that fits 32 bits. */
  lemma CsrReadMatches(h: Hart, o: CsrOp, f: Fields)
    requires f.rd < 32 && f.rs1 < 32 && f.imm < 4096
    ensures ExecuteCsr(Lazy, h, o, f).hart.regs[f.rd] == h.csrs[f.imm] <==> h.csrs[f.imm] < TWO32
  {
  }
}

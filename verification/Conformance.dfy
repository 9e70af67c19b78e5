/** What the executors compute, stated by the meaning of the result (bits, congruence, quotient and
    remainder) and not by the expression that computes it. Departures compares with the ISA manual those
    that do not follow it. */
module Conformance {
  import opened Words
  import opened Isa
  import opened Decode
  import opened Division
  import opened HartModel
  import opened Departures

  /** x and y are the same number modulo m. */
  predicate SameModulo(x: int, y: int, m: nat)
    requires m > 0
  {
    (x - y) % m == 0
  }

  // ---------------------------------------------------------------- bits of shifts

  lemma {:induction false} ShiftedUpBits(a: nat, n: nat, i: nat)
    ensures Bit(a * Pow2(n), i) == (i >= n && Bit(a, i - n))
    decreases n
  {
    if n > 0 {
      var b := a * Pow2(n - 1);
      assert a * Pow2(n) == 2 * b;
      if i > 0 { ShiftedUpBits(a, n - 1, i - 1); }
    }
  }

  lemma WrapBits(x: nat, i: nat)
    ensures Bit(Wrap(x), i) == (i < 64 && Bit(x, i))
  {
    Pow2Values();
    LoHiAreModDiv(x, 64);
    BitOfLow(x, 64, i);
  }

  lemma ShiftBits(a: u64, n: u64, i: nat)
    requires n < 64 && i < 64
    ensures Bit(ShiftLeft(a, n).value, i) == (i >= n && Bit(a, i - n))
    ensures Bit(ShiftRight(a, n).value, i) == (i + n < 64 && Bit(a, i + n))
  {
    ShiftedUpBits(a, n, i);
    WrapBits(a * Pow2(n), i);
    LoHiAreModDiv(a, n);
    HiBits(a, n, i);
    if i + n >= 64 { NoBitsAbove64(a, i + n); }
  }

  // ---------------------------------------------------------------- register-register

  /** x divided by y, rounding toward zero, is q with remainder m. */
  ghost predicate IsDivision(x: int, y: int, q: int, m: int) {
    x == y * q + m && Abs(m) < Abs(y) && (m == 0 || (m < 0) == (x < 0))
  }

  ghost predicate IsShiftedLeft(a: u64, n: u64, r: u64) {
    n < 64 && forall i: nat :: i < 64 ==> Bit(r, i) == (i >= n && Bit(a, i - n))
  }

  ghost predicate IsShiftedRight(a: u64, n: u64, r: u64) {
    n < 64 && forall i: nat :: i < 64 ==> Bit(r, i) == (i + n < 64 && Bit(a, i + n))
  }

  /** What a result r is, in the terms of section 2.4.2 and chapter 7. SLT compares as SLTU does, SRA
      shifts as SRL does, and MULH, MULHSU and MULHU multiply as MUL does; all others are the manual's. */
  ghost predicate RegisterResult(o: RegisterOp, a: u64, b: u64, r: u64) {
    match o
    case ADD => SameModulo(r, a + b, TWO64)
    case SUB => SameModulo(r + b, a, TWO64)
    case MUL | MULH | MULHSU | MULHU => SameModulo(r, a * b, TWO64)
    case SLL => IsShiftedLeft(a, b, r)
    case SRL | SRA => IsShiftedRight(a, b, r)
    case SLTU | SLT => (r == 1 <==> a < b) && (r == 0 <==> a >= b)
    case XOR => forall i: nat :: Bit(r, i) == (Bit(a, i) != Bit(b, i))
    case OR => forall i: nat :: Bit(r, i) == (Bit(a, i) || Bit(b, i))
    case AND => forall i: nat :: Bit(r, i) == (Bit(a, i) && Bit(b, i))
    case DIV =>
      var x, y := Signed64(a), Signed64(b);
      if y == 0 then Signed64(r) == -1
      else if x == -TWO63 && y == -1 then r == a
      else exists m :: IsDivision(x, y, Signed64(r), m)
    case REM =>
      var x, y := Signed64(a), Signed64(b);
      if y == 0 then r == a
      else if x == -TWO63 && y == -1 then r == 0
      else exists q :: IsDivision(x, y, q, Signed64(r))
    case DIVU => if b == 0 then r == TWO64 - 1 else exists m :: IsDivision(a, b, r, m)
    case REMU => if b == 0 then r == a else exists q :: IsDivision(a, b, q, r)
  }

  lemma WrapIsSame(x: int)
    ensures SameModulo(Wrap(x), x, TWO64)
  {
    var k := x / TWO64;
    assert Wrap(x) - x == TWO64 * -k;
  }

  lemma SubtractionUndone(a: u64, b: u64)
    ensures SameModulo(Wrap(a - b) + b, a, TWO64)
  {
  }

  lemma SignedQuotient(a: u64, b: u64)
    requires b != 0 && !(Signed64(a) == -TWO63 && Signed64(b) == -1)
    ensures var x, y := Signed64(a), Signed64(b);
            && Signed64(Div(a, b)) == TruncDiv(x, y) && Signed64(Rem(a, b)) == TruncRem(x, y)
            && IsDivision(x, y, Signed64(Div(a, b)), Signed64(Rem(a, b)))
  {
    var x, y := Signed64(a), Signed64(b);
    SignedIsCongruent(a);
    SignedIsCongruent(b);
    TruncatingDivision(x, y);
    QuotientInRange(x, y);
    SignedOfWrap(TruncDiv(x, y));
    SignedOfWrap(TruncRem(x, y));
  }

  lemma QuotientInRange(x: int, y: int)
    requires -TWO63 <= x < TWO63 && -TWO63 <= y < TWO63 && y != 0 && !(x == -TWO63 && y == -1)
    ensures -TWO63 <= TruncDiv(x, y) < TWO63 && -TWO63 <= TruncRem(x, y) < TWO63
  {
    TruncatingDivision(x, y);
  }

  lemma DivideConforms(a: u64, b: u64)
    ensures RegisterResult(DIV, a, b, Div(a, b)) && RegisterResult(REM, a, b, Rem(a, b))
  {
    var x, y := Signed64(a), Signed64(b);
    if y == 0 {
    } else if x == -TWO63 && y == -1 {
    } else {
      SignedQuotient(a, b);
    }
  }

  lemma DivideUnsignedConforms(a: u64, b: u64)
    ensures RegisterResult(DIVU, a, b, Divu(a, b)) && RegisterResult(REMU, a, b, Remu(a, b))
  {
    UnsignedDivisionIdentity(a, b);
    if b != 0 {
      UnsignedQuotient(a, b, Divu(a, b), Remu(a, b));
    }
  }

  lemma UnsignedQuotient(a: u64, b: u64, q: u64, m: u64)
    requires q * b + m == a && m < b
    ensures IsDivision(a, b, q, m)
  {
    assert q * b == b * q;
  }

  lemma ShiftsConform(a: u64, b: u64)
    requires b < 64
    ensures IsShiftedLeft(a, b, ShiftLeft(a, b).value)
    ensures IsShiftedRight(a, b, ShiftRight(a, b).value)
  {
    forall i: nat | i < 64 { ShiftBits(a, b, i); }
  }

  /** Every register-register instruction; only a shift by 64 or more has no result. */
  lemma RegisterConforms(o: RegisterOp, a: u64, b: u64)
    ensures RegisterValue(o, a, b) == None <==> (o == SLL || o == SRL || o == SRA) && b >= 64
    ensures RegisterValue(o, a, b).Some? ==> RegisterResult(o, a, b, RegisterValue(o, a, b).value)
  {
    match o
    case ADD => WrapIsSame(a + b);
    case SUB => SubtractionUndone(a, b);
    case MUL | MULH | MULHSU | MULHU => WrapIsSame(a * b);
    case DIV => DivideConforms(a, b);
    case REM => DivideConforms(a, b);
    case DIVU => DivideUnsignedConforms(a, b);
    case REMU => DivideUnsignedConforms(a, b);
    case SLL | SRL | SRA => if b < 64 { ShiftsConform(a, b); }
    case _ =>
  }

  /** What the W instructions give: the divisions exactly, of the low halves (the unsigned ones
      zero-extended); the sums, the product and the shifts in all 64 bits. */
  ghost predicate Register32Result(o: Register32Op, a: u64, b: u64, r: u64) {
    match o
    case ADDW => SameModulo(r, a + b, TWO64)
    case SUBW => SameModulo(r + b, a, TWO64)
    case MULW => SameModulo(r, a * b, TWO64)
    case SLLW => IsShiftedLeft(a, b, r)
    case SRLW | SRAW => IsShiftedRight(a, b, r)
    case DIVW =>
      var x, y := Signed32(a), Signed32(b);
      if y == 0 then Signed64(r) == -1
      else if x == -0x8000_0000 && y == -1 then Signed64(r) == x
      else exists m :: IsDivision(x, y, Signed64(r), m)
    case REMW =>
      var x, y := Signed32(a), Signed32(b);
      if y == 0 then Signed64(r) == x
      else if x == -0x8000_0000 && y == -1 then r == 0
      else exists q :: IsDivision(x, y, q, Signed64(r))
    case DIVUW => if Low32(b) == 0 then r == TWO64 - 1 else exists m :: IsDivision(Low32(a), Low32(b), r, m)
    case REMUW => if Low32(b) == 0 then r == Low32(a) else exists q :: IsDivision(Low32(a), Low32(b), q, r)
  }

  lemma SignedQuotient32(a: u64, b: u64)
    requires Signed32(b) != 0 && !(Signed32(a) == -0x8000_0000 && Signed32(b) == -1)
    ensures IsDivision(Signed32(a), Signed32(b), Signed64(Divw(a, b)), Signed64(Remw(a, b)))
  {
    var x, y := Signed32(a), Signed32(b);
    SignedLow32(a);
    SignedLow32(b);
    TruncatingDivision(x, y);
    QuotientInRange(x, y);
    SignedOfWrap(TruncDiv(x, y));
    SignedOfWrap(TruncRem(x, y));
  }

  lemma DivideConforms32(a: u64, b: u64)
    ensures Register32Result(DIVW, a, b, Divw(a, b)) && Register32Result(REMW, a, b, Remw(a, b))
  {
    var x, y := Signed32(a), Signed32(b);
    SignedLow32(a);
    if y == 0 {
      SignedOfWrap(x);
    } else if x == -0x8000_0000 && y == -1 {
      SignedOfWrap(x);
    } else {
      SignedQuotient32(a, b);
    }
  }

  lemma DivideUnsignedConforms32(a: u64, b: u64)
    ensures Register32Result(DIVUW, a, b, Divuw(a, b)) && Register32Result(REMUW, a, b, Remuw(a, b))
  {
    DivuwRemuwValues(a, b);
    if Low32(b) != 0 {
      UnsignedQuotient(Low32(a), Low32(b), Divuw(a, b), Remuw(a, b));
    }
  }

  lemma Register32Conforms(o: Register32Op, a: u64, b: u64)
    ensures Register32Value(o, a, b) == None <==> (o == SLLW || o == SRLW || o == SRAW) && b >= 64
    ensures Register32Value(o, a, b).Some? ==> Register32Result(o, a, b, Register32Value(o, a, b).value)
  {
    match o
    case ADDW => WrapIsSame(a + b);
    case SUBW => SubtractionUndone(a, b);
    case MULW => WrapIsSame(a * b);
    case SLLW | SRLW | SRAW => if b < 64 { ShiftsConform(a, b); }
    case DIVW => DivideConforms32(a, b);
    case REMW => DivideConforms32(a, b);
    case DIVUW => DivideUnsignedConforms32(a, b);
    case REMUW => DivideUnsignedConforms32(a, b);
  }

  // ---------------------------------------------------------------- immediates, branches, loads

  /** ADDI adds the signed immediate; SLLI and SRLI move every bit by their amount, which ShiftAmountsFit
      shows to be below 64 in all words that decode to them. */
  lemma ImmediateConforms(a: u64, imm: nat)
    requires imm < 0x1000
    ensures SameModulo(ImmediateValue(ADDI, a, imm).value, a + Extended(imm), TWO64)
    ensures imm < 64 ==>
              var l, r := ImmediateValue(SLLI, a, imm), ImmediateValue(SRLI, a, imm);
              l.Some? && r.Some? && IsShiftedLeft(a, imm, l.value) && IsShiftedRight(a, imm, r.value)
  {
    if imm < 64 { ShiftsConform(a, imm); }
    ExtendedIsSigned(imm);
    WrapIsSame(a + SignExtend12(imm));
    ShiftedIsSame(Wrap(a + SignExtend12(imm)), a + SignExtend12(imm), if imm < 0x800 then 0 else 1);
  }

  lemma ExtendedIsSigned(imm: nat)
    requires imm < 0x1000
    ensures Extended(imm) == SignExtend12(imm) + (if imm < 0x800 then 0 else TWO64)
  {
  }

  lemma ShiftedIsSame(x: int, y: int, k: int)
    requires SameModulo(x, y, TWO64)
    ensures SameModulo(x, y + TWO64 * k, TWO64)
  {
  }

  lemma ShiftAmountsFit(w: u32)
    requires DecodeWord(w) == Some(Immediate(SLLI)) || DecodeWord(w) == Some(Immediate(SRLI))
    ensures Parse(I, w).imm < 64
  {
    var op := DecodeWord(w).value;
    DecodeIsClassify(w);
    MatchesIsClassified(op, w);
    MatchesIsFits(op, w);
  }

  /** The branch conditions (2.5): equality and its negation, the order after adding 2^63 to both
      sides, and the borrow of the subtraction. */
  lemma BranchConditions(a: u64, b: u64)
    ensures BranchTaken(BEQ, a, b) == (Wrap(a - b) == 0) && BranchTaken(BNE, a, b) == (Wrap(a - b) != 0)
    ensures BranchTaken(BLT, a, b) == (Wrap(a + TWO63) < Wrap(b + TWO63))
    ensures BranchTaken(BGE, a, b) == !BranchTaken(BLT, a, b)
    ensures BranchTaken(BLTU, a, b) == (Wrap(a - b) != a - b)
    ensures BranchTaken(BGEU, a, b) == !BranchTaken(BLTU, a, b)
  {
  }

  /** A sign-extending load yields the number in the signed range of its width that agrees with the
      loaded bytes; the other loads yield the bytes (2.6). */
  lemma LoadsExtend(l: LoadOp, d: u64)
    ensures var v := LoadValue(l, d);
            match l
            case LB => -0x80 <= Signed64(v) < 0x80 && SameModulo(Signed64(v), d, 0x100)
            case LH => -0x8000 <= Signed64(v) < 0x8000 && SameModulo(Signed64(v), d, 0x1_0000)
            case LW => -0x8000_0000 <= Signed64(v) < 0x8000_0000 && SameModulo(Signed64(v), d, 0x1_0000_0000)
            case _ => v == d
  {
    match l
    case LB => SignedPart(d, 0x100);
    case LH => SignedPart(d, 0x1_0000);
    case LW => SignedPart(d, 0x1_0000_0000);
    case _ =>
  }

  lemma SignedPart(d: u64, m: int)
    requires m == 0x100 || m == 0x1_0000 || m == 0x1_0000_0000
    ensures var v := Signed64(SignExtendTo64(d, m)); -(m / 2) <= v < m / 2 && SameModulo(v, d, m)
  {
    var v := if d % m < m / 2 then d % m else d % m - m;
    SignedOfWrap(v);
    if m == 0x100 {
      Multiple8(v - d, if v >= 0 then -(d / m) else -(d / m) - 1);
    } else if m == 0x1_0000 {
      Multiple16(v - d, if v >= 0 then -(d / m) else -(d / m) - 1);
    } else {
      Multiple32(v - d, if v >= 0 then -(d / m) else -(d / m) - 1);
    }
  }

  lemma Multiple8(x: int, k: int)
    requires x == 0x100 * k
    ensures x % 0x100 == 0
  {
  }

  lemma Multiple16(x: int, k: int)
    requires x == 0x1_0000 * k
    ensures x % 0x1_0000 == 0
  {
  }

  lemma Multiple32(x: int, k: int)
    requires x == 0x1_0000_0000 * k
    ensures x % 0x1_0000_0000 == 0
  {
  }

  /** The two low bits of funct3 are the binary logarithm of the access width, and bit 2 asks for zero
      extension (2.6). */
  lemma WidthsFollowFunct3(s: StoreOp, l: LoadOp, d: u64)
    ensures StoreSize(s) == Pow2(StoreFunct3(s)) && LoadSize(l) == Pow2(LoadFunct3(l) % 4)
    ensures LoadFunct3(l) >= 4 ==> LoadValue(l, d) == d
  {
    assert Pow2(0) == 1 && Pow2(1) == 2 && Pow2(2) == 4 && Pow2(3) == 8;
  }

  // ---------------------------------------------------------------- CSR instructions

  /** All six: rd receives the low 32 bits of the old value, the CSR the register or the 5-bit number,
      replaced, or-ed into or cleared from those 32 bits, and no other CSR changes; rs1 is read before
      rd is written. */
  lemma CsrExchange(h: Hart, o: CsrOp, f: Fields)
    requires f.rd < 32 && f.rs1 < 32 && f.imm < 4096
    ensures var r := ExecuteCsr(Lazy, h, o, f).hart;
            var x := h.csrs[f.imm]; var y := r.csrs[f.imm];
            var operand := if o == CSRRW || o == CSRRS || o == CSRRC then h.regs[f.rs1] else f.rs1;
            && r.regs == h.regs[f.rd := x % TWO32]
            && (forall j :: 0 <= j < 4096 && j != f.imm ==> r.csrs[j] == h.csrs[j])
            && (o == CSRRW || o == CSRRWI ==> y == operand)
            && (o == CSRRS || o == CSRRSI ==>
                  forall i: nat :: Bit(y, i) == ((i < 32 && Bit(x, i)) || Bit(operand, i)))
            && (o == CSRRC || o == CSRRCI ==>
                  forall i: nat :: Bit(y, i) == (i < 32 && Bit(x, i) && !Bit(operand, i)))
  {
    var x := h.csrs[f.imm];
    forall i: nat
      ensures Bit(Low32(x), i) == (i < 32 && Bit(x, i))
      ensures i < 32 ==> Bit(Not(h.regs[f.rs1]), i) == !Bit(h.regs[f.rs1], i)
      ensures i < 32 ==> Bit(TWO32 - 1 - f.rs1, i) == !Bit(f.rs1, i)
    {
      Low32Bits(x, i);
      if i < 32 {
        Pow2Values();
        NotBits(h.regs[f.rs1], i);
        NotBit(f.rs1, 32, i);
      }
    }
  }
}

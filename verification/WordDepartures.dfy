/** The W instructions of RV64I and RV64M, whose executors work on all 64 bits: the exact operands for
    which they still give what the ISA manual asks for (sections 5.2 and 7.2 of the unprivileged
    specification). DIVUW and REMUW are in Division. */
module WordDepartures {
  import opened Words
  import opened Division
  import opened Isa
  import opened Decode
  import opened HartModel
  import opened Departures

  /** The W instructions must give the low 32 bits of a result, sign-extended (5.2, 7.2). */
  function WordResult(x: int): u64 {
    Wrap(Signed32(x))
  }

  predicate IsWordResult(r: u64) {
    r < 0x8000_0000 || r >= TWO64 - 0x8000_0000
  }

  lemma FitsWord(x: int)
    ensures Wrap(x) == WordResult(x) <==> IsWordResult(Wrap(x))
  {
    Low32OfWrap(x);
    WordRange(Wrap(x));
  }

  lemma WordRange(r: u64)
    ensures r == WordResult(r) <==> IsWordResult(r)
  {
  }

  predicate IsWord(s: int) {
    -0x8000_0000 <= s < 0x8000_0000
  }

  /** s is a word, or as close to 2^64 or -2^64 as a word is to 0. */
  predicate WrapsToWord(s: int) {
    IsWord(s) || s < 0x8000_0000 - TWO64 || s >= TWO64 - 0x8000_0000
  }

  lemma WordOfSum(x: int, s: int)
    requires -TWO64 <= s < TWO64 && Wrap(x) == Wrap(s)
    ensures Wrap(x) == WordResult(x) <==> WrapsToWord(s)
  {
    FitsWord(x);
  }

  /** ADDW and SUBW keep all 64 bits. That is right exactly when the sum or difference of the operands,
      as signed numbers, is a word or overflows to one. */
  lemma WordSumMatches(a: u64, b: u64)
    ensures Register32Value(ADDW, a, b) == Some(WordResult(a + b)) <==> WrapsToWord(Signed64(a) + Signed64(b))
    ensures Register32Value(SUBW, a, b) == Some(WordResult(a - b)) <==> WrapsToWord(Signed64(a) - Signed64(b))
  {
    WordOfSum(a + b, Signed64(a) + Signed64(b));
    WordOfSum(a - b, Signed64(a) - Signed64(b));
  }

  lemma WordOfProduct(p: int)
    ensures IsWordResult(Wrap(p)) <==> (p + 0x8000_0000) % TWO64 < TWO32
    ensures -TWO63 <= p < TWO63 ==> (IsWordResult(Wrap(p)) <==> IsWord(p))
  {
    var q, r := p / TWO64, p % TWO64;
    WrapShift(r + 0x8000_0000, q);
  }

  lemma WordProductRange(x: int, y: int)
    requires IsWord(x) && IsWord(y)
    ensures -TWO63 <= x * y < TWO63
  {
    ProductBelow(Abs(x), Abs(y), 0x8000_0001);
    ProductSign(x, y);
  }

  /** MULW keeps all 64 bits too: right exactly when the signed product of the operands is within a word
      of a multiple of 2^64, and for sign-extended operands when it is a word. */
  lemma WordProductMatches(a: u64, b: u64)
    ensures var p := Signed64(a) * Signed64(b);
            && (Register32Value(MULW, a, b) == Some(WordResult(a * b)) <==> (p + 0x8000_0000) % TWO64 < TWO32)
            && (IsWord(Signed64(a)) && IsWord(Signed64(b)) ==>
                  (Register32Value(MULW, a, b) == Some(WordResult(a * b)) <==> IsWord(p)))
  {
    var p := Signed64(a) * Signed64(b);
    FullProductFacts(MULH, a, b);
    FitsWord(a * b);
    WordOfProduct(p);
    if IsWord(Signed64(a)) && IsWord(Signed64(b)) {
      WordProductRange(Signed64(a), Signed64(b));
    }
  }

  // The W shifts shift the low half by the low 5 bits of rs2; the executors shift all of rs1 by all of
  // rs2, which is undefined from 64 on.

  /** A shift keeps the bits that stay below the top. */
  lemma ScaledModulo(a: nat, p: nat, q: nat)
    requires p > 0 && q > 0
    ensures p * q > 0 && a * p % (p * q) == a % q * p
  {
    ScaledParts(a, p, q, a / q, a % q);
  }

  lemma ScaledParts(a: nat, p: nat, q: nat, d: nat, r: nat)
    requires p > 0 && a == q * d + r && r < q
    ensures p * q > 0 && a * p % (p * q) == r * p
  {
    MulGap(p, q, r);
    assert p * r == r * p;
    assert a * p == (p * q) * d + r * p by { Distribute(p, q, d, r); }
    DivModUnique(a * p, p * q, d, r * p);
  }

  lemma Distribute(p: nat, q: nat, d: nat, r: nat)
    ensures (q * d + r) * p == (p * q) * d + r * p
  {
    assert (q * d) * p == (p * q) * d;
  }

  lemma Low32OfShift(a: u64, n: nat)
    requires n < 32
    ensures Low32(a * Pow2(n)) == a % Pow2(32 - n) * Pow2(n)
  {
    assert Pow2(n) * Pow2(32 - n) == TWO32 by {
      Pow2Add(n, 32 - n);
      Pow2Values();
    }
    ScaledModulo(a, Pow2(n), Pow2(32 - n));
  }

  lemma WrapOfShift(a: u64, n: nat)
    requires n < 64
    ensures Wrap(a * Pow2(n)) == a % Pow2(64 - n) * Pow2(n)
  {
    assert Pow2(n) * Pow2(64 - n) == TWO64 by {
      Pow2Add(n, 64 - n);
      Pow2Values();
    }
    ScaledModulo(a, Pow2(n), Pow2(64 - n));
  }

  lemma ProductOrder(p: nat, x: nat, y: nat)
    requires p > 0
    ensures x * p < y * p <==> x < y
  {
    if x < y {
      MulGap(p, y, x);
    } else if x > y {
      MulGap(p, x, y);
    }
    assert x * p == p * x && y * p == p * y;
  }

  lemma WordAfterShift(p: nat, r: nat, t: nat, u: nat)
    requires p > 0 && t * p == 0x8000_0000 && u * p == TWO64 && r < u && t <= u
    ensures r * p < TWO64 && (IsWordResult(r * p) <==> r < t || r >= u - t)
  {
    ProductOrder(p, r, t);
    ProductOrder(p, r, u);
    ProductOrder(p, r, u - t);
    assert (u - t) * p == u * p - t * p;
  }

  lemma ShortLeftShift(a: u64, n: nat)
    requires n < 32
    ensures Pow2(31 - n) <= Pow2(64 - n)
    ensures var r := a % Pow2(64 - n);
            IsWordResult(Wrap(a * Pow2(n))) <==> r < Pow2(31 - n) || r >= Pow2(64 - n) - Pow2(31 - n)
  {
    WrapOfShift(a, n);
    assert Pow2(31 - n) * Pow2(n) == 0x8000_0000 && Pow2(64 - n) * Pow2(n) == TWO64 by {
      Pow2Add(31 - n, n);
      Pow2Add(64 - n, n);
      Pow2Values();
      assert 2 * Pow2(31) == Pow2(32);
    }
    Pow2Below(31 - n, 64 - n);
    WordAfterShift(Pow2(n), a % Pow2(64 - n), Pow2(31 - n), Pow2(64 - n));
  }

  lemma LongLeftShift(a: u64, n: nat)
    requires 32 <= n < 64
    ensures Wrap(a * Pow2(n)) == WordResult(a * Pow2(n - 32)) <==> a % Pow2(64 - n) == 0
  {
    ShiftBeyond(a, n);
    HighShift(a * Pow2(n - 32));
    Low32OfShift(a, n - 32);
    ZeroProduct(a % Pow2(64 - n), Pow2(n - 32));
  }

  lemma ZeroProduct(x: nat, p: nat)
    requires p > 0
    ensures x * p == 0 <==> x == 0
  {
  }

  lemma LeftShiftCases(a: u64, b: u64, k: nat)
    requires b < 64 && k == if b < 32 then b else b - 32
    ensures Wrap(a * Pow2(b)) == WordResult(a * Pow2(k))
       <==> var r, top := a % Pow2(64 - b), Pow2(64 - b);
            if b < 32 then r < Pow2(31 - b) || r >= top - Pow2(31 - b) else r == 0
  {
    if b < 32 {
      FitsWord(a * Pow2(b));
      ShortLeftShift(a, b);
    } else {
      LongLeftShift(a, b);
    }
  }

  /** SLLW: of the bits that the 64-bit shift does not push out, those from bit 31 of the result on must
      be equal; from amount 32 on, all must be zero. */
  lemma SllwMatches(a: u64, b: u64)
    ensures b >= 64 ==> Register32Value(SLLW, a, b) == None
    ensures b < 64 ==>
              (Register32Value(SLLW, a, b) == Some(WordResult(a * Pow2(b % 32))) <==>
               var r, top := a % Pow2(64 - b), Pow2(64 - b);
               if b < 32 then r < Pow2(31 - b) || r >= top - Pow2(31 - b) else r == 0)
  {
    if b < 64 {
      LeftShiftCases(a, b, b % 32);
    }
  }

  lemma ShiftBeyond(a: u64, b: nat)
    requires b >= 32
    ensures a * Pow2(b) == TWO32 * (a * Pow2(b - 32))
  {
    Pow2Add(32, b - 32);
    Pow2Values();
    assert a * (TWO32 * Pow2(b - 32)) == TWO32 * (a * Pow2(b - 32));
  }

  lemma HighShift(x: nat)
    ensures Wrap(TWO32 * x) == WordResult(x) <==> Low32(x) == 0
  {
  }

  lemma BelowProduct(x: nat, p: nat, q: nat, y: nat, r: nat)
    requires x == p * y + r && r < p
    ensures y < q <==> x < p * q
  {
    if y < q {
      MulGap(p, q, y);
    } else if y > q {
      MulGap(p, y, q);
    }
  }

  /** Shifting by less than 32 keeps a number below 2^32 below 2^(32 - n), and no other. */
  lemma ShiftedBelow(x: u64, n: nat)
    requires n < 32
    ensures Quotient(x, Pow2(n)) < Pow2(32 - n) <==> x < TWO32
  {
    Pow2Add(n, 32 - n);
    Pow2Values();
    FloorProduct(x, Pow2(n));
    BelowProduct(x, Pow2(n), Pow2(32 - n), Quotient(x, Pow2(n)), x % Pow2(n));
  }

  lemma ShiftedHalves(a: u64, n: nat)
    requires n >= 32
    ensures Quotient(a, Pow2(n)) == Quotient(a / TWO32, Pow2(n - 32))
  {
    Pow2Add(32, n - 32);
    Pow2Values();
    DivDiv(a, TWO32, Pow2(n - 32));
  }

  lemma ShortShift(a: u64, n: nat)
    requires 0 < n < 32
    ensures Quotient(Low32(a), Pow2(n)) < 0x8000_0000
    ensures Quotient(a, Pow2(n)) == Quotient(Low32(a), Pow2(n)) <==> a < TWO32
  {
    ShiftedBelow(a, n);
    ShiftedBelow(Low32(a), n);
    HalfOf(Low32(a), n);
  }

  lemma HalfOf(x: u32, n: nat)
    requires n > 0
    ensures Quotient(x, Pow2(n)) < 0x8000_0000
  {
    FloorProduct(x, Pow2(n));
    HalfBelow(x, Pow2(n - 1), Quotient(x, Pow2(n)), x % Pow2(n));
  }

  lemma HalfBelow(x: u32, p: nat, y: nat, r: nat)
    requires p > 0 && x == 2 * p * y + r
    ensures y < 0x8000_0000
  {
    AtLeast(p, y);
    assert 2 * p * y == 2 * (p * y);
  }

  /** The two halves of a have the same bits from k on. */
  ghost predicate HalvesAgreeFrom(a: u64, k: nat) {
    forall i :: k <= i < 32 ==> Bit(a, i) == Bit(a, i + 32)
  }

  lemma UpperHalfBit(a: u64, k: nat, j: nat)
    ensures Bit(Quotient(a / TWO32, Pow2(k)), j) == Bit(a, j + k + 32)
  {
    var h := a / TWO32;
    assert h == Hi(a, 32) by {
      Pow2Values();
      LoHiAreModDiv(a, 32);
    }
    LoHiAreModDiv(h, k);
    HiBits(h, k, j);
    HiBits(a, 32, j + k);
  }

  lemma LowerHalfBit(a: u64, k: nat, j: nat)
    ensures Bit(Quotient(Low32(a), Pow2(k)), j) == (j + k < 32 && Bit(a, j + k))
  {
    LoHiAreModDiv(Low32(a), k);
    HiBits(Low32(a), k, j);
    Low32Bits(a, j + k);
  }

  lemma HalvesDiffer(a: u64, k: nat, x: nat, y: nat, i: nat)
    requires x == Quotient(a / TWO32, Pow2(k)) && y == Quotient(Low32(a), Pow2(k))
    requires k <= i < 32 && Bit(a, i) != Bit(a, i + 32)
    ensures x != y
  {
    UpperHalfBit(a, k, i - k);
    LowerHalfBit(a, k, i - k);
  }

  lemma HalvesAgreeShifted(a: u64, k: nat, x: nat, y: nat)
    requires x == Quotient(a / TWO32, Pow2(k)) && y == Quotient(Low32(a), Pow2(k))
    requires HalvesAgreeFrom(a, k)
    ensures x == y
  {
    forall j: nat
      ensures Bit(x, j) == Bit(y, j)
    {
      UpperHalfBit(a, k, j);
      LowerHalfBit(a, k, j);
      if j + k >= 32 {
        NoBitsAbove64(a, j + k + 32);
      } else {
        assert Bit(a, j + k) == Bit(a, j + k + 32);
      }
    }
    SameBits(x, y);
  }

  lemma HalvesByBits(a: u64, k: nat)
    ensures Quotient(a / TWO32, Pow2(k)) == Quotient(Low32(a), Pow2(k)) <==> HalvesAgreeFrom(a, k)
  {
    var x, y := Quotient(a / TWO32, Pow2(k)), Quotient(Low32(a), Pow2(k));
    if HalvesAgreeFrom(a, k) {
      HalvesAgreeShifted(a, k, x, y);
    } else {
      var i :| k <= i < 32 && Bit(a, i) != Bit(a, i + 32);
      HalvesDiffer(a, k, x, y, i);
    }
  }

  /** SRLW: the logical shift of the low half. */
  function WordShiftRight(a: u64, n: nat): u64 {
    WordResult(Quotient(Low32(a), Pow2(n)))
  }

  lemma SmallWord(x: u32, y: u32)
    ensures x == WordResult(y) <==> x == y && y < 0x8000_0000
  {
  }

  lemma PositiveWord(x: nat)
    requires x < 0x8000_0000
    ensures WordResult(x) == x
  {
  }

  lemma UnshiftedWord(a: u64)
    ensures a == WordShiftRight(a, 0) <==> IsWordResult(a)
    ensures a == WordShiftArithmetic(a, 0) <==> IsWordResult(a)
  {
    assert Quotient(Low32(a), Pow2(0)) == Low32(a);
    assert WordResult(Low32(a)) == WordResult(a);
    WordRange(a);
  }

  lemma ShortWordShift(a: u64, n: nat)
    requires 0 < n < 32
    ensures Quotient(a, Pow2(n)) == WordShiftRight(a, n) <==> a < TWO32
  {
    ShortShift(a, n);
    PositiveWord(Quotient(Low32(a), Pow2(n)));
  }

  lemma LowHalfShifted(x: u32, k: nat)
    ensures Quotient(x, Pow2(k)) < 0x8000_0000 <==> (k == 0 ==> x < 0x8000_0000)
  {
    if k > 0 { HalfOf(x, k); }
  }

  lemma LongWordShift(a: u64, n: nat)
    requires 32 <= n < 64
    ensures Quotient(a, Pow2(n)) == WordShiftRight(a, n - 32)
       <==> HalvesAgreeFrom(a, n - 32) && (n == 32 ==> Low32(a) < 0x8000_0000)
  {
    var k: nat := n - 32;
    var y := Quotient(Low32(a), Pow2(k));
    ShiftedHalves(a, n);
    assert y < 0x8000_0000 <==> (k == 0 ==> Low32(a) < 0x8000_0000) by { LowHalfShifted(Low32(a), k); }
    SmallWord(Quotient(a / TWO32, Pow2(k)), y);
    HalvesByBits(a, k);
  }

  lemma LogicalShiftCases(a: u64, b: u64, k: nat)
    requires b < 64 && k == if b < 32 then b else b - 32
    ensures Quotient(a, Pow2(b)) == WordShiftRight(a, k)
       <==> if b == 0 then IsWordResult(a)
            else if b < 32 then a < TWO32
            else HalvesAgreeFrom(a, b - 32) && (b == 32 ==> Low32(a) < 0x8000_0000)
  {
    if b == 0 {
      UnshiftedWord(a);
    } else if b < 32 {
      ShortWordShift(a, b);
    } else {
      LongWordShift(a, b);
    }
  }

  /** Right exactly when there is no upper half to shift in; at amount zero when rs1 is a sign-extended
      32-bit number, and from 32 on when the bits that stay are the same in both halves. */
  lemma SrlwMatches(a: u64, b: u64)
    ensures b >= 64 ==> Register32Value(SRLW, a, b) == None
    ensures b < 64 ==>
              (Register32Value(SRLW, a, b) == Some(WordShiftRight(a, b % 32)) <==>
               if b == 0 then IsWordResult(a)
               else if b < 32 then a < TWO32
               else HalvesAgreeFrom(a, b - 32) && (b == 32 ==> Low32(a) < 0x8000_0000))
  {
    if b < 64 {
      LogicalShiftCases(a, b, b % 32);
    }
  }

  /** SRAW: the arithmetic shift of the low half. */
  function WordShiftArithmetic(a: u64, n: nat): u64 {
    Wrap(Signed32(a) / Pow2(n))
  }

  lemma NegativeShift(a: u64, n: nat, m: nat)
    requires Low32(a) >= 0x8000_0000 && n > 0
    ensures Quotient(a, Pow2(n)) != WordShiftArithmetic(a, m)
  {
    NegativeQuotient(Signed32(a), Pow2(m));
    HalfQuotient(a, Pow2(n), Pow2(n - 1));
  }

  lemma PositiveShift(a: u64, n: nat)
    requires Low32(a) < 0x8000_0000
    ensures WordShiftArithmetic(a, n) == Quotient(Low32(a), Pow2(n))
  {
  }

  lemma ShortArithmeticShift(a: u64, n: nat)
    requires 0 < n < 32
    ensures Quotient(a, Pow2(n)) == WordShiftArithmetic(a, n) <==> a < 0x8000_0000
  {
    if Low32(a) >= 0x8000_0000 {
      NegativeShift(a, n, n);
    } else {
      PositiveShift(a, n);
      ShortShift(a, n);
    }
  }

  lemma LongArithmeticShift(a: u64, n: nat)
    requires 32 <= n < 64
    ensures Quotient(a, Pow2(n)) == WordShiftArithmetic(a, n - 32)
       <==> Low32(a) < 0x8000_0000 && HalvesAgreeFrom(a, n - 32)
  {
    if Low32(a) >= 0x8000_0000 {
      NegativeShift(a, n, n - 32);
    } else {
      PositiveShift(a, n - 32);
      ShiftedHalves(a, n);
      HalvesByBits(a, n - 32);
    }
  }

  lemma ArithmeticShiftCases(a: u64, b: u64, k: nat)
    requires b < 64 && k == if b < 32 then b else b - 32
    ensures Quotient(a, Pow2(b)) == WordShiftArithmetic(a, k)
       <==> if b == 0 then IsWordResult(a)
            else if b < 32 then a < 0x8000_0000
            else Low32(a) < 0x8000_0000 && HalvesAgreeFrom(a, b - 32)
  {
    if b == 0 {
      UnshiftedWord(a);
    } else if b < 32 {
      ShortArithmeticShift(a, b);
    } else {
      LongArithmeticShift(a, b);
    }
  }

  /** Right exactly when that number is not negative and there is no upper half to shift in, with the
      same exceptions as SRLW. */
  lemma SrawMatches(a: u64, b: u64)
    ensures b >= 64 ==> Register32Value(SRAW, a, b) == None
    ensures b < 64 ==>
              (Register32Value(SRAW, a, b) == Some(WordShiftArithmetic(a, b % 32)) <==>
               if b == 0 then IsWordResult(a)
               else if b < 32 then a < 0x8000_0000
               else Low32(a) < 0x8000_0000 && HalvesAgreeFrom(a, b - 32))
  {
    if b < 64 {
      ArithmeticShiftCases(a, b, b % 32);
    }
  }
}

/** The multiply and divide instructions (RV32M and RV64M entries of source/cpu.cpp). C++ integer
    division truncates toward zero; Dafny's is Euclidean. */
module Division {
  import opened Words

  function Abs(x: int): nat {
    if x < 0 then -x else x
  }

  /** C++ `a / b` and `a % b` on signed operands. */
  function TruncDiv(a: int, b: int): int
    requires b != 0
  {
    var q := Abs(a) / Abs(b);
    if (a < 0) == (b < 0) then q else -q
  }

  function TruncRem(a: int, b: int): int
    requires b != 0
  {
    var r := Abs(a) % Abs(b);
    if a < 0 then -r else r
  }

  function Quotient(a: u64, b: nat): (q: u64)
    requires b > 0
    ensures q <= a
  {
    QuotientBound(a, b);
    a / b
  }

  /** MUL, and MULW as well: the source does not truncate it to 32 bits. */
  function Mul(a: u64, b: u64): u64 {
    Wrap(a * b)
  }

  function Div(a: u64, b: u64): u64 {
    var x, y := Signed64(a), Signed64(b);
    if y == 0 then Wrap(-1)
    else if x == -TWO63 && y == -1 then Wrap(x)
    else Wrap(TruncDiv(x, y))
  }

  function Divu(a: u64, b: u64): u64 {
    if b == 0 then Wrap(-1) else Quotient(a, b)
  }

  function Rem(a: u64, b: u64): u64 {
    var x, y := Signed64(a), Signed64(b);
    if y == 0 then Wrap(x)
    else if x == -TWO63 && y == -1 then 0
    else Wrap(TruncRem(x, y))
  }

  function Remu(a: u64, b: u64): u64 {
    if b == 0 then a else a % b
  }

  function Divw(a: u64, b: u64): u64 {
    var x, y := Signed32(a), Signed32(b);
    if y == 0 then Wrap(-1)
    else if x == -0x8000_0000 && y == -1 then Wrap(x)
    else Wrap(TruncDiv(x, y))
  }

  function Divuw(a: u64, b: u64): u64 {
    var x, y := Low32(a), Low32(b);
    if y == 0 then Wrap(-1) else Quotient(x, y)
  }

  function Remw(a: u64, b: u64): u64 {
    var x, y := Signed32(a), Signed32(b);
    if y == 0 then Wrap(x)
    else if x == -0x8000_0000 && y == -1 then 0
    else Wrap(TruncRem(x, y))
  }

  function Remuw(a: u64, b: u64): u64 {
    var x, y := Low32(a), Low32(b);
    if y == 0 then x else x % y
  }

  // ---------------------------------------------------------------- truncating division

  /** Quotient and remainder of C++ division: they recompose the dividend, the remainder is smaller
      than the divisor, and it has the sign of the dividend. */
  lemma TruncatingDivision(a: int, b: int)
    requires b != 0
    ensures b * TruncDiv(a, b) + TruncRem(a, b) == a
    ensures Abs(TruncRem(a, b)) < Abs(b)
    ensures TruncRem(a, b) != 0 ==> (TruncRem(a, b) < 0) == (a < 0)
    ensures Abs(TruncDiv(a, b)) <= Abs(a)
  {
    var m, n := Abs(a), Abs(b);
    var q, r := m / n, m % n;
    assert n * q + r == m;
    QuotientBound(m, n);
    SignedProduct(b, n, q);
  }

  lemma QuotientBound(m: nat, n: nat)
    requires n > 0
    ensures m / n <= m
  {
    QuotientOf(m, n, m / n, m % n);
  }

  lemma QuotientOf(m: nat, n: nat, q: nat, r: nat)
    requires m == n * q + r && n > 0
    ensures q <= m
  {
    var k: nat := n - 1;
    assert (k + 1) * q == k * q + q;
  }

  lemma SignedProduct(b: int, n: int, q: int)
    requires n == Abs(b) && q >= 0
    ensures b * q == (if b < 0 then -(n * q) else n * q)
    ensures b * -q == (if b < 0 then n * q else -(n * q))
  {
  }

  // ---------------------------------------------------------------- wrap-around

  lemma WrapShift(x: int, k: int)
    ensures Wrap(x + TWO64 * k) == Wrap(x)
  {
  }

  /** Multiplying before or after reduction modulo 2^64 is the same. */
  lemma WrapProduct(x: int, y: int)
    ensures Wrap(Wrap(x) * Wrap(y)) == Wrap(x * y)
  {
    var k, j := -(x / TWO64), -(y / TWO64);
    assert Wrap(x) == x + TWO64 * k && Wrap(y) == y + TWO64 * j;
    ProductOfShifts(x, y, TWO64, k, j);
    WrapShift(x * y, x * j + k * y + TWO64 * (k * j));
  }

  lemma ProductOfShifts(x: int, y: int, t: int, k: int, j: int)
    ensures (x + t * k) * (y + t * j) == x * y + t * (x * j + k * y + t * (k * j))
  {
    var u, v := t * k, t * j;
    assert (x + u) * (y + v) == x * y + x * v + u * y + u * v;
    assert x * v == t * (x * j) && u * y == t * (k * y);
    assert u * v == t * (t * (k * j)) by { assert u * v == t * (k * v) && k * v == t * (k * j); }
  }

  lemma WrapSum(x: int, y: int)
    ensures Wrap(Wrap(x) + Wrap(y)) == Wrap(x + y)
  {
  }

  lemma SignedIsCongruent(a: u64)
    ensures Wrap(Signed64(a)) == a && -TWO63 <= Signed64(a) < TWO63
  {
  }

  // ---------------------------------------------------------------- 64-bit identities

  /** DIV and REM return the two's complement of an exact quotient and remainder, with the ISA's
      conventions for a zero divisor and for the one quotient that does not fit. */
  lemma DivRemValues(a: u64, b: u64) returns (q: int, r: int)
    ensures Div(a, b) == Wrap(q) && Rem(a, b) == Wrap(r)
    ensures Wrap(Signed64(b) * q + r) == a
    ensures b != 0 ==> Abs(r) < Abs(Signed64(b)) && (r != 0 ==> (r < 0) == (Signed64(a) < 0))
    ensures -TWO63 <= r < TWO63
  {
    var x, y := Signed64(a), Signed64(b);
    SignedIsCongruent(a);
    SignedIsCongruent(b);
    if y == 0 {
      q, r := -1, x;
    } else if x == -TWO63 && y == -1 {
      q, r := x, 0;
    } else {
      q, r := TruncDiv(x, y), TruncRem(x, y);
      TruncatingDivision(x, y);
    }
  }

  /** MUL(DIV(a, b), b) + REM(a, b) is a modulo 2^64, for all operands, with no exception for b = 0
      or for the overflowing INT64_MIN / -1. */
  lemma SignedDivisionIdentity(a: u64, b: u64)
    ensures Wrap(Mul(Div(a, b), b) + Rem(a, b)) == a
  {
    var q, r := DivRemValues(a, b);
    SignedIsCongruent(b);
    Recompose(q, Signed64(b), r);
  }

  lemma Recompose(q: int, y: int, r: int)
    ensures Wrap(Wrap(Wrap(q) * Wrap(y)) + Wrap(r)) == Wrap(y * q + r)
  {
    WrapProduct(q, y);
    WrapSum(q * y, r);
    assert q * y == y * q;
  }

  /** The remainder is smaller than the divisor and has the dividend's sign. */
  lemma RemainderBound(a: u64, b: u64)
    requires b != 0
    ensures Abs(Signed64(Rem(a, b))) < Abs(Signed64(b))
    ensures Rem(a, b) != 0 ==> (Signed64(Rem(a, b)) < 0) == (Signed64(a) < 0)
  {
    var q, r := DivRemValues(a, b);
    SignedOfWrap(r);
  }

  lemma SignedOfWrap(r: int)
    requires -TWO63 <= r < TWO63
    ensures Signed64(Wrap(r)) == r
  {
  }

  /** The same for DIVU and REMU; there the identity holds without wrap-around when b is not 0. */
  lemma UnsignedDivisionIdentity(a: u64, b: u64)
    ensures Wrap(Mul(Divu(a, b), b) + Remu(a, b)) == a
    ensures b != 0 ==> Divu(a, b) * b + Remu(a, b) == a && Remu(a, b) < b
  {
    if b != 0 {
      FloorProduct(a, b);
      ExactQuotient(a, b, Divu(a, b), Remu(a, b));
    }
  }

  lemma FloorProduct(a: u64, b: nat)
    requires b > 0
    ensures b * Quotient(a, b) + a % b == a && 0 <= a % b < b
  {
  }

  lemma ExactQuotient(a: u64, b: u64, q: u64, r: u64)
    requires b * q + r == a
    ensures q * b + r == a && Wrap(Wrap(q * b) + r) == a
  {
    assert q * b == b * q;
    WrapOfParts(q * b, r, a);
  }

  lemma WrapOfParts(p: nat, r: u64, a: u64)
    requires p + r == a
    ensures Wrap(Wrap(p) + r) == a
  {
  }

  // ---------------------------------------------------------------- 32-bit identities

  lemma Low32OfWrap(x: int)
    ensures Low32(Wrap(x)) == Low32(x)
  {
    Low32Shift(Wrap(x), TWO32 * (x / TWO64));
  }

  lemma Low32Shift(x: int, k: int)
    ensures Low32(x + TWO32 * k) == Low32(x)
  {
  }

  lemma Low32Product(x: int, y: int, x': int, y': int)
    requires Low32(x) == Low32(x') && Low32(y) == Low32(y')
    ensures Low32(x * y) == Low32(x' * y')
  {
    var k, j := x / TWO32 - x' / TWO32, y / TWO32 - y' / TWO32;
    assert x == x' + TWO32 * k && y == y' + TWO32 * j;
    ProductOfShifts(x', y', TWO32, k, j);
    Low32Shift(x' * y', x' * j + k * y' + TWO32 * (k * j));
  }

  lemma Low32Sum(x: int, y: int, x': int, y': int)
    requires Low32(x) == Low32(x') && Low32(y) == Low32(y')
    ensures Low32(x + y) == Low32(x' + y')
  {
  }

  lemma DivwRemwValues(a: u64, b: u64) returns (q: int, r: int)
    ensures Divw(a, b) == Wrap(q) && Remw(a, b) == Wrap(r)
    ensures -0x8000_0000 <= q < 0x8000_0000 && -0x8000_0000 <= r < 0x8000_0000
    ensures Low32(Signed32(b) * q + r) == Low32(a)
  {
    var x, y := Signed32(a), Signed32(b);
    SignedLow32(a);
    if y == 0 {
      q, r := -1, x;
    } else if x == -0x8000_0000 && y == -1 {
      q, r := x, 0;
    } else {
      q, r := TruncDiv(x, y), TruncRem(x, y);
      QuotientFits(x, y, q, r);
    }
  }

  lemma SignedLow32(a: u64)
    ensures Low32(Signed32(a)) == Low32(a) && -0x8000_0000 <= Signed32(a) < 0x8000_0000
  {
  }

  lemma QuotientFits(x: int, y: int, q: int, r: int)
    requires -0x8000_0000 <= x < 0x8000_0000 && -0x8000_0000 <= y < 0x8000_0000 && y != 0
    requires !(x == -0x8000_0000 && y == -1)
    requires q == TruncDiv(x, y) && r == TruncRem(x, y)
    ensures -0x8000_0000 <= q < 0x8000_0000 && -0x8000_0000 <= r < 0x8000_0000
    ensures y * q + r == x
  {
    TruncatingDivision(x, y);
  }

  /** DIVW and REMW results are sign-extended 32-bit values, and MULW(DIVW(a, b), b) + REMW(a, b)
      agrees with a in the low 32 bits, for all operands. */
  lemma SignedDivisionIdentity32(a: u64, b: u64)
    ensures Divw(a, b) == Wrap(Signed32(Divw(a, b))) && Remw(a, b) == Wrap(Signed32(Remw(a, b)))
    ensures Low32(Mul(Divw(a, b), b) + Remw(a, b)) == Low32(a)
  {
    var q, r := DivwRemwValues(a, b);
    SignedLow32(b);
    Recompose32(q, Signed32(b), r, b);
    SignExtended(q);
    SignExtended(r);
  }

  lemma SignExtended(q: int)
    requires -0x8000_0000 <= q < 0x8000_0000
    ensures Wrap(q) == Wrap(Signed32(Wrap(q)))
  {
  }

  lemma Recompose32(q: int, y: int, r: int, b: u64)
    requires Low32(y) == Low32(b)
    ensures Low32(Wrap(Wrap(q) * b) + Wrap(r)) == Low32(y * q + r)
  {
    var d := Wrap(q);
    Low32OfWrap(q);
    Low32OfWrap(r);
    Low32OfWrap(d * b);
    Low32Product(d, b, q, y);
    Low32Sum(Wrap(d * b), Wrap(r), q * y, r);
    assert q * y == y * q;
  }

  lemma SignExtensionFits(q: u32)
    ensures q == Wrap(Signed32(q)) <==> q < 0x8000_0000
  {
  }

  /** The results of DIVUW and REMUW by their defining equation, a zero divisor included. */
  lemma DivuwRemuwValues(a: u64, b: u64)
    ensures var x, y, q, r := Low32(a), Low32(b), Divuw(a, b), Remuw(a, b);
            if y == 0 then q == TWO64 - 1 && r == x else q < TWO32 && q * y + r == x && r < y
  {
    var x, y := Low32(a), Low32(b);
    if y != 0 {
      FloorProduct(x, y);
      ExactQuotient(x, y, Quotient(x, y), x % y);
    }
  }

  /** MULW(DIVUW(a, b), b) + REMUW(a, b) agrees with a in the low 32 bits, for all operands; for a
      divisor whose low half is not zero the two divide the low halves exactly. Their results are
      zero-extended where the ISA sign-extends them. For DIVUW that differs exactly when a number from
      2^31 on is divided by one, for REMUW when such a number is left over: undivided, or smaller than
      the divisor. */
  lemma UnsignedDivisionIdentity32(a: u64, b: u64)
    ensures Low32(Mul(Divuw(a, b), b) + Remuw(a, b)) == Low32(a)
    ensures Low32(b) != 0 ==>
              Divuw(a, b) * Low32(b) + Remuw(a, b) == Low32(a) && Remuw(a, b) < Low32(b)
    ensures Divuw(a, b) == Wrap(Signed32(Divuw(a, b))) <==> Low32(b) != 1 || Low32(a) < 0x8000_0000
    ensures Remuw(a, b) == Wrap(Signed32(Remuw(a, b)))
       <==> var x, y := Low32(a), Low32(b);
            x < 0x8000_0000 || (y != 0 && (y <= 0x8000_0000 || x >= y))
  {
    var x, y, q, r := Low32(a), Low32(b), Divuw(a, b), Remuw(a, b);
    DivuwRemuwValues(a, b);
    RecomposeUnsigned32(a, b, q, r);
    if y != 0 {
      LargeQuotient(x, y, q, r);
      LargeRemainder(x, y, q, r);
    }
  }

  lemma LargeQuotient(x: u32, y: u32, q: nat, r: nat)
    requires q * y + r == x && r < y
    ensures q < 0x8000_0000 <==> y != 1 || x < 0x8000_0000
  {
    if y > 1 && q >= 0x8000_0000 {
      MulGap(q, y, 1);
    }
  }

  lemma LargeRemainder(x: u32, y: u32, q: nat, r: nat)
    requires q * y + r == x && r < y
    ensures r < 0x8000_0000 <==> x < 0x8000_0000 || y <= 0x8000_0000 || x >= y
  {
    if q == 0 {
      assert r == x;
    } else {
      MulGap(y, q, 0);
      assert q * y == y * q;
    }
  }

  lemma RecomposeUnsigned32(a: u64, b: u64, q: u64, r: u64)
    requires var x, y := Low32(a), Low32(b);
             if y == 0 then q == TWO64 - 1 && r == x else q < TWO32 && q * y + r == x && r < y
    ensures Low32(Mul(q, b) + r) == Low32(a)
    ensures q == Wrap(Signed32(q)) <==> Low32(b) == 0 || q < 0x8000_0000
    ensures r == Wrap(Signed32(r)) <==> r < 0x8000_0000
  {
    SignExtensionFits(r);
    if Low32(b) != 0 { SignExtensionFits(q); }
    LowOfSum(a, b, q, r, Low32(b));
  }

  lemma LowOfSum(a: u64, b: u64, q: u64, r: u64, y: u32)
    requires y == Low32(b) && q * y + r == Low32(a)
    ensures Low32(Mul(q, b) + r) == Low32(a)
  {
    assert Low32(y) == Low32(b) && Low32(Low32(a)) == Low32(a);
    ProductThenSum(q, b, y, r);
  }

  lemma ProductThenSum(q: u64, b: u64, y: u32, r: u64)
    requires Low32(y) == Low32(b)
    ensures Low32(Wrap(q * b) + r) == Low32(q * y + r)
  {
    assert Low32(Wrap(q * b)) == Low32(q * y) by {
      Low32OfWrap(q * b);
      Low32Product(q, b, q, y);
    }
    Low32Sum(Wrap(q * b), r, q * y, r);
  }
}

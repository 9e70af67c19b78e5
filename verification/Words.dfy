/** Machine words as numbers.

    Registers, CSRs, addresses and instruction words are natural numbers below a power of
    two, and every wrap-around, truncation and sign change of the C++ code is written out.
    The bitwise operators are defined bit by bit; the lemmas here are what the other
    modules know about them. */
module Words {

  const TWO32: int := 0x1_0000_0000
  const TWO63: int := 0x8000_0000_0000_0000
  const TWO64: int := 0x1_0000_0000_0000_0000

  type byte = x: int | 0 <= x < 256
  type u32 = x: int | 0 <= x < 0x1_0000_0000
  type u64 = x: int | 0 <= x < 0x1_0000_0000_0000_0000

  /** Conversion of any integer to `uint64_t`. */
  function Wrap(x: int): u64 {
    x % TWO64
  }

  /** `static_cast<int64_t>` of a `uint64_t`. */
  function Signed64(x: u64): int {
    if x < TWO63 then x else x - TWO64
  }

  /** `static_cast<uint32_t>`. */
  function Low32(x: int): u32 {
    x % TWO32
  }

  /** `static_cast<int32_t>`. */
  function Signed32(x: int): int {
    if Low32(x) < 0x8000_0000 then Low32(x) else Low32(x) - TWO32
  }

  function Pow2(n: nat): (p: nat)
    ensures p > 0
  {
    if n == 0 then 1 else 2 * Pow2(n - 1)
  }

  lemma {:induction false} Pow2Add(m: nat, n: nat)
    ensures Pow2(m + n) == Pow2(m) * Pow2(n)
  {
    if m > 0 {
      Pow2Add(m - 1, n);
    }
  }

  lemma Pow2Values()
    ensures Pow2(1) == 2 && Pow2(2) == 4 && Pow2(3) == 8 && Pow2(5) == 32 && Pow2(7) == 128
    ensures Pow2(8) == 256 && Pow2(16) == 65536
    ensures Pow2(32) == TWO32 && Pow2(63) == TWO63 && Pow2(64) == TWO64
  {
    assert Pow2(5) == 32 && Pow2(8) == 256;
    Pow2Add(8, 8);
    Pow2Add(16, 16);
    Pow2Add(32, 32);
    Pow2Add(1, 63);
  }

  // ---------------------------------------------------------------- single bits

  /** `(x >> i) & 1`. */
  predicate Bit(x: nat, i: nat) {
    if i == 0 then x % 2 == 1 else Bit(x / 2, i - 1)
  }

  function BitValue(b: bool): nat {
    if b then 1 else 0
  }

  /** `x | (1 << i)` when v holds, `x & ~(1 << i)` when it does not; OrOneBit and AndNotOneBit
      tie it to those operators. */
  function WithBit(x: nat, i: nat, v: bool): (r: nat)
    ensures forall j: nat :: Bit(r, j) == if j == i then v else Bit(x, j)
  {
    var r := if i == 0 then x - x % 2 + BitValue(v) else x % 2 + 2 * WithBit(x / 2, i - 1, v);
    assert forall j: nat :: Bit(r, j) == if j == i then v else Bit(x, j) by {
      forall j: nat
        ensures Bit(r, j) == if j == i then v else Bit(x, j)
      {
        assert i == 0 ==> r / 2 == x / 2;
        assert i > 0 ==> r % 2 == x % 2 && r / 2 == WithBit(x / 2, i - 1, v);
      }
    }
    r
  }

  lemma {:induction false} WithBitBound(x: nat, i: nat, v: bool, n: nat)
    requires x < Pow2(n) && i < n
    ensures WithBit(x, i, v) < Pow2(n)
  {
    if i > 0 {
      WithBitBound(x / 2, i - 1, v, n - 1);
    }
  }

  /** A 64-bit word with one bit replaced. */
  function Put(x: u64, i: nat, v: bool): (r: u64)
    requires i < 64
    ensures forall j: nat :: Bit(r, j) == if j == i then v else Bit(x, j)
  {
    Pow2Values();
    WithBitBound(x, i, v, 64);
    WithBit(x, i, v)
  }

  /** Two words with the same bits are the same word. */
  lemma {:induction false} SameBits(x: nat, y: nat)
    requires forall i: nat :: Bit(x, i) == Bit(y, i)
    ensures x == y
    decreases x + y
  {
    assert Bit(x, 0) == Bit(y, 0);
    if x + y > 0 {
      if x / 2 + y / 2 < x + y {
        forall i: nat
          ensures Bit(x / 2, i) == Bit(y / 2, i)
        {
          assert Bit(x, i + 1) == Bit(y, i + 1);
        }
        SameBits(x / 2, y / 2);
      }
    }
  }

  lemma {:induction false} BitAboveBound(x: nat, n: nat, i: nat)
    requires x < Pow2(n) && n <= i
    ensures !Bit(x, i)
  {
    if n == 0 {
      if i > 0 { BitAboveBound(0, 0, i - 1); }
    } else {
      BitAboveBound(x / 2, n - 1, i - 1);
    }
  }

  lemma {:induction false} BitOfPow2(i: nat, j: nat)
    ensures Bit(Pow2(i), j) == (i == j)
  {
    if i == 0 {
      if j > 0 { BitAboveBound(1, 1, j); }
    } else if j > 0 {
      BitOfPow2(i - 1, j - 1);
    }
  }

  // ---------------------------------------------------------------- bitwise operators

  datatype BitOp = AndOp | OrOp | XorOp {
    predicate Apply(a: bool, b: bool) {
      match this
      case AndOp => a && b
      case OrOp => a || b
      case XorOp => a != b
    }
  }

  function Combine(op: BitOp, x: nat, y: nat): nat
    decreases x + y
  {
    if x == 0 && y == 0 then 0
    else BitValue(op.Apply(x % 2 == 1, y % 2 == 1)) + 2 * Combine(op, x / 2, y / 2)
  }

  lemma {:induction false} CombineBit(op: BitOp, x: nat, y: nat, i: nat)
    ensures Bit(Combine(op, x, y), i) == op.Apply(Bit(x, i), Bit(y, i))
    decreases i
  {
    if x == 0 && y == 0 {
      BitAboveBound(0, 0, i);
    } else if i > 0 {
      CombineBit(op, x / 2, y / 2, i - 1);
    }
  }

  lemma {:induction false} CombineBound(op: BitOp, x: nat, y: nat, n: nat)
    requires x < Pow2(n) && y < Pow2(n)
    ensures Combine(op, x, y) < Pow2(n)
    decreases n
  {
    if n > 0 && !(x == 0 && y == 0) {
      CombineBound(op, x / 2, y / 2, n - 1);
    }
  }

  /** `&`, `|` and `^` on `uint64_t`. */
  function Bitwise(op: BitOp, x: u64, y: u64): (r: u64)
    ensures forall i: nat :: Bit(r, i) == op.Apply(Bit(x, i), Bit(y, i))
  {
    Pow2Values();
    CombineBound(op, x, y, 64);
    assert forall i: nat :: Bit(Combine(op, x, y), i) == op.Apply(Bit(x, i), Bit(y, i)) by {
      forall i: nat { CombineBit(op, x, y, i); }
    }
    Combine(op, x, y)
  }

  function And(x: u64, y: u64): u64 { Bitwise(AndOp, x, y) }
  function Or(x: u64, y: u64): u64 { Bitwise(OrOp, x, y) }
  function Xor(x: u64, y: u64): u64 { Bitwise(XorOp, x, y) }

  /** `~x`. */
  function Not(x: u64): u64 {
    TWO64 - 1 - x
  }

  lemma {:induction false} NotBit(x: nat, n: nat, i: nat)
    requires x < Pow2(n) && i < n
    ensures Bit(Pow2(n) - 1 - x, i) == !Bit(x, i)
    decreases i
  {
    var y := Pow2(n) - 1 - x;
    assert y % 2 == 1 - x % 2 && y / 2 == Pow2(n - 1) - 1 - x / 2;
    if i > 0 {
      NotBit(x / 2, n - 1, i - 1);
    }
  }

  lemma Pow2Below(i: nat, n: nat)
    requires i < n
    ensures Pow2(i) < Pow2(n)
  {
    Pow2Add(n - i, i);
    assert Pow2(n - i) >= 2;
  }

  /** The source's `x | (1 << i)`. */
  lemma OrOneBit(x: u64, i: nat)
    requires i < 64
    ensures Pow2(i) < TWO64 && Or(x, Pow2(i)) == Put(x, i, true)
  {
    Pow2Values();
    Pow2Below(i, 64);
    forall j: nat
      ensures Bit(Or(x, Pow2(i)), j) == Bit(Put(x, i, true), j)
    {
      BitOfPow2(i, j);
    }
    SameBits(Or(x, Pow2(i)), Put(x, i, true));
  }

  lemma NotOneBit(i: nat, j: nat)
    requires i < 64 && j < 64
    ensures Pow2(i) < TWO64 && Bit(Not(Pow2(i)), j) == (j != i)
  {
    Pow2Values();
    Pow2Below(i, 64);
    NotBit(Pow2(i), 64, j);
    BitOfPow2(i, j);
  }

  lemma NoBitsAbove64(x: u64, j: nat)
    requires j >= 64
    ensures !Bit(x, j)
  {
    Pow2Values();
    BitAboveBound(x, 64, j);
  }

  /** The source's `x & ~(1 << i)`. */
  lemma AndNotOneBit(x: u64, i: nat)
    requires i < 64
    ensures Pow2(i) < TWO64 && And(x, Not(Pow2(i))) == Put(x, i, false)
  {
    NotOneBit(i, i);
    var m := Not(Pow2(i));
    forall j: nat
      ensures Bit(And(x, m), j) == Bit(Put(x, i, false), j)
    {
      if j < 64 { NotOneBit(i, j); } else { NoBitsAbove64(x, j); }
    }
    SameBits(And(x, m), Put(x, i, false));
  }

  lemma OrWithZero(x: u64)
    ensures Or(x, 0) == x && Or(x, x) == x
  {
    forall i: nat ensures !Bit(0, i) { BitAboveBound(0, 0, i); }
    SameBits(Or(x, 0), x);
    SameBits(Or(x, x), x);
  }

  lemma AndXorWithZero(x: u64)
    ensures And(x, 0) == 0 && And(x, x) == x && Xor(x, 0) == x && Xor(x, x) == 0
  {
    forall i: nat ensures !Bit(0, i) { BitAboveBound(0, 0, i); }
    SameBits(And(x, 0), 0);
    SameBits(And(x, x), x);
    SameBits(Xor(x, 0), x);
    SameBits(Xor(x, x), 0);
  }

  /** `x & ~1`. */
  function EvenFloor(x: u64): u64 {
    x - x % 2
  }

  lemma EvenFloorIsPut(x: u64)
    ensures EvenFloor(x) == Put(x, 0, false) == And(x, Not(1))
  {
    AndNotOneBit(x, 0);
  }

  // ---------------------------------------------------------------- masks and fields

  /** The k lowest bits, and what is above them. */
  function Lo(x: nat, k: nat): nat {
    if k == 0 then 0 else x % 2 + 2 * Lo(x / 2, k - 1)
  }

  function Hi(x: nat, k: nat): nat {
    if k == 0 then x else Hi(x / 2, k - 1)
  }

  lemma {:induction false} LoHi(x: nat, k: nat)
    ensures x == Lo(x, k) + Pow2(k) * Hi(x, k) && Lo(x, k) < Pow2(k)
  {
    if k > 0 {
      LoHi(x / 2, k - 1);
      DoubleProduct(Pow2(k - 1), Hi(x / 2, k - 1));
    }
  }

  lemma {:induction false} LoHiOfParts(lo: nat, hi: nat, k: nat)
    requires lo < Pow2(k)
    ensures Lo(lo + Pow2(k) * hi, k) == lo && Hi(lo + Pow2(k) * hi, k) == hi
  {
    if k > 0 {
      var p := Pow2(k - 1);
      assert (2 * p) * hi == 2 * (p * hi);
      assert (lo + 2 * (p * hi)) / 2 == lo / 2 + p * hi;
      LoHiOfParts(lo / 2, hi, k - 1);
    }
  }

  lemma DivModUnique(x: nat, d: nat, q: nat, r: nat)
    requires d > 0 && x == d * q + r && r < d
    ensures x / d == q && x % d == r
  {
    var q', r' := x / d, x % d;
    assert d * q' + r' == d * q + r;
    if q' > q {
      MulGap(d, q', q);
    } else if q > q' {
      MulGap(d, q, q');
    }
  }

  lemma MulGap(d: nat, a: nat, b: nat)
    requires a > b
    ensures d * a >= d * b + d
  {
    var k: nat := a - b - 1;
    assert d * (b + 1 + k) == d * b + d + d * k;
  }

  lemma LoHiAreModDiv(x: nat, k: nat)
    ensures Lo(x, k) == x % Pow2(k) && Hi(x, k) == x / Pow2(k)
  {
    LoHi(x, k);
    DivModUnique(x, Pow2(k), Hi(x, k), Lo(x, k));
  }

  /** Bit is the source's `(x >> i) & 1`. */
  lemma {:induction false} BitIsShift(x: nat, i: nat)
    ensures Bit(x, i) == (x / Pow2(i) % 2 == 1)
  {
    LoHiAreModDiv(x, i);
    BitIsHi(x, i);
  }

  lemma {:induction false} BitIsHi(x: nat, i: nat)
    ensures Bit(x, i) == (Hi(x, i) % 2 == 1)
  {
    if i > 0 {
      BitIsHi(x / 2, i - 1);
    }
  }

  lemma {:induction false} BitOfLow(x: nat, n: nat, i: nat)
    ensures Bit(Lo(x, n), i) == (i < n && Bit(x, i))
    decreases n
  {
    if n == 0 {
      BitAboveBound(0, 0, i);
    } else if i > 0 {
      BitOfLow(x / 2, n - 1, i - 1);
    }
  }

  lemma {:induction false} HiBits(a: nat, n: nat, i: nat)
    ensures Bit(Hi(a, n), i) == Bit(a, i + n)
    decreases n
  {
    if n > 0 {
      HiBits(a / 2, n - 1, i);
    }
  }

  lemma CombineHalves(op: BitOp, x: nat, y: nat)
    ensures Combine(op, x, y) == BitValue(op.Apply(x % 2 == 1, y % 2 == 1)) + 2 * Combine(op, x / 2, y / 2)
  {
  }

  lemma DoubleProduct(p: nat, q: nat)
    ensures (2 * p) * q == 2 * (p * q)
  {
  }

  /** The operators split at any bit position. */
  lemma {:induction false} CombineSplit(op: BitOp, x: nat, y: nat, k: nat)
    ensures Combine(op, x, y)
         == Combine(op, Lo(x, k), Lo(y, k)) + Pow2(k) * Combine(op, Hi(x, k), Hi(y, k))
    decreases k
  {
    if k > 0 {
      CombineSplit(op, x / 2, y / 2, k - 1);
      CombineHalves(op, x, y);
      var a, b := Lo(x, k), Lo(y, k);
      CombineHalves(op, a, b);
      assert a / 2 == Lo(x / 2, k - 1) && b / 2 == Lo(y / 2, k - 1);
      DoubleProduct(Pow2(k - 1), Combine(op, Hi(x, k), Hi(y, k)));
    }
  }

  lemma {:induction false} AndOnes(x: nat, k: nat)
    ensures Combine(AndOp, Lo(x, k), Pow2(k) - 1) == Lo(x, k)
    decreases k
  {
    if k > 0 {
      AndOnes(x / 2, k - 1);
      assert Lo(x, k) / 2 == Lo(x / 2, k - 1);
      assert (Pow2(k) - 1) / 2 == Pow2(k - 1) - 1 && (Pow2(k) - 1) % 2 == 1;
    }
  }

  lemma {:induction false} AndZero(x: nat)
    ensures Combine(AndOp, x, 0) == 0
  {
    if x > 0 {
      AndZero(x / 2);
    }
  }

  /** A mask k whose n lowest bits are ones keeps those bits. */
  lemma AndKeep(lo: nat, hi: nat, n: nat, p: nat, m: nat, k: nat)
    requires p == Pow2(n) && lo < p && k == p - 1 + p * m
    ensures Combine(AndOp, lo + p * hi, k) == lo + p * Combine(AndOp, hi, m)
  {
    var x := lo + p * hi;
    LoHiOfParts(lo, hi, n);
    LoHiOfParts(p - 1, m, n);
    CombineSplit(AndOp, x, k, n);
    AndOnes(x, n);
  }

  /** A mask whose n lowest bits are zeros drops those bits. */
  lemma AndSkip(lo: nat, hi: nat, n: nat, p: nat, m: nat)
    requires p == Pow2(n) && lo < p
    ensures Combine(AndOp, lo + p * hi, p * m) == p * Combine(AndOp, hi, m)
  {
    LoHiOfParts(lo, hi, n);
    LoHiOfParts(0, m, n);
    CombineSplit(AndOp, lo + p * hi, p * m, n);
    AndZero(lo);
  }

  /** Disjoint pieces: `|` of a low part and a shifted part is their sum. */
  lemma {:induction false} OrDisjoint(lo: nat, hi: nat, k: nat)
    requires lo < Pow2(k)
    ensures Combine(OrOp, lo, Pow2(k) * hi) == lo + Pow2(k) * hi
    decreases k, hi
  {
    if k > 0 {
      assert Pow2(k) * hi == 2 * (Pow2(k - 1) * hi);
      if !(lo == 0 && Pow2(k) * hi == 0) {
        OrDisjoint(lo / 2, hi, k - 1);
      }
    } else if hi > 0 {
      OrDisjoint(0, hi / 2, 0);
    }
  }

  /** `(x >> s) & ((1 << n) - 1)` is a field of x. */
  lemma MaskIsRemainder(x: nat, n: nat, p: nat)
    requires p == Pow2(n)
    ensures Combine(AndOp, x, p - 1) == x % p
  {
    LoHi(x, n);
    LoHiAreModDiv(x, n);
    AndKeep(Lo(x, n), Hi(x, n), n, p, 0, p - 1);
    AndZero(Hi(x, n));
  }

  /** A conjunction is no longer than either operand. */
  lemma {:induction false} AndBelow(x: nat, y: nat, n: nat)
    requires y < Pow2(n)
    ensures Combine(AndOp, x, y) < Pow2(n)
    decreases n
  {
    if n == 0 {
      AndZero(x);
    } else {
      CombineHalves(AndOp, x, y);
      AndBelow(x / 2, y / 2, n - 1);
    }
  }

  /** How many bits are set. */
  function PopCount(x: nat): nat {
    if x == 0 then 0 else x % 2 + PopCount(x / 2)
  }
}

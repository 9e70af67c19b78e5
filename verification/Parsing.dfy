/** `parse_instruction` as the source writes it, with its masks, shifts and `|`, against Isa.Parse. */
module Parsing {
  import opened Words
  import opened Division
  import opened Isa

  /** `mask<start, end>(w)`. */
  function Mask(w: u32, start: nat, end: nat): nat
    requires start <= end
  {
    Combine(AndOp, Quotient(w, Pow2(start)), Pow2(end - start + 1) - 1)
  }

  /** `mask_and_shift<start, end, dest>(w)`; in every use below the result fits 32 bits. */
  function MaskAndShift(w: u32, start: nat, end: nat, dest: nat): nat
    requires start <= end
  {
    Mask(w, start, end) * Pow2(dest)
  }

  function Or2(a: nat, b: nat): nat {
    Combine(OrOp, a, b)
  }

  /** The six specialisations of `parse_instruction`, expression by expression. */
  function SourceParse(format: Format, w: u32): Fields {
    var opcode, rd, funct3 := Mask(w, 0, 6), Mask(w, 7, 11), Mask(w, 12, 14);
    var rs1, rs2, funct7 := Mask(w, 15, 19), Mask(w, 20, 24), Mask(w, 25, 31);
    match format
    case R => Fields(opcode, rd, funct3, rs1, rs2, funct7, 0)
    case I => Fields(opcode, rd, funct3, rs1, 0, 0, Mask(w, 20, 31))
    case S => Fields(opcode, 0, funct3, rs1, rs2, 0, Or2(Mask(w, 7, 11), MaskAndShift(w, 25, 31, 5)))
    case B =>
      Fields(opcode, 0, funct3, rs1, rs2, 0,
             Or2(Or2(Or2(MaskAndShift(w, 7, 7, 11), MaskAndShift(w, 8, 11, 1)),
                     MaskAndShift(w, 25, 30, 5)),
                 MaskAndShift(w, 31, 31, 12)))
    case U => Fields(opcode, rd, 0, 0, 0, 0, MaskAndShift(w, 12, 31, 12))
    case J =>
      Fields(opcode, rd, 0, 0, 0, 0,
             Or2(Or2(Or2(MaskAndShift(w, 21, 30, 1), MaskAndShift(w, 20, 20, 11)),
                     MaskAndShift(w, 12, 19, 12)),
                 MaskAndShift(w, 31, 31, 20)))
  }

  // ---------------------------------------------------------------- masks

  /** A mask is a quotient and a remainder, with the powers of two as numbers. */
  lemma MaskIsField(w: u32, start: nat, end: nat, p: nat, q: nat, x: nat)
    requires start <= end && p == Pow2(start) && q == Pow2(end - start + 1) && x == w / p
    ensures Mask(w, start, end) == x % q
  {
    MaskIsRemainder(x, end - start + 1, q);
  }

  lemma PowersBelow32()
    ensures Pow2(0) == 1 && Pow2(1) == 2 && Pow2(3) == 8 && Pow2(4) == 0x10 && Pow2(5) == 0x20
    ensures Pow2(6) == 0x40 && Pow2(7) == 0x80 && Pow2(8) == 0x100 && Pow2(10) == 0x400
    ensures Pow2(11) == 0x800 && Pow2(12) == 0x1000 && Pow2(15) == 0x8000 && Pow2(20) == 0x10_0000
    ensures Pow2(21) == 0x20_0000 && Pow2(25) == 0x200_0000 && Pow2(31) == 0x8000_0000
  {
    Pow2Values();
    assert Pow2(4) == 0x10;
    Pow2Add(5, 5);
    Pow2Add(1, 10);
    Pow2Add(5, 7);
    Pow2Add(7, 8);
    Pow2Add(5, 15);
    Pow2Add(1, 20);
    Pow2Add(5, 20);
    Pow2Add(1, 31);
  }

  lemma WholeSlices(w: u32)
    ensures Split(w) == Slices(w % 0x80, w / 0x80 % 0x20, w / 0x1000 % 8, w / 0x8000 % 0x20,
                               w / 0x10_0000 % 0x20, w / 0x200_0000)
  {
    DivDiv(w, 0x80, 0x20);
    DivDiv(w, 0x1000, 8);
    DivDiv(w, 0x8000, 0x20);
    DivDiv(w, 0x10_0000, 0x20);
  }

  lemma OpcodeMask(w: u32)
    ensures Mask(w, 0, 6) == w % 0x80
  {
    assert Pow2(0) == 1 && Pow2(7) == 0x80 by { PowersBelow32(); }
    MaskIsField(w, 0, 6, 1, 0x80, w);
  }

  lemma RegisterMasks(w: u32)
    ensures Mask(w, 7, 11) == w / 0x80 % 0x20 && Mask(w, 15, 19) == w / 0x8000 % 0x20
    ensures Mask(w, 20, 24) == w / 0x10_0000 % 0x20
  {
    assert Pow2(5) == 0x20 && Pow2(7) == 0x80 && Pow2(15) == 0x8000 && Pow2(20) == 0x10_0000 by {
      PowersBelow32();
    }
    MaskIsField(w, 7, 11, 0x80, 0x20, w / 0x80);
    MaskIsField(w, 15, 19, 0x8000, 0x20, w / 0x8000);
    MaskIsField(w, 20, 24, 0x10_0000, 0x20, w / 0x10_0000);
  }

  lemma FunctMasks(w: u32)
    ensures Mask(w, 12, 14) == w / 0x1000 % 8 && Mask(w, 25, 31) == w / 0x200_0000
  {
    assert Pow2(3) == 8 && Pow2(7) == 0x80 && Pow2(12) == 0x1000 && Pow2(25) == 0x200_0000 by {
      PowersBelow32();
    }
    MaskIsField(w, 12, 14, 0x1000, 8, w / 0x1000);
    MaskIsField(w, 25, 31, 0x200_0000, 0x80, w / 0x200_0000);
  }

  /** The six slices are the masks that the R format uses. */
  lemma SlicesAreMasks(w: u32)
    ensures Split(w) == Slices(Mask(w, 0, 6), Mask(w, 7, 11), Mask(w, 12, 14), Mask(w, 15, 19),
                               Mask(w, 20, 24), Mask(w, 25, 31))
  {
    WholeSlices(w);
    OpcodeMask(w);
    RegisterMasks(w);
    FunctMasks(w);
  }

  // The masks that cut slices or join them.

  lemma CutField(x: nat)
    ensures x % 2 == x % 0x20 % 2 && x / 2 % 0x10 == x % 0x20 / 2
  {
  }

  lemma RdPieces(w: u32)
    ensures Mask(w, 7, 7) == Split(w).rd % 2 && Mask(w, 8, 11) == Split(w).rd / 2
  {
    var x := w / 0x80;
    assert Split(w).rd == x % 0x20;
    CutField(x);
    assert w / 0x100 == x / 2;
    assert Pow2(1) == 2 && Pow2(4) == 0x10 && Pow2(7) == 0x80 && Pow2(8) == 0x100 by { PowersBelow32(); }
    MaskIsField(w, 7, 7, 0x80, 2, x);
    MaskIsField(w, 8, 11, 0x100, 0x10, x / 2);
  }

  lemma Funct7Pieces(w: u32)
    ensures Mask(w, 25, 30) == Split(w).funct7 % 0x40 && Mask(w, 31, 31) == Split(w).funct7 / 0x40
  {
    var x := w / 0x200_0000;
    assert Split(w).funct7 == x by { WholeSlices(w); }
    assert w / 0x8000_0000 == x / 0x40;
    assert Pow2(1) == 2 && Pow2(6) == 0x40 && Pow2(25) == 0x200_0000 && Pow2(31) == 0x8000_0000 by {
      PowersBelow32();
    }
    MaskIsField(w, 25, 30, 0x200_0000, 0x40, x);
    MaskIsField(w, 31, 31, 0x8000_0000, 2, x / 0x40);
  }

  lemma TopParts(w: u32)
    ensures var s := Split(w);
            && w / 0x10_0000 == s.rs2 + 0x20 * s.funct7
            && w / 0x1000 == s.funct3 + 8 * (s.rs1 + 0x20 * (s.rs2 + 0x20 * s.funct7))
  {
    DivDiv(w, 0x80, 0x20);
    DivDiv(w, 0x1000, 8);
    DivDiv(w, 0x8000, 0x20);
  }

  lemma CutTop(q: nat, t: nat, x: nat)
    requires q < 0x20 && t < 0x80 && x == q + 0x20 * t
    ensures x % 2 == q % 2 && x / 2 % 0x400 == q / 2 + 0x10 * (t % 0x40) && x % 0x1000 == x
  {
    var y := q / 2 + 0x10 * (t % 0x40);
    assert x / 2 == q / 2 + 0x10 * t;
    assert 0x10 * t == 0x10 * (t % 0x40) + 0x400 * (t / 0x40);
    DivModUnique(x / 2, 0x400, t / 0x40, y);
  }

  lemma LowEight(f: nat, r: nat, m: nat)
    requires f < 8 && r < 0x20
    ensures (f + 8 * (r + 0x20 * m)) % 0x100 == f + 8 * r
  {
    DivModUnique(f + 8 * (r + 0x20 * m), 0x100, m, f + 8 * r);
  }

  lemma MiddleMask(w: u32)
    ensures Mask(w, 12, 19) == Split(w).funct3 + 8 * Split(w).rs1
  {
    var s := Split(w);
    TopParts(w);
    LowEight(s.funct3, s.rs1, s.rs2 + 0x20 * s.funct7);
    assert Pow2(8) == 0x100 && Pow2(12) == 0x1000 by { PowersBelow32(); }
    MaskIsField(w, 12, 19, 0x1000, 0x100, w / 0x1000);
  }

  lemma TopMasks(w: u32)
    ensures var s := Split(w);
            && Mask(w, 20, 20) == s.rs2 % 2 && Mask(w, 21, 30) == s.rs2 / 2 + 0x10 * (s.funct7 % 0x40)
            && Mask(w, 20, 31) == s.rs2 + 0x20 * s.funct7
  {
    var s, x := Split(w), w / 0x10_0000;
    assert x == s.rs2 + 0x20 * s.funct7 by { TopParts(w); }
    CutTop(s.rs2, s.funct7, x);
    assert w / 0x20_0000 == x / 2;
    assert Pow2(1) == 2 && Pow2(10) == 0x400 && Pow2(12) == 0x1000 && Pow2(20) == 0x10_0000
        && Pow2(21) == 0x20_0000 by { PowersBelow32(); }
    MaskIsField(w, 20, 20, 0x10_0000, 2, x);
    MaskIsField(w, 21, 30, 0x20_0000, 0x400, x / 2);
    MaskIsField(w, 20, 31, 0x10_0000, 0x1000, x);
  }

  lemma UpperMask(w: u32)
    ensures var s := Split(w);
            Mask(w, 12, 31) == s.funct3 + 8 * s.rs1 + 0x100 * s.rs2 + 0x2000 * s.funct7
  {
    TopParts(w);
    assert Pow2(12) == 0x1000 && Pow2(20) == 0x10_0000 by { PowersBelow32(); }
    MaskIsField(w, 12, 31, 0x1000, 0x10_0000, w / 0x1000);
  }

  // ---------------------------------------------------------------- joining pieces

  lemma OrNext(a: nat, b: nat, k: nat, p: nat)
    requires p == Pow2(k) && a < p
    ensures Or2(a, b * p) == a + b * p
  {
    OrDisjoint(a, b, k);
    assert b * p == p * b;
  }

  /** `|` of pieces in ascending positions is their sum. */
  lemma JoinFour(a: nat, b: nat, c: nat, d: nat, i: nat, j: nat, k: nat, p: nat, q: nat, r: nat)
    requires p == Pow2(i) && q == Pow2(j) && r == Pow2(k)
    requires a < p && a + b * p < q && a + b * p + c * q < r
    ensures Or2(Or2(Or2(a, b * p), c * q), d * r) == a + b * p + c * q + d * r
  {
    OrNext(a, b, i, p);
    OrNext(a + b * p, c, j, q);
    OrNext(a + b * p + c * q, d, k, r);
  }

  /** The order of the pieces does not matter: the B format starts with bit 11. */
  lemma OrRotate(a: nat, b: nat, c: nat)
    ensures Or2(Or2(c, a), b) == Or2(Or2(a, b), c)
  {
    forall i: nat
      ensures Bit(Or2(Or2(c, a), b), i) == Bit(Or2(Or2(a, b), c), i)
    {
      CombineBit(OrOp, c, a, i);
      CombineBit(OrOp, Or2(c, a), b, i);
      CombineBit(OrOp, a, b, i);
      CombineBit(OrOp, Or2(a, b), c, i);
    }
    SameBits(Or2(Or2(c, a), b), Or2(Or2(a, b), c));
  }

  lemma BranchJoins(a: nat, b: nat, c: nat, d: nat)
    requires a < 0x10 && b < 0x40 && c < 2 && d < 2
    ensures Or2(Or2(Or2(c * 0x800, a * 2), b * 0x20), d * 0x1000) == a * 2 + b * 0x20 + c * 0x800 + d * 0x1000
  {
    assert Or2(Or2(c * 0x800, a * 2), b * 0x20) == Or2(Or2(a * 2, b * 0x20), c * 0x800) by {
      OrRotate(a * 2, b * 0x20, c * 0x800);
    }
    assert Pow2(5) == 0x20 && Pow2(11) == 0x800 && Pow2(12) == 0x1000 by { PowersBelow32(); }
    JoinFour(a * 2, b, c, d, 5, 11, 12, 0x20, 0x800, 0x1000);
  }

  lemma JumpJoins(a: nat, b: nat, c: nat, d: nat)
    requires a < 0x400 && b < 2 && c < 0x100 && d < 2
    ensures Or2(Or2(Or2(a * 2, b * 0x800), c * 0x1000), d * 0x10_0000)
         == a * 2 + b * 0x800 + c * 0x1000 + d * 0x10_0000
  {
    assert Pow2(11) == 0x800 && Pow2(12) == 0x1000 && Pow2(20) == 0x10_0000 by { PowersBelow32(); }
    JoinFour(a * 2, b, c, d, 11, 12, 20, 0x800, 0x1000, 0x10_0000);
  }

  lemma StoreJoins(a: nat, b: nat)
    requires a < 0x20
    ensures Or2(a, b * 0x20) == a + b * 0x20
  {
    assert Pow2(5) == 0x20 by { PowersBelow32(); }
    OrNext(a, b, 5, 0x20);
  }

  lemma ParseStore(w: u32)
    ensures Parse(S, w) == SourceParse(S, w)
  {
    var s := Split(w);
    SlicesAreMasks(w);
    StoreJoins(s.rd, s.funct7);
    assert Pow2(5) == 0x20 by { PowersBelow32(); }
  }

  lemma ParseBranch(w: u32)
    ensures Parse(B, w) == SourceParse(B, w)
  {
    var s := Split(w);
    SlicesAreMasks(w);
    RdPieces(w);
    Funct7Pieces(w);
    BranchJoins(s.rd / 2, s.funct7 % 0x40, s.rd % 2, s.funct7 / 0x40);
    assert Pow2(1) == 2 && Pow2(5) == 0x20 && Pow2(11) == 0x800 && Pow2(12) == 0x1000 by { PowersBelow32(); }
  }

  lemma ParseUpper(w: u32)
    ensures Parse(U, w) == SourceParse(U, w)
  {
    SlicesAreMasks(w);
    UpperMask(w);
    assert Pow2(12) == 0x1000 by { PowersBelow32(); }
  }

  lemma ParseJump(w: u32)
    ensures Parse(J, w) == SourceParse(J, w)
  {
    var s := Split(w);
    SlicesAreMasks(w);
    MiddleMask(w);
    TopMasks(w);
    Funct7Pieces(w);
    JumpJoins(s.rs2 / 2 + 0x10 * (s.funct7 % 0x40), s.rs2 % 2, s.funct3 + 8 * s.rs1, s.funct7 / 0x40);
    assert Pow2(1) == 2 && Pow2(11) == 0x800 && Pow2(12) == 0x1000 && Pow2(20) == 0x10_0000 by {
      PowersBelow32();
    }
  }

  /** Isa.Parse is `parse_instruction` for every format and every word. */
  lemma ParseIsSource(format: Format, w: u32)
    ensures Parse(format, w) == SourceParse(format, w)
  {
    match format
    case R => SlicesAreMasks(w);
    case I =>
      SlicesAreMasks(w);
      TopMasks(w);
    case S => ParseStore(w);
    case B => ParseBranch(w);
    case U => ParseUpper(w);
    case J => ParseJump(w);
  }

  /** The operands that the source cuts out of a word. */
  function Operands(format: Format, w: u32): (f: Fields)
    ensures f.rd < 0x20 && f.rs1 < 0x20 && f.rs2 < 0x20 && f.imm < TWO32
    ensures (format == I ==> f.imm < 0x1000) && f == Parse(format, w)
  {
    ParseIsSource(format, w);
    SourceParse(format, w)
  }
}

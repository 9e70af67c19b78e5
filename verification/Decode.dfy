/** `CPU::Decode`: the scan of the instruction table, against a decision tree over opcode,
    funct3 and funct7 that does not know the table. */
module Decode {
  import opened Words
  import opened Isa

  datatype Option<+T> = None | Some(value: T) {
    function Map<X>(f: T -> X): Option<X> {
      match this
      case None => None
      case Some(v) => Some(f(v))
    }
  }

  /** The loop of `CPU::Decode` over any list of entries: the first that matches. */
  function Scan(t: seq<Op>, w: u32): Option<Op> {
    if t == [] then None
    else if Matches(t[0], w) then Some(t[0])
    else Scan(t[1..], w)
  }

  // ---------------------------------------------------------------- masks, slice by slice

  /** The bits that each mask of the table keeps. */
  function Kept(mask: u32, w: u32): nat {
    var s := Split(w);
    match mask
    case 0x0000007f => s.opcode
    case 0x0000707f => s.opcode + 0x1000 * s.funct3
    case 0xfe00707f => s.opcode + 0x1000 * s.funct3 + 0x200_0000 * s.funct7
    case 0xfc00707f => s.opcode + 0x1000 * s.funct3 + 0x400_0000 * (s.funct7 / 2)
    case 0xf800707f => s.opcode + 0x1000 * s.funct3 + 0x800_0000 * (s.funct7 / 4)
    case 0xf9f0707f => s.opcode + 0x1000 * s.funct3 + 0x10_0000 * s.rs2 + 0x800_0000 * (s.funct7 / 4)
    case _ => w
  }

  // One slice at a time, from bit 0 up: a mask keeps it or drops it.

  lemma KeptOpcode(w: u32, m: nat)
    ensures Combine(AndOp, w, 0x7f + 0x80 * m) == Split(w).opcode + 0x80 * Combine(AndOp, w / 0x80, m)
  {
    Pow2Values();
    AndKeep(w % 0x80, w / 0x80, 7, 0x80, m, 0x7f + 0x80 * m);
  }

  lemma Keep3(x: nat, m: nat)
    ensures Combine(AndOp, x, 7 + 8 * m) == x % 8 + 8 * Combine(AndOp, x / 8, m)
  {
    Pow2Values();
    AndKeep(x % 8, x / 8, 3, 8, m, 7 + 8 * m);
  }

  lemma Keep5(x: nat, m: nat)
    ensures Combine(AndOp, x, 0x1f + 0x20 * m) == x % 0x20 + 0x20 * Combine(AndOp, x / 0x20, m)
  {
    Pow2Values();
    AndKeep(x % 0x20, x / 0x20, 5, 0x20, m, 0x1f + 0x20 * m);
  }

  lemma Skip5(x: nat, m: nat)
    ensures Combine(AndOp, x, 0x20 * m) == 0x20 * Combine(AndOp, x / 0x20, m)
  {
    Pow2Values();
    AndSkip(x % 0x20, x / 0x20, 5, 0x20, m);
  }

  /** Masks of the shape 0x..00707f: the opcode, funct3, and what m keeps from bit 15 up. */
  lemma KeptFunct3(w: u32, m: nat)
    ensures Combine(AndOp, w, 0x707f + 0x8000 * m)
         == Split(w).opcode + 0x1000 * Split(w).funct3 + 0x8000 * Combine(AndOp, w / 0x80 / 0x20 / 8, m)
  {
    KeptOpcode(w, 0x20 * (7 + 8 * m));
    Skip5(w / 0x80, 7 + 8 * m);
    Keep3(w / 0x80 / 0x20, m);
  }

  /** Masks that keep nothing between bits 15 and 25. */
  lemma KeptTop(w: u32, m: nat)
    ensures Combine(AndOp, w, 0x707f + 0x200_0000 * m)
         == Split(w).opcode + 0x1000 * Split(w).funct3 + 0x200_0000 * Combine(AndOp, Split(w).funct7, m)
  {
    var c := w / 0x80 / 0x20 / 8;
    KeptFunct3(w, 0x20 * (0x20 * m));
    Skip5(c, 0x20 * m);
    Skip5(c / 0x20, m);
  }

  lemma KeptLow(x: nat, n: nat, p: nat)
    requires p == Pow2(n) && x < p
    ensures Combine(AndOp, x, p - 1) == x
  {
    AndKeep(x, 0, n, p, 0, p - 1);
  }

  lemma KeptFunct7(f: nat)
    requires f < 0x80
    ensures Combine(AndOp, f, 0x7f) == f
  {
    assert Pow2(7) == 0x80 by { Pow2Values(); }
    KeptLow(f, 7, 0x80);
  }

  /** A mask of ones above n zeros drops the n lowest bits. */
  lemma KeptHigh(lo: nat, hi: nat, n: nat, p: nat, k: nat, ones: nat)
    requires p == Pow2(n) && ones + 1 == Pow2(k) && lo < p && hi <= ones
    ensures Combine(AndOp, lo + p * hi, p * ones) == p * hi
  {
    AndSkip(lo, hi, n, p, ones);
    KeptLow(hi, k, ones + 1);
  }

  lemma KeptFunct6(f: nat)
    requires f < 0x80
    ensures Combine(AndOp, f, 0x7e) == f / 2 * 2
  {
    assert Pow2(1) == 2 && Pow2(6) == 0x40 by { Pow2Values(); }
    KeptHigh(f % 2, f / 2, 1, 2, 6, 0x3f);
  }

  lemma KeptFunct5(f: nat)
    requires f < 0x80
    ensures Combine(AndOp, f, 0x7c) == f / 4 * 4
  {
    assert Pow2(2) == 4 && Pow2(5) == 0x20 by { Pow2Values(); }
    KeptHigh(f % 4, f / 4, 2, 4, 5, 0x1f);
  }

  lemma KeptLoadReserved(w: u32)
    ensures And(w, 0xf9f0707f) == Kept(0xf9f0707f, w)
  {
    var c, m := w / 0x80 / 0x20 / 8, 0x1f + 0x20 * 0x7c;
    KeptFunct3(w, 0x20 * m);
    Skip5(c, m);
    Keep5(c / 0x20, 0x7c);
    KeptFunct5(Split(w).funct7);
  }

  lemma KeptWhole(w: u32)
    ensures And(w, 0xffffffff) == w
  {
    Pow2Values();
    KeptLow(w, 32, TWO32);
  }

  lemma KeptFunct7Masks(w: u32)
    ensures And(w, 0xfe00707f) == Kept(0xfe00707f, w)
    ensures And(w, 0xfc00707f) == Kept(0xfc00707f, w)
    ensures And(w, 0xf800707f) == Kept(0xf800707f, w)
  {
    var f := Split(w).funct7;
    assert And(w, 0xfe00707f) == Kept(0xfe00707f, w) by { KeptTop(w, 0x7f); KeptFunct7(f); }
    assert And(w, 0xfc00707f) == Kept(0xfc00707f, w) by { KeptTop(w, 0x7e); KeptFunct6(f); }
    assert And(w, 0xf800707f) == Kept(0xf800707f, w) by { KeptTop(w, 0x7c); KeptFunct5(f); }
  }

  lemma KeptShortMasks(w: u32)
    ensures And(w, 0x7f) == Kept(0x7f, w) && And(w, 0x707f) == Kept(0x707f, w)
  {
    KeptOpcode(w, 0);
    AndZero(w / 0x80);
    KeptFunct3(w, 0);
    AndZero(w / 0x80 / 0x20 / 8);
  }

  lemma KeptIsAnd(op: Op, w: u32)
    ensures And(w, MaskOf(op)) == Kept(MaskOf(op), w)
  {
    KeptShortMasks(w);
    KeptFunct7Masks(w);
    KeptLoadReserved(w);
    KeptWhole(w);
  }

  // ---------------------------------------------------------------- the decision tree

  /** The instruction that a word encodes: five words stand for themselves, all others go by
      opcode, funct3 and funct7. */
  function Classify(w: u32): Option<Op> {
    if w == 0x0000_000f then Some(System(FENCE))
    else if w == 0x0000_0073 then Some(System(ECALL))
    else if w == 0x0010_0073 then Some(System(EBREAK))
    else if w == 0x1020_0073 then Some(System(SRET))
    else if w == 0x3020_0073 then Some(System(MRET))
    else ClassifySlices(Split(w))
  }

  function ClassifySlices(s: Slices): Option<Op> {
    match s.opcode
    case 0x37 => Some(Upper(LUI))
    case 0x17 => Some(Upper(AUIPC))
    case 0x6f => Some(JAL)
    case 0x67 => if s.funct3 == 0 then Some(JALR) else None
    case 0x63 => ClassifyBranch(s.funct3).Map(b => Branch(b))
    case 0x03 => ClassifyLoad(s.funct3).Map(l => Load(l))
    case 0x23 => ClassifyStore(s.funct3).Map(t => Store(t))
    case 0x13 => ClassifyImmediate(s.funct3, s.funct7).Map(i => Immediate(i))
    case 0x33 => ClassifyRegister(s.funct3, s.funct7).Map(r => Register(r))
    case 0x1b => ClassifyImmediate32(s.funct3, s.funct7).Map(i => Immediate32(i))
    case 0x3b => ClassifyRegister32(s.funct3, s.funct7).Map(r => Register32(r))
    case 0x0f => Some(FENCE_I)
    case 0x73 => ClassifyCsr(s.funct3).Map(c => Csr(c))
    case 0x2f =>
      if s.funct3 == 2 then ClassifyAtomic(s.funct7 / 4, s.rs2).Map(a => Atomic(a, Word))
      else if s.funct3 == 3 then ClassifyAtomic(s.funct7 / 4, s.rs2).Map(a => Atomic(a, Double))
      else None
    case _ => None
  }

  function ClassifyBranch(funct3: nat): Option<BranchOp> {
    match funct3
    case 0 => Some(BEQ)
    case 1 => Some(BNE)
    case 4 => Some(BLT)
    case 5 => Some(BGE)
    case 6 => Some(BLTU)
    case 7 => Some(BGEU)
    case _ => None
  }

  function ClassifyLoad(funct3: nat): Option<LoadOp> {
    match funct3
    case 0 => Some(LB)
    case 1 => Some(LH)
    case 2 => Some(LW)
    case 3 => Some(LD)
    case 4 => Some(LBU)
    case 5 => Some(LHU)
    case 6 => Some(LWU)
    case _ => None
  }

  function ClassifyStore(funct3: nat): Option<StoreOp> {
    match funct3
    case 0 => Some(SB)
    case 1 => Some(SH)
    case 2 => Some(SW)
    case 3 => Some(SD)
    case _ => None
  }

  function ClassifyImmediate(funct3: nat, funct7: nat): Option<ImmediateOp> {
    match funct3
    case 0 => Some(ADDI)
    case 1 => if funct7 / 2 == 0 then Some(SLLI) else None
    case 2 => Some(SLTI)
    case 3 => Some(SLTIU)
    case 4 => Some(XORI)
    case 5 => if funct7 / 2 == 0 then Some(SRLI) else if funct7 / 2 == 0x10 then Some(SRAI) else None
    case 6 => Some(ORI)
    case 7 => Some(ANDI)
    case _ => None
  }

  function ClassifyRegister(funct3: nat, funct7: nat): Option<RegisterOp> {
    match (funct7, funct3)
    case (0, 0) => Some(ADD)
    case (0, 1) => Some(SLL)
    case (0, 2) => Some(SLT)
    case (0, 3) => Some(SLTU)
    case (0, 4) => Some(XOR)
    case (0, 5) => Some(SRL)
    case (0, 6) => Some(OR)
    case (0, 7) => Some(AND)
    case (0x20, 0) => Some(SUB)
    case (0x20, 5) => Some(SRA)
    case (1, 0) => Some(MUL)
    case (1, 1) => Some(MULH)
    case (1, 2) => Some(MULHSU)
    case (1, 3) => Some(MULHU)
    case (1, 4) => Some(DIV)
    case (1, 5) => Some(DIVU)
    case (1, 6) => Some(REM)
    case (1, 7) => Some(REMU)
    case _ => None
  }

  /** SRLIW and SRAIW leave bit 25 free, unlike SLLIW. */
  function ClassifyImmediate32(funct3: nat, funct7: nat): Option<Immediate32Op> {
    match funct3
    case 0 => Some(ADDIW)
    case 1 => if funct7 == 0 then Some(SLLIW) else None
    case 5 => if funct7 / 2 == 0 then Some(SRLIW) else if funct7 / 2 == 0x10 then Some(SRAIW) else None
    case _ => None
  }

  function ClassifyRegister32(funct3: nat, funct7: nat): Option<Register32Op> {
    match (funct7, funct3)
    case (0, 0) => Some(ADDW)
    case (0, 1) => Some(SLLW)
    case (0, 5) => Some(SRLW)
    case (0x20, 0) => Some(SUBW)
    case (0x20, 5) => Some(SRAW)
    case (1, 0) => Some(MULW)
    case (1, 4) => Some(DIVW)
    case (1, 5) => Some(DIVUW)
    case (1, 6) => Some(REMW)
    case (1, 7) => Some(REMUW)
    case _ => None
  }

  function ClassifyCsr(funct3: nat): Option<CsrOp> {
    match funct3
    case 1 => Some(CSRRW)
    case 2 => Some(CSRRS)
    case 3 => Some(CSRRC)
    case 5 => Some(CSRRWI)
    case 6 => Some(CSRRSI)
    case 7 => Some(CSRRCI)
    case _ => None
  }

  function ClassifyAtomic(funct5: nat, rs2: nat): Option<AtomicOp> {
    match funct5
    case 0x02 => if rs2 == 0 then Some(LR) else None
    case 0x03 => Some(SC)
    case 0x01 => Some(AMOSWAP)
    case 0x00 => Some(AMOADD)
    case 0x04 => Some(AMOXOR)
    case 0x0c => Some(AMOAND)
    case 0x08 => Some(AMOOR)
    case 0x10 => Some(AMOMIN)
    case 0x14 => Some(AMOMAX)
    case 0x18 => Some(AMOMINU)
    case 0x1c => Some(AMOMAXU)
    case _ => None
  }

  // ---------------------------------------------------------------- table against tree

  /** The opcode, funct3 and funct7 of an entry's matcher. */
  datatype Pattern = Pattern(opcode: nat, funct3: nat, funct7: nat)

  function PatternOf(op: Op): Pattern {
    match op
    case System(_) => Pattern(0, 0, 0)
    case Upper(LUI) => Pattern(0x37, 0, 0)
    case Upper(AUIPC) => Pattern(0x17, 0, 0)
    case JAL => Pattern(0x6f, 0, 0)
    case JALR => Pattern(0x67, 0, 0)
    case FENCE_I => Pattern(0x0f, 0, 0)
    case Branch(b) => Pattern(0x63, BranchFunct3(b), 0)
    case Load(l) => Pattern(0x03, LoadFunct3(l), 0)
    case Store(s) => Pattern(0x23, StoreFunct3(s), 0)
    case Immediate(i) => Pattern(0x13, ImmediateFunct3(i), ImmediateFunct7(i))
    case Register(r) => Pattern(0x33, RegisterFunct3(r), RegisterFunct7(r))
    case Immediate32(i) => Pattern(0x1b, Immediate32Funct3(i), Immediate32Funct7(i))
    case Register32(r) => Pattern(0x3b, Register32Funct3(r), Register32Funct7(r))
    case Csr(c) => Pattern(0x73, CsrFunct3(c), 0)
    case Atomic(a, w) => Pattern(0x2f, if w.Word? then 2 else 3, 4 * AtomicFunct5(a))
  }

  function BranchFunct3(b: BranchOp): nat {
    match b
    case BEQ => 0
    case BNE => 1
    case BLT => 4
    case BGE => 5
    case BLTU => 6
    case BGEU => 7
  }

  function LoadFunct3(l: LoadOp): nat {
    match l
    case LB => 0
    case LH => 1
    case LW => 2
    case LBU => 4
    case LHU => 5
    case LWU => 6
    case LD => 3
  }

  function StoreFunct3(s: StoreOp): nat {
    match s
    case SB => 0
    case SH => 1
    case SW => 2
    case SD => 3
  }

  function ImmediateFunct3(i: ImmediateOp): nat {
    match i
    case ADDI => 0
    case SLTI => 2
    case SLTIU => 3
    case XORI => 4
    case ORI => 6
    case ANDI => 7
    case SLLI => 1
    case _ => 5
  }

  function ImmediateFunct7(i: ImmediateOp): nat {
    match i
    case SRAI => 0x20
    case _ => 0
  }

  function RegisterFunct3(r: RegisterOp): nat {
    match r
    case SLL | MULH => 1
    case SLT | MULHSU => 2
    case SLTU | MULHU => 3
    case XOR | DIV => 4
    case SRL | SRA | DIVU => 5
    case OR | REM => 6
    case AND | REMU => 7
    case _ => 0
  }

  function RegisterFunct7(r: RegisterOp): nat {
    match r
    case SUB | SRA => 0x20
    case MUL | MULH | MULHSU | MULHU | DIV | DIVU | REM | REMU => 1
    case _ => 0
  }

  function Immediate32Funct3(i: Immediate32Op): nat {
    match i
    case ADDIW => 0
    case SLLIW => 1
    case _ => 5
  }

  function Immediate32Funct7(i: Immediate32Op): nat {
    match i
    case SRAIW => 0x20
    case _ => 0
  }

  function Register32Funct3(r: Register32Op): nat {
    match r
    case SLLW => 1
    case SRLW | SRAW | DIVUW => 5
    case DIVW => 4
    case REMW => 6
    case REMUW => 7
    case _ => 0
  }

  function Register32Funct7(r: Register32Op): nat {
    match r
    case ADDW | SLLW | SRLW => 0
    case SUBW | SRAW => 0x20
    case _ => 1
  }

  function CsrFunct3(c: CsrOp): nat {
    match c
    case CSRRW => 1
    case CSRRS => 2
    case CSRRC => 3
    case CSRRWI => 5
    case CSRRSI => 6
    case CSRRCI => 7
  }

  function AtomicFunct5(a: AtomicOp): nat {
    match a
    case LR => 0x02
    case SC => 0x03
    case AMOSWAP => 0x01
    case AMOADD => 0x00
    case AMOXOR => 0x04
    case AMOAND => 0x0c
    case AMOOR => 0x08
    case AMOMIN => 0x10
    case AMOMAX => 0x14
    case AMOMINU => 0x18
    case AMOMAXU => 0x1c
  }

  predicate Exact(op: Op) {
    op.System?
  }

  lemma MatcherOfPattern(op: Op)
    requires !Exact(op)
    ensures MatcherOf(op) == PatternWord(PatternOf(op)) && Aligned(MaskOf(op), PatternOf(op))
  {
  }

  /** Numbers written in mixed digits are equal only digit by digit. */
  lemma SameDigits(a: nat, b: nat, c: nat, a': nat, b': nat, c': nat, m: nat)
    requires a < 0x1000 && a' < 0x1000 && 0x1000 * b < m && 0x1000 * b' < m && m % 0x1000 == 0
    requires a + 0x1000 * b + m * c == a' + 0x1000 * b' + m * c'
    ensures a == a' && b == b' && c == c'
  {
    if c > c' {
      MulGap(m, c, c');
    } else if c' > c {
      MulGap(m, c', c);
    }
  }

  /** The slices that a mask covers agree with a pattern. */
  predicate Fits(mask: u32, p: Pattern, s: Slices) {
    && s.opcode == p.opcode
    && (mask == 0x7f || s.funct3 == p.funct3)
    && (mask == 0xfe00707f ==> s.funct7 == p.funct7)
    && (mask == 0xfc00707f ==> s.funct7 / 2 == p.funct7 / 2)
    && (mask in {0xf800707f, 0xf9f0707f} ==> s.funct7 / 4 == p.funct7 / 4)
    && (mask == 0xf9f0707f ==> s.rs2 == 0)
  }

  predicate Aligned(mask: u32, p: Pattern) {
    && p.opcode < 0x80 && p.funct3 < 8 && p.funct7 < 0x80
    && mask in {0x7f, 0x707f, 0xfe00707f, 0xfc00707f, 0xf800707f, 0xf9f0707f}
    && (mask == 0x7f ==> p.funct3 == 0)
    && (mask in {0x7f, 0x707f} ==> p.funct7 == 0)
    && (mask == 0xfc00707f ==> p.funct7 % 2 == 0)
    && (mask in {0xf800707f, 0xf9f0707f} ==> p.funct7 % 4 == 0)
  }

  function PatternWord(p: Pattern): nat {
    p.opcode + 0x1000 * p.funct3 + 0x200_0000 * p.funct7
  }

  lemma KeptOfFits(mask: u32, p: Pattern, w: u32)
    requires Aligned(mask, p) && Fits(mask, p, Split(w))
    ensures Kept(mask, w) == PatternWord(p)
  {
  }

  lemma FitsOfKept(mask: u32, p: Pattern, w: u32)
    requires Aligned(mask, p) && Kept(mask, w) == PatternWord(p)
    ensures Fits(mask, p, Split(w))
  {
    var s := Split(w);
    if mask == 0xfe00707f {
      SameDigits(s.opcode, s.funct3, s.funct7, p.opcode, p.funct3, p.funct7, 0x200_0000);
    } else if mask == 0xfc00707f {
      SameDigits(s.opcode, s.funct3, s.funct7 / 2, p.opcode, p.funct3, p.funct7 / 2, 0x400_0000);
    } else if mask == 0xf800707f {
      SameDigits(s.opcode, s.funct3, s.funct7 / 4, p.opcode, p.funct3, p.funct7 / 4, 0x800_0000);
    } else if mask == 0xf9f0707f {
      SameDigits(s.opcode, s.funct3 + 0x100 * s.rs2, s.funct7 / 4, p.opcode, p.funct3, p.funct7 / 4, 0x800_0000);
    }
  }

  lemma MatchesIsFits(op: Op, w: u32)
    requires !Exact(op)
    ensures Matches(op, w) <==> Fits(MaskOf(op), PatternOf(op), Split(w))
  {
    KeptIsAnd(op, w);
    var mask, p := MaskOf(op), PatternOf(op);
    assert Aligned(mask, p) && MatcherOf(op) == PatternWord(p) by { MatcherOfPattern(op); }
    if Matches(op, w) {
      FitsOfKept(mask, p, w);
    } else if Fits(mask, p, Split(w)) {
      KeptOfFits(mask, p, w);
    }
  }

  // The tree inverts the patterns, one opcode group at a time.

  lemma BranchFits(x: BranchOp, funct3: nat)
    ensures ClassifyBranch(funct3) == Some(x) <==> funct3 == BranchFunct3(x)
  {
  }

  lemma LoadFits(x: LoadOp, funct3: nat)
    ensures ClassifyLoad(funct3) == Some(x) <==> funct3 == LoadFunct3(x)
  {
  }

  lemma StoreFits(x: StoreOp, funct3: nat)
    ensures ClassifyStore(funct3) == Some(x) <==> funct3 == StoreFunct3(x)
  {
  }

  lemma CsrFits(x: CsrOp, funct3: nat)
    ensures ClassifyCsr(funct3) == Some(x) <==> funct3 == CsrFunct3(x)
  {
  }

  lemma RegisterFits(x: RegisterOp, funct3: nat, funct7: nat)
    ensures ClassifyRegister(funct3, funct7) == Some(x) <==> funct3 == RegisterFunct3(x) && funct7 == RegisterFunct7(x)
  {
  }

  lemma Register32Fits(x: Register32Op, funct3: nat, funct7: nat)
    ensures ClassifyRegister32(funct3, funct7) == Some(x)
       <==> funct3 == Register32Funct3(x) && funct7 == Register32Funct7(x)
  {
  }

  lemma ImmediateFits(x: ImmediateOp, funct3: nat, funct7: nat)
    ensures ClassifyImmediate(funct3, funct7) == Some(x)
       <==> funct3 == ImmediateFunct3(x)
            && (MaskOf(Immediate(x)) == 0xfc00707f ==> funct7 / 2 == ImmediateFunct7(x) / 2)
  {
  }

  lemma Immediate32Fits(x: Immediate32Op, funct3: nat, funct7: nat)
    ensures ClassifyImmediate32(funct3, funct7) == Some(x)
       <==> funct3 == Immediate32Funct3(x) && (x == SLLIW ==> funct7 == 0)
            && (x == SRLIW || x == SRAIW ==> funct7 / 2 == Immediate32Funct7(x) / 2)
  {
  }

  lemma AtomicFits(x: AtomicOp, funct5: nat, rs2: nat)
    ensures ClassifyAtomic(funct5, rs2) == Some(x) <==> funct5 == AtomicFunct5(x) && (x == LR ==> rs2 == 0)
  {
  }

  lemma ArithmeticFits(op: Op, s: Slices)
    requires op.Register? || op.Register32? || op.Immediate? || op.Immediate32? || op.Atomic?
    requires s.Valid()
    ensures Fits(MaskOf(op), PatternOf(op), s) <==> ClassifySlices(s) == Some(op)
  {
    match op
    case Register(x) => RegisterFits(x, s.funct3, s.funct7);
    case Register32(x) => Register32Fits(x, s.funct3, s.funct7);
    case Immediate(x) => ImmediateFits(x, s.funct3, s.funct7);
    case Immediate32(x) => Immediate32Fits(x, s.funct3, s.funct7);
    case Atomic(x, _) => AtomicFits(x, s.funct7 / 4, s.rs2);
  }

  lemma FitsIsClassified(op: Op, s: Slices)
    requires !Exact(op) && s.Valid()
    ensures Fits(MaskOf(op), PatternOf(op), s) <==> ClassifySlices(s) == Some(op)
  {
    match op
    case Branch(x) => BranchFits(x, s.funct3);
    case Load(x) => LoadFits(x, s.funct3);
    case Store(x) => StoreFits(x, s.funct3);
    case Csr(x) => CsrFits(x, s.funct3);
    case Register(_) | Register32(_) | Immediate(_) | Immediate32(_) | Atomic(_, _) => ArithmeticFits(op, s);
    case _ =>
  }

  lemma ClassifiedIsNotExact(s: Slices)
    ensures ClassifySlices(s).Some? ==> !Exact(ClassifySlices(s).value)
  {
  }

  /** The five whole words, which the tree looks at first. */
  lemma ExactMatches(op: Op, w: u32)
    requires Exact(op)
    ensures Matches(op, w) <==> w == MatcherOf(op)
  {
    KeptWhole(w);
  }

  lemma ExactClassified(op: Op, w: u32)
    requires Exact(op)
    ensures Classify(w) == Some(op) <==> w == MatcherOf(op)
  {
    ClassifiedIsNotExact(Split(w));
  }

  lemma SystemSlices(s: Slices)
    requires s.opcode == 0x73 && s.funct3 == 0
    ensures ClassifySlices(s) == None
  {
  }

  lemma SlicesOfExactWords(w: u32)
    requires w in {0xf, 0x73, 0x10_0073, 0x1020_0073, 0x3020_0073}
    ensures ClassifySlices(Split(w)) == if w == 0xf then Some(FENCE_I) else None
  {
    if w != 0xf {
      SystemWord(w, w / 0x10_0000);
      SystemSlices(Split(w));
    }
  }

  lemma SystemWord(w: u32, k: nat)
    requires w == 0x73 + 0x10_0000 * k
    ensures Split(w).opcode == 0x73 && Split(w).funct3 == 0
  {
    assert w / 0x80 == 0x2000 * k && 0x2000 * k / 0x20 == 0x100 * k;
  }

  /** For every word and every entry: the entry matches exactly when the tree names it, except
      that FENCE.I, whose mask is the opcode alone, also matches the word of FENCE. */
  lemma MatchesIsClassified(op: Op, w: u32)
    ensures Matches(op, w) <==> Classify(w) == Some(op) || (op == FENCE_I && w == 0xf)
  {
    if Exact(op) {
      ExactMatches(op, w);
      ExactClassified(op, w);
    } else {
      MatchesIsFits(op, w);
      FitsIsClassified(op, Split(w));
      if w in {0xf, 0x73, 0x10_0073, 0x1020_0073, 0x3020_0073} {
        SlicesOfExactWords(w);
      }
    }
  }

  // ---------------------------------------------------------------- the scan

  lemma {:induction false} ScanFindsMatch(t: seq<Op>, w: u32)
    ensures Scan(t, w).None? ==> forall op :: op in t ==> !Matches(op, w)
    ensures Scan(t, w).Some? ==> Scan(t, w).value in t && Matches(Scan(t, w).value, w)
  {
    if t != [] && !Matches(t[0], w) {
      ScanFindsMatch(t[1..], w);
      assert t == [t[0]] + t[1..];
    }
  }

  lemma {:induction false} ScanOfPrefix(t: seq<Op>, u: seq<Op>, w: u32)
    ensures Scan(t, w).Some? ==> Scan(t + u, w) == Scan(t, w)
  {
    if t != [] && !Matches(t[0], w) {
      ScanOfPrefix(t[1..], u, w);
      assert (t + u)[1..] == t[1..] + u;
    }
  }

  /** The result of `CPU::Decode`; None stands for the thrown IllegalInstruction. */
  function DecodeWord(w: u32): Option<Op> {
    Scan(TABLE, w)
  }

  lemma SystemInTable(x: SystemOp)
    ensures System(x) in PRIVILEGED + RV32I
  {
  }

  lemma UpperInTable(x: UpperOp)
    ensures Upper(x) in RV32I
  {
  }

  lemma BranchInTable(x: BranchOp)
    ensures Branch(x) in RV32I
  {
  }

  lemma LoadInTable(x: LoadOp)
    ensures Load(x) in RV32I + RV64I
  {
  }

  lemma StoreInTable(x: StoreOp)
    ensures Store(x) in RV32I + RV64I
  {
  }

  lemma ImmediateInTable(x: ImmediateOp)
    ensures Immediate(x) in RV32I
  {
  }

  lemma RegisterInTable(x: RegisterOp)
    ensures Register(x) in RV32I + RV32M
  {
  }

  lemma Immediate32InTable(x: Immediate32Op)
    ensures Immediate32(x) in RV64I
  {
  }

  lemma Register32InTable(x: Register32Op)
    ensures Register32(x) in RV64I + RV64M
  {
  }

  lemma CsrInTable(x: CsrOp)
    ensures Csr(x) in ZICSR
  {
  }

  lemma AtomicInTable(x: AtomicOp, width: Width)
    ensures Atomic(x, width) in if width.Word? then RV32A else RV64A
  {
  }

  lemma JumpsInTable()
    ensures JAL in RV32I && JALR in RV32I
  {
  }

  lemma FenceIInTable()
    ensures FENCE_I in ZIFENCEI
  {
  }

  lemma SectionsAreComplete(op: Op)
    ensures op in PRIVILEGED + RV32I || op in RV64I || op in ZIFENCEI || op in ZICSR
         || op in RV32M || op in RV64M || op in RV32A || op in RV64A
  {
    match op
    case System(x) => SystemInTable(x);
    case Upper(x) => UpperInTable(x);
    case Branch(x) => BranchInTable(x);
    case Load(x) => LoadInTable(x);
    case Store(x) => StoreInTable(x);
    case Immediate(x) => ImmediateInTable(x);
    case Register(x) => RegisterInTable(x);
    case Immediate32(x) => Immediate32InTable(x);
    case Register32(x) => Register32InTable(x);
    case Csr(x) => CsrInTable(x);
    case Atomic(x, width) => AtomicInTable(x, width);
    case JAL => JumpsInTable();
    case JALR => JumpsInTable();
    case FENCE_I => FenceIInTable();
  }

  lemma InSections(op: Op, a: seq<Op>, b: seq<Op>, c: seq<Op>, d: seq<Op>,
                   e: seq<Op>, f: seq<Op>, g: seq<Op>, h: seq<Op>)
    requires op in a || op in b || op in c || op in d || op in e || op in f || op in g || op in h
    ensures op in a + (b + (c + d + e + f + g + h))
  {
  }

  lemma TableIsComplete(op: Op)
    ensures op in TABLE
  {
    SectionsAreComplete(op);
    InSections(op, PRIVILEGED + RV32I, RV64I, ZIFENCEI, ZICSR, RV32M, RV64M, RV32A, RV64A);
  }

  lemma FenceComesFirst()
    ensures System(FENCE) in PRIVILEGED + RV32I && FENCE_I !in PRIVILEGED + RV32I
  {
    assert System(FENCE) in RV32I;
  }

  predicate IsFence(op: Option<Op>) {
    op == Some(System(FENCE)) || op == Some(FENCE_I)
  }

  /** Whatever the order of the entries, and even if some are repeated, the scan agrees with the
      decision tree, up to the choice between the two fences. */
  lemma ScanOfAnyOrder(t: seq<Op>, w: u32)
    requires forall op :: op in TABLE ==> op in t
    ensures Scan(t, w) == Classify(w) || (w == 0xf && IsFence(Scan(t, w)) && IsFence(Classify(w)))
  {
    ScanFindsMatch(t, w);
    if Scan(t, w).Some? {
      MatchesIsClassified(Scan(t, w).value, w);
    } else if Classify(w).Some? {
      MatchesIsClassified(Classify(w).value, w);
      TableIsComplete(Classify(w).value);
    }
  }

  lemma ScanOfFence(early: seq<Op>, late: seq<Op>)
    requires System(FENCE) in early && FENCE_I !in early
    ensures Scan(early + late, 0xf) == Some(System(FENCE))
  {
    MatchesIsClassified(System(FENCE), 0xf);
    ScanFindsMatch(early, 0xf);
    MatchesIsClassified(Scan(early, 0xf).value, 0xf);
    ScanOfPrefix(early, late, 0xf);
  }

  /** The linear scan of the 96 masks and matchers is the decision tree, for every word. */
  lemma DecodeIsClassify(w: u32)
    ensures DecodeWord(w) == Classify(w)
  {
    ScanOfAnyOrder(TABLE, w);
    if w == 0xf {
      FenceComesFirst();
      ScanOfFence(PRIVILEGED + RV32I, RV64I + EXTENSIONS);
    }
  }

  /** Reordering the table, or repeating entries, changes no decoded instruction other than
      trading one fence for the other. */
  lemma DecodeIgnoresOrder(t: seq<Op>, w: u32)
    requires forall op :: op in TABLE ==> op in t
    ensures Scan(t, w) == DecodeWord(w) || (IsFence(Scan(t, w)) && IsFence(DecodeWord(w)))
  {
    ScanOfAnyOrder(t, w);
    DecodeIsClassify(w);
  }

  /** At most one entry matches a word, except the two fences on the word 0xf. */
  lemma EntriesAreDisjoint(a: Op, b: Op, w: u32)
    requires Matches(a, w) && Matches(b, w)
    ensures a == b || (w == 0xf && IsFence(Some(a)) && IsFence(Some(b)))
  {
    MatchesIsClassified(a, w);
    MatchesIsClassified(b, w);
  }

  // ---------------------------------------------------------------- assembler and decoder

  /** The fields that fix an instruction hold the values of this entry's matcher. */
  predicate HasPattern(op: Op, f: Fields)
    requires WellFormed(FormatOf(op), f)
  {
    if Exact(op) then f == Parse(FormatOf(op), MatcherOf(op))
    else Fits(MaskOf(op), PatternOf(op), Place(FormatOf(op), f))
  }

  /** Assembling an entry with any legal operands and decoding the word gives back that entry, and
      its format gives back the operands. FENCE.I with everything else zero is the word of FENCE. */
  lemma DecodeOfAssembled(op: Op, f: Fields)
    requires WellFormed(FormatOf(op), f) && HasPattern(op, f)
    ensures var w := Pack(FormatOf(op), f);
            Parse(FormatOf(op), w) == f && (DecodeWord(w) == Some(op) || (op == FENCE_I && w == 0xf))
  {
    var w := Pack(FormatOf(op), f);
    ParseOfPack(FormatOf(op), f);
    DecodeIsClassify(w);
    MatchesIsClassified(op, w);
    if Exact(op) {
      PackOfParse(FormatOf(op), MatcherOf(op));
      ExactMatches(op, w);
      ExactClassified(op, w);
    } else {
      SplitOfJoin(Place(FormatOf(op), f));
      MatchesIsFits(op, w);
    }
  }

  /** Conversely, every word that decodes to an entry is that entry assembled with the operands
      that its format parses. */
  lemma AssembledOfDecoded(w: u32)
    requires DecodeWord(w).Some?
    ensures var op := DecodeWord(w).value; var f := Parse(FormatOf(op), w);
            WellFormed(FormatOf(op), f) && HasPattern(op, f) && Pack(FormatOf(op), f) == w
  {
    var op := DecodeWord(w).value;
    var f := Parse(FormatOf(op), w);
    PackOfParse(FormatOf(op), w);
    DecodeIsClassify(w);
    MatchesIsClassified(op, w);
    if Exact(op) {
      ExactMatches(op, w);
      ExactClassified(op, w);
    } else {
      MatchesIsFits(op, w);
      PlaceOfFields(FormatOf(op), Split(w));
    }
  }
}

/** The statements of Conformance and Instructions determine the outcome: no two results satisfy them. */
module OneOutcome {
  import opened Words
  import opened Division
  import opened Isa
  import opened Parsing
  import opened HartModel
  import opened TrapEntry
  import opened Accesses
  import opened Conformance
  import opened Instructions

  // ---------------------------------------------------------------- values

  lemma OneCongruent(x: u64, y: u64, z: int)
    requires SameModulo(x, z, TWO64) && SameModulo(y, z, TWO64)
    ensures x == y
  {
  }

  lemma OneDifference(x: u64, y: u64, b: int, a: int)
    requires SameModulo(x + b, a, TWO64) && SameModulo(y + b, a, TWO64)
    ensures x == y
  {
  }

  lemma OneSigned(x: u64, y: u64)
    requires Signed64(x) == Signed64(y)
    ensures x == y
  {
  }

  lemma OneSignedWord(x: u64, y: u64, z: int)
    requires IsSignedWord(x, z) && IsSignedWord(y, z)
    ensures x == y
  {
    var a, b := Signed64(x), Signed64(y);
    Congruent32(a, b, z);
  }

  lemma Congruent32(a: int, b: int, z: int)
    requires -0x8000_0000 <= a < 0x8000_0000 && -0x8000_0000 <= b < 0x8000_0000
    requires (a - z) % TWO32 == 0 && (b - z) % TWO32 == 0
    ensures a == b
  {
  }

  lemma SmallMultiple(y: int, d: int)
    requires Abs(y * d) < Abs(y)
    ensures d == 0
  {
    if d != 0 {
      Departures.ProductSign(y, d);
      AtLeastFactor(Abs(y), Abs(d));
    }
  }

  lemma AtLeastFactor(p: nat, k: nat)
    requires k > 0
    ensures p * k >= p
  {
    var j: nat := k - 1;
    assert p * (j + 1) == p * j + p;
  }

  /** Quotient and remainder of a truncating division are unique. */
  lemma OneDivision(x: int, y: int, q: int, m: int, q': int, m': int)
    requires IsDivision(x, y, q, m) && IsDivision(x, y, q', m')
    ensures q == q' && m == m'
  {
    assert y * (q - q') == y * q - y * q';
    SmallMultiple(y, q - q');
  }

  lemma OneQuotient(x: int, y: int, q: int, q': int)
    requires exists m :: IsDivision(x, y, q, m)
    requires exists m :: IsDivision(x, y, q', m)
    ensures q == q'
  {
    var m :| IsDivision(x, y, q, m);
    var m' :| IsDivision(x, y, q', m');
    OneDivision(x, y, q, m, q', m');
  }

  lemma OneRemainder(x: int, y: int, m: int, m': int)
    requires exists q :: IsDivision(x, y, q, m)
    requires exists q :: IsDivision(x, y, q, m')
    ensures m == m'
  {
    var q :| IsDivision(x, y, q, m);
    var q' :| IsDivision(x, y, q', m');
    OneDivision(x, y, q, m, q', m');
  }

  lemma SameWord(x: u64, y: u64)
    requires forall i: nat :: i < 64 ==> Bit(x, i) == Bit(y, i)
    ensures x == y
  {
    forall i: nat
      ensures Bit(x, i) == Bit(y, i)
    {
      if i >= 64 {
        NoBitsAbove64(x, i);
        NoBitsAbove64(y, i);
      }
    }
    SameBits(x, y);
  }

  lemma OneShift(a: u64, n: u64, x: u64, y: u64)
    ensures IsShiftedLeft(a, n, x) && IsShiftedLeft(a, n, y) ==> x == y
    ensures IsShiftedRight(a, n, x) && IsShiftedRight(a, n, y) ==> x == y
  {
    if IsShiftedLeft(a, n, x) && IsShiftedLeft(a, n, y) { SameWord(x, y); }
    if IsShiftedRight(a, n, x) && IsShiftedRight(a, n, y) { SameWord(x, y); }
  }

  lemma OneSignedDivision(o: RegisterOp, a: u64, b: u64, x: u64, y: u64)
    requires o == DIV || o == REM
    requires RegisterResult(o, a, b, x) && RegisterResult(o, a, b, y)
    ensures x == y
  {
    var s, t := Signed64(a), Signed64(b);
    if t != 0 && !(s == -TWO63 && t == -1) {
      var p, q := Signed64(x), Signed64(y);
      if o == DIV { OneQuotient(s, t, p, q); } else { OneRemainder(s, t, p, q); }
      OneSigned(x, y);
    } else if o == DIV && t == 0 {
      OneSigned(x, y);
    }
  }

  lemma OneUnsignedDivision(o: RegisterOp, a: u64, b: u64, x: u64, y: u64)
    requires o == DIVU || o == REMU
    requires RegisterResult(o, a, b, x) && RegisterResult(o, a, b, y)
    ensures x == y
  {
    if b != 0 {
      if o == DIVU { OneQuotient(a, b, x, y); } else { OneRemainder(a, b, x, y); }
    }
  }

  lemma OneRegisterResult(o: RegisterOp, a: u64, b: u64, x: u64, y: u64)
    requires RegisterResult(o, a, b, x) && RegisterResult(o, a, b, y)
    ensures x == y
  {
    match o
    case ADD => OneCongruent(x, y, a + b);
    case SUB => OneDifference(x, y, b, a);
    case MUL | MULH | MULHSU | MULHU => OneCongruent(x, y, a * b);
    case SLL | SRL | SRA => OneShift(a, b, x, y);
    case XOR | OR | AND => SameBits(x, y);
    case DIV | REM => OneSignedDivision(o, a, b, x, y);
    case DIVU | REMU => OneUnsignedDivision(o, a, b, x, y);
    case SLT | SLTU =>
  }

  lemma OneWordDivision(o: Register32Op, a: u64, b: u64, x: u64, y: u64)
    requires o == DIVW || o == REMW
    requires Register32Result(o, a, b, x) && Register32Result(o, a, b, y)
    ensures x == y
  {
    var s, t := Signed32(a), Signed32(b);
    if t != 0 && !(s == -0x8000_0000 && t == -1) {
      var p, q := Signed64(x), Signed64(y);
      if o == DIVW { OneQuotient(s, t, p, q); } else { OneRemainder(s, t, p, q); }
    }
    OneSigned(x, y);
  }

  lemma OneUnsignedWordDivision(o: Register32Op, a: u64, b: u64, x: u64, y: u64)
    requires o == DIVUW || o == REMUW
    requires Register32Result(o, a, b, x) && Register32Result(o, a, b, y)
    ensures x == y
  {
    if Low32(b) != 0 {
      if o == DIVUW { OneQuotient(Low32(a), Low32(b), x, y); } else { OneRemainder(Low32(a), Low32(b), x, y); }
    }
  }

  lemma OneRegister32Result(o: Register32Op, a: u64, b: u64, x: u64, y: u64)
    requires Register32Result(o, a, b, x) && Register32Result(o, a, b, y)
    ensures x == y
  {
    match o
    case ADDW => OneCongruent(x, y, a + b);
    case SUBW => OneDifference(x, y, b, a);
    case MULW => OneCongruent(x, y, a * b);
    case SLLW | SRLW | SRAW => OneShift(a, b, x, y);
    case DIVW | REMW => OneWordDivision(o, a, b, x, y);
    case DIVUW | REMUW => OneUnsignedWordDivision(o, a, b, x, y);
  }

  lemma OneUpperResult(o: UpperOp, pc: u64, imm: u32, x: u64, y: u64)
    requires UpperResult(o, pc, imm, x) && UpperResult(o, pc, imm, y)
    ensures x == y
  {
    match o
    case LUI => OneSignedWord(x, y, imm);
    case AUIPC => OneCongruent(x, y, pc - 4 + imm);
  }

  lemma OneImmediateResult(o: ImmediateOp, a: u64, imm: u32, x: u64, y: u64)
    requires ImmediateResult(o, a, imm, x) && ImmediateResult(o, a, imm, y)
    ensures x == y
  {
    match o
    case ADDI => OneCongruent(x, y, a + Offset12(imm));
    case XORI | ORI | ANDI => SameBits(x, y);
    case SLLI | SRLI | SRAI => OneShift(a, imm, x, y);
    case SLTI | SLTIU =>
  }

  lemma OneImmediate32Result(o: Immediate32Op, a: u64, imm: u32, x: u64, y: u64)
    requires Immediate32Result(o, a, imm, x) && Immediate32Result(o, a, imm, y)
    ensures x == y
  {
    if o == ADDIW { OneSignedWord(x, y, a + Offset12(imm)); }
  }

  lemma OneAtomicResult(o: AtomicOp, a: u64, b: u64, x: u64, y: u64)
    requires AtomicResult(o, a, b, x) && AtomicResult(o, a, b, y)
    ensures x == y
  {
    match o
    case AMOADD => OneCongruent(x, y, a + b);
    case AMOXOR | AMOAND | AMOOR => SameBits(x, y);
    case _ =>
  }

  lemma OneCsrResult(o: CsrOp, x: u64, n: u64, y: u64, z: u64)
    requires CsrResult(o, x, n, y) && CsrResult(o, x, n, z)
    ensures y == z
  {
    if o != CSRRW && o != CSRRWI { SameBits(y, z); }
  }

  // ---------------------------------------------------------------- outcomes

  lemma OneRegisterWritten(h: Hart, rd: nat, r: Exec, s: Exec)
    requires rd < 32 && OnlyRegister(h, r, rd) && OnlyRegister(h, s, rd) && r.hart.regs[rd] == s.hart.regs[rd]
    ensures r == s
  {
  }

  lemma OneValueMeaning(op: Op, w: u32, h: Hart, r: Exec, s: Exec)
    requires op.Upper? || op.Immediate? || op.Register? || op.Immediate32? || op.Register32?
    requires Meaning(op, w, h, r) && Meaning(op, w, h, s)
    ensures r == s
  {
    match op
    case Upper(o) => OneUpper(o, h, Operands(U, w), r, s);
    case Immediate(o) => OneImmediate(o, h, Operands(I, w), r, s);
    case Register(o) => OneRegister(o, h, Operands(R, w), r, s);
    case Immediate32(o) => OneImmediate32(o, h, Operands(if o == ADDIW then I else R, w), r, s);
    case Register32(o) => OneRegister32(o, h, Operands(R, w), r, s);
  }

  lemma OneUpper(o: UpperOp, h: Hart, f: Fields, r: Exec, s: Exec)
    requires InRange(f) && UpperMeans(o, h, f, r) && UpperMeans(o, h, f, s)
    ensures r == s
  {
    OneUpperResult(o, h.pc, f.imm, r.hart.regs[f.rd], s.hart.regs[f.rd]);
    OneRegisterWritten(h, f.rd, r, s);
  }

  lemma OneImmediate(o: ImmediateOp, h: Hart, f: Fields, r: Exec, s: Exec)
    requires InRange(f) && ImmediateMeans(o, h, f, r) && ImmediateMeans(o, h, f, s)
    ensures r == s
  {
    if r != Lost {
      OneImmediateResult(o, h.regs[f.rs1], f.imm, r.hart.regs[f.rd], s.hart.regs[f.rd]);
      OneRegisterWritten(h, f.rd, r, s);
    }
  }

  lemma OneRegister(o: RegisterOp, h: Hart, f: Fields, r: Exec, s: Exec)
    requires InRange(f) && RegisterMeans(o, h, f, r) && RegisterMeans(o, h, f, s)
    ensures r == s
  {
    if r != Lost {
      OneRegisterResult(o, h.regs[f.rs1], h.regs[f.rs2], r.hart.regs[f.rd], s.hart.regs[f.rd]);
      OneRegisterWritten(h, f.rd, r, s);
    }
  }

  lemma OneImmediate32(o: Immediate32Op, h: Hart, f: Fields, r: Exec, s: Exec)
    requires InRange(f) && Immediate32Means(o, h, f, r) && Immediate32Means(o, h, f, s)
    ensures r == s
  {
    OneImmediate32Result(o, h.regs[f.rs1], f.imm, r.hart.regs[f.rd], s.hart.regs[f.rd]);
    OneRegisterWritten(h, f.rd, r, s);
  }

  lemma OneRegister32(o: Register32Op, h: Hart, f: Fields, r: Exec, s: Exec)
    requires InRange(f) && Register32Means(o, h, f, r) && Register32Means(o, h, f, s)
    ensures r == s
  {
    if r != Lost {
      OneRegister32Result(o, h.regs[f.rs1], h.regs[f.rs2], r.hart.regs[f.rd], s.hart.regs[f.rd]);
      OneRegisterWritten(h, f.rd, r, s);
    }
  }

  lemma OneCsr(o: CsrOp, h: Hart, f: Fields, r: Exec, s: Exec)
    requires InRange(f) && f.imm < 4096 && CsrMeans(o, h, f, r) && CsrMeans(o, h, f, s)
    ensures r == s
  {
    OneCsrResult(o, h.csrs[f.imm], if o == CSRRW || o == CSRRS || o == CSRRC then h.regs[f.rs1] else f.rs1,
                 r.hart.csrs[f.imm], s.hart.csrs[f.imm]);
  }

  lemma OneAtomic(o: AtomicOp, width: Width, h: Hart, f: Fields, r: Exec, s: Exec)
    requires InRange(f) && AtomicMeans(o, width, h, f, r) && AtomicMeans(o, width, h, f, s)
    ensures r == s
  {
    var a, i := h.regs[f.rs1], h.regs[f.rs1] % TWO32;
    if o == LR || o == SC {
    } else if width == Double && o in {AMOSWAP, AMOADD, AMOXOR, AMOAND, AMOOR} {
      OneAtomicResult(o, a, if f.rs2 == f.rd then a else h.regs[f.rs2], r.hart.regs[f.rs1], s.hart.regs[f.rs1]);
    } else if i < 32 && o != AMOSWAP {
      OneAtomicResult(o, a, h.regs[f.rs2], r.hart.regs[i], s.hart.regs[i]);
    }
  }

  lemma OneSystem(o: SystemOp, h: Hart, r: Exec, s: Exec)
    requires SystemMeans(o, h, r) && SystemMeans(o, h, s)
    ensures r == s
  {
    match o
    case SRET => OneSret(h, r.hart, s.hart);
    case MRET => OneMret(h, r.hart, s.hart);
    case _ =>
  }

  /** Meaning determines the outcome: an executor with any other result would not satisfy it. */
  lemma OneMeaning(op: Op, w: u32, h: Hart, r: Exec, s: Exec)
    requires Meaning(op, w, h, r) && Meaning(op, w, h, s)
    ensures r == s
  {
    match op
    case System(o) => OneSystem(o, h, r, s);
    case Load(o) => OneLoad(o, h, Operands(I, w), r, s);
    case Store(o) => OneStore(o, h, Operands(S, w), r, s);
    case Csr(o) => OneCsr(o, h, Operands(I, w), r, s);
    case Atomic(o, width) => OneAtomic(o, width, h, Operands(R, w), r, s);
    case FENCE_I | JAL | JALR | Branch(_) =>
    case _ => OneValueMeaning(op, w, h, r, s);
  }
}

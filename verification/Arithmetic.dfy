/** The results of the compute instructions in the numbers of the words, as in sections 2.4, 7.1 and 7.2 of the RISC-V
    Unprivileged ISA, version 20191213. */
module Arithmetic {
  import opened Words
  import opened Rv32im

  /** The word stands for an integer modulo 2^32. */
  predicate Stands(r: Word, z: int) { Number(r) == z % TWO32 }

  /** The sign of a remainder is that of the dividend. */
  predicate SameSign(r: int, a: int) { r == 0 || (r < 0 <==> a < 0) }

  /** Division that rounds towards zero: the remainder is smaller than the divisor and has the sign of the dividend. */
  predicate Divides(a: int, b: int, q: int, r: int) { a == b * q + r && Abs(r) < Abs(b) && SameSign(r, a) }

  /** The most negative word over minus one. */
  predicate DivisionOverflows(a: Word, b: Word) { Signed(a) == -TWO31 && Signed(b) == -1 }

  /** Signed division: by zero it gives minus one and the dividend, and an overflow gives the dividend and zero. */
  predicate IsQuotient(a: Word, b: Word, r: Word) {
    if Signed(b) == 0 then Signed(r) == -1
    else if DivisionOverflows(a, b) then r == a
    else Divides(Signed(a), Signed(b), Signed(r), Signed(a) - Signed(b) * Signed(r))
  }

  ghost predicate IsRemainder(a: Word, b: Word, r: Word) {
    if Signed(b) == 0 then r == a
    else if DivisionOverflows(a, b) then Number(r) == 0
    else exists q: int :: Divides(Signed(a), Signed(b), q, Signed(r))
  }

  predicate IsUnsignedQuotient(a: Word, b: Word, r: Word) { 0 <= Number(a) - Number(b) * Number(r) < Number(b) }

  ghost predicate IsUnsignedRemainder(a: Word, b: Word, r: Word) {
    exists q: nat :: Divides(Number(a), Number(b), q, Number(r))
  }

  ghost predicate BitwiseXor(r: Word, a: Word, b: Word) {
    forall i: nat :: i < 32 ==> BitAt(Number(r), i) == (BitAt(Number(a), i) != BitAt(Number(b), i))
  }

  ghost predicate BitwiseOr(r: Word, a: Word, b: Word) {
    forall i: nat :: i < 32 ==> BitAt(Number(r), i) == (BitAt(Number(a), i) || BitAt(Number(b), i))
  }

  ghost predicate BitwiseAnd(r: Word, a: Word, b: Word) {
    forall i: nat :: i < 32 ==> BitAt(Number(r), i) == (BitAt(Number(a), i) && BitAt(Number(b), i))
  }

  /** Shift amounts are taken modulo 32. */
  function ShiftFactor(b: Word): nat { Pow2(Number(b) % 32) }

  /** The result r of a compute instruction with operands a and b. */
  ghost predicate Computes(kind: InsnKind, a: Word, b: Word, r: Word) {
    match kind
    case ADD | ADDI => Stands(r, Number(a) + Number(b))
    case SUB => Stands(r, Number(a) - Number(b))
    case XOR | XORI => BitwiseXor(r, a, b)
    case OR | ORI => BitwiseOr(r, a, b)
    case AND | ANDI => BitwiseAnd(r, a, b)
    case SLL | SLLI => Stands(r, Number(a) * ShiftFactor(b))
    case SRL | SRLI => Number(r) == Number(a) / ShiftFactor(b)
    case SRA | SRAI => Signed(r) == Signed(a) / ShiftFactor(b)
    case SLT | SLTI => Number(r) == Bit(Signed(a) < Signed(b))
    case SLTU | SLTIU => Number(r) == Bit(Number(a) < Number(b))
    case MUL => Stands(r, Number(a) * Number(b))
    case MULH => Signed(r) == Signed(a) * Signed(b) / TWO32
    case MULHSU => Signed(r) == Signed(a) * Number(b) / TWO32
    case MULHU => Number(r) == Number(a) * Number(b) / TWO32
    case DIV => IsQuotient(a, b, r)
    case REM => IsRemainder(a, b, r)
    case DIVU => if Number(b) == 0 then Number(r) == TWO32 - 1 else IsUnsignedQuotient(a, b, r)
    case REMU => if Number(b) == 0 then r == a else IsUnsignedRemainder(a, b, r)
    case _ => false
  }

  /** The compute instructions that do not jump. */
  predicate IsArithmetic(kind: InsnKind) {
    kind in {ADD, SUB, XOR, OR, AND, SLL, SRL, SRA, SLT, SLTU, ADDI, XORI, ORI, ANDI, SLLI, SRLI, SRAI, SLTI, SLTIU,
             MUL, MULH, MULHSU, MULHU, DIV, DIVU, REM, REMU}
  }

  // ---------- shifts, comparisons and single bits ----------

  lemma FlagNumber(x: bool)
    ensures Number(Flag(x)) == Bit(x)
  {
    hide Number;
    ZeroWord();
  }

  lemma ShiftAmountNumber(b: Word)
    ensures Number(ShiftAmount(b)) == Number(b) % 32
  {
    hide Number, And;
    LowBits(b);
  }

  lemma ShiftsCompute(a: Word, b: Word)
    ensures Stands(ShiftLeft(a, ShiftAmount(b)), Number(a) * ShiftFactor(b))
    ensures Number(ShiftRight(a, ShiftAmount(b))) == Number(a) / ShiftFactor(b)
    ensures Signed(ShiftRightArithmetic(a, ShiftAmount(b))) == Signed(a) / ShiftFactor(b)
  {
    hide Number, ShiftLeft, ShiftRight, ShiftRightArithmetic, ShiftAmount;
    ShiftAmountNumber(b);
    ShiftLeftNumber(a, ShiftAmount(b));
    ShiftRightNumber(a, ShiftAmount(b));
    ShiftRightArithmeticNumber(a, ShiftAmount(b));
  }

  lemma BitsCompute(a: Word, b: Word)
    ensures BitwiseXor(Xor(a, b), a, b) && BitwiseOr(Or(a, b), a, b) && BitwiseAnd(And(a, b), a, b)
  {
    hide Number, Xor, Or, And, BitAt;
    forall i: nat | i < 32
      ensures BitAt(Number(Xor(a, b)), i) == (BitAt(Number(a), i) != BitAt(Number(b), i))
      ensures BitAt(Number(Or(a, b)), i) == (BitAt(Number(a), i) || BitAt(Number(b), i))
      ensures BitAt(Number(And(a, b)), i) == (BitAt(Number(a), i) && BitAt(Number(b), i))
    {
      BitwiseNumber(a, b, i);
    }
  }

  lemma ComparisonsCompute(a: Word, b: Word)
    ensures Number(Flag(SignedLess(a, b))) == Bit(Signed(a) < Signed(b))
    ensures Number(Flag(Less(a, b))) == Bit(Number(a) < Number(b))
  {
    hide Number, SignedLess, Less, Flag;
    SignedOrder(a, b);
    LessOrder(a, b);
    FlagNumber(SignedLess(a, b));
    FlagNumber(Less(a, b));
  }

  // ---------- products ----------

  lemma ProductBounds(x: int, y: int, m: int, n: int)
    requires Abs(x) <= m && Abs(y) <= n
    ensures Abs(x * y) <= m * n
  {
    ProductAtMost(Abs(x), Abs(y), m, n);
    assert x * y == Abs(x) * Abs(y) || x * y == -(Abs(x) * Abs(y));
  }

  lemma ProductAtMost(x: nat, y: nat, m: nat, n: nat)
    requires x <= m && y <= n
    ensures 0 <= x * y <= m * n
  {
    assert x * y <= x * n;
    assert x * n <= m * n;
  }

  /** The 64-bit products do not wrap around. */
  lemma SignedExact(x: int, y: int)
    requires -TWO31 <= x < TWO31 && -TWO32 < y < TWO32
    ensures SignedProduct(x, y) == x * y && -TWO31 <= x * y / TWO32 < TWO31
  {
    ProductBounds(x, y, TWO31, TWO32 - 1);
  }

  lemma UnsignedExact(x: nat, y: nat)
    requires x < TWO32 && y < TWO32
    ensures UnsignedProduct(x, y) == x * y && 0 <= x * y / TWO32 < TWO32
  {
    ProductAtMost(x, y, TWO32 - 1, TWO32 - 1);
    Quotient64(x * y);
  }

  lemma Quotient64(z: int)
    requires 0 <= z <= (TWO32 - 1) * (TWO32 - 1)
    ensures z % TWO64 == z && 0 <= z / TWO32 < TWO32
  {
  }

  lemma SignedBound(a: Word)
    ensures -TWO31 <= Signed(a) < TWO31
  {
    hide Number;
    NumberBound(a);
  }

  lemma ProductsCompute(a: Word, b: Word)
    ensures Signed(HighWord(SignedProduct(Signed(a), Signed(b)))) == Signed(a) * Signed(b) / TWO32
    ensures Signed(HighWord(SignedProduct(Signed(a), Number(b)))) == Signed(a) * Number(b) / TWO32
    ensures Number(HighWord(UnsignedProduct(Number(a), Number(b)))) == Number(a) * Number(b) / TWO32
  {
    hide Number, Signed, Wrapped, SignedProduct, UnsignedProduct;
    NumberBound(a);
    NumberBound(b);
    SignedBound(a);
    SignedBound(b);
    SignedExact(Signed(a), Signed(b));
    SignedExact(Signed(a), Number(b));
    UnsignedExact(Number(a), Number(b));
    SignedWrapped(Signed(a) * Signed(b) / TWO32);
    SignedWrapped(Signed(a) * Number(b) / TWO32);
    WrappedNumber(Number(a) * Number(b) / TWO32);
  }

  // ---------- quotients ----------

  lemma TruncatedDivides(x: int, y: int)
    requires y != 0
    ensures Divides(x, y, TruncatedDiv(x, y), TruncatedRem(x, y))
  {
    var q, r := Abs(x) / Abs(y), Abs(x) % Abs(y);
    assert Abs(x) == Abs(y) * q + r;
    assert (-y) * q == -(y * q) && y * (-q) == -(y * q);
  }

  lemma QuotientBound(x: nat, y: nat)
    requires y > 0
    ensures 0 <= x / y <= x && (x / y == x ==> x == 0 || y == 1)
  {
    QuotientSmall(x, y);
    if x / y == x && y > 1 {
      assert y * x <= x;
      assert y * x >= 2 * x;
    }
  }

  /** Without an overflow the signed quotient and remainder fit into a word. */
  lemma TruncatedFits(a: Word, b: Word)
    requires Signed(b) != 0
    ensures !DivisionOverflows(a, b) ==> -TWO31 <= TruncatedDiv(Signed(a), Signed(b)) < TWO31
    ensures -TWO31 <= TruncatedRem(Signed(a), Signed(b)) < TWO31
    ensures DivisionOverflows(a, b) ==> TruncatedDiv(Signed(a), Signed(b)) == TWO31
                                        && TruncatedRem(Signed(a), Signed(b)) == 0
  {
    hide Number;
    NumberBound(a);
    NumberBound(b);
    QuotientBound(Abs(Signed(a)), Abs(Signed(b)));
  }

  lemma SignedDivisionComputes(a: Word, b: Word)
    requires Signed(b) != 0
    ensures IsQuotient(a, b, Wrapped(TruncatedDiv(Signed(a), Signed(b))))
    ensures IsRemainder(a, b, Wrapped(TruncatedRem(Signed(a), Signed(b))))
  {
    hide Number, Wrapped, TruncatedDiv, TruncatedRem;
    var q, r := TruncatedDiv(Signed(a), Signed(b)), TruncatedRem(Signed(a), Signed(b));
    TruncatedDivides(Signed(a), Signed(b));
    TruncatedFits(a, b);
    WrappedNumber(q);
    WrappedNumber(r);
    SignedWrapped(r);
    NumberBound(a);
    if DivisionOverflows(a, b) {
      NumberInjective(Wrapped(q), a);
    } else {
      SignedWrapped(q);
      assert Divides(Signed(a), Signed(b), q, Signed(Wrapped(r)));
    }
  }

  lemma UnsignedDivisionComputes(a: Word, b: Word)
    requires Number(b) != 0
    ensures IsUnsignedQuotient(a, b, Wrapped(Number(a) / Number(b)))
    ensures IsUnsignedRemainder(a, b, Wrapped(Number(a) % Number(b)))
  {
    hide Number, Wrapped, Divides;
    var x, y := Number(a), Number(b);
    UnsignedQuotient(x, y);
    UnsignedWords(a, b);
    assert Divides(x, y, x / y, Number(Wrapped(x % y)));
  }

  lemma UnsignedWords(a: Word, b: Word)
    requires Number(b) != 0
    ensures Number(Wrapped(Number(a) / Number(b))) == Number(a) / Number(b)
    ensures Number(Wrapped(Number(a) % Number(b))) == Number(a) % Number(b)
  {
    hide Number, Wrapped, Divides;
    NumberBound(a);
    UnsignedQuotient(Number(a), Number(b));
    WrappedNumber(Number(a) / Number(b));
    WrappedNumber(Number(a) % Number(b));
  }

  lemma UnsignedQuotient(x: nat, y: nat)
    requires y > 0
    ensures 0 <= x / y <= x && 0 <= x % y <= x && 0 <= x - y * (x / y) < y && Divides(x, y, x / y, x % y)
  {
    QuotientSmall(x, y);
    assert x == y * (x / y) + x % y;
    assert 0 <= y * (x / y);
  }

  // ---------- the results of the emulator ----------

  lemma SumResults(kind: InsnKind, a: Word, b: Word)
    requires kind in {ADD, ADDI, SUB, MUL}
    ensures Computes(kind, a, b, Alu(kind, a, b))
  {
    hide Number, Wrapped, Xor, Or, And, ShiftAmount, ShiftLeft, ShiftRight, ShiftRightArithmetic, SignedLess, Less,
         Flag, HighWord, SignedProduct, UnsignedProduct, TruncatedDiv, TruncatedRem, Stands;
    WrappedStands(Number(a) + Number(b));
    WrappedStands(Number(a) - Number(b));
    WrappedStands(Number(a) * Number(b));
  }

  lemma WrappedStands(z: int)
    ensures Stands(Wrapped(z), z)
  {
    hide Number, Wrapped;
    WrappedNumber(z);
  }

  lemma BitwiseResults(kind: InsnKind, a: Word, b: Word)
    requires kind in {XOR, XORI, OR, ORI, AND, ANDI}
    ensures Computes(kind, a, b, Alu(kind, a, b))
  {
    hide Number, Wrapped, Signed, WrappingAdd, Xor, Or, And, ShiftAmount, ShiftLeft, ShiftRight, ShiftRightArithmetic,
         SignedLess, Less, Flag, HighWord, SignedProduct, UnsignedProduct, TruncatedDiv, TruncatedRem,
         BitwiseXor, BitwiseOr, BitwiseAnd, ShiftFactor, IsQuotient, IsRemainder, IsUnsignedQuotient,
             IsUnsignedRemainder;
    BitsCompute(a, b);
  }

  lemma ShiftResults(kind: InsnKind, a: Word, b: Word)
    requires kind in {SLL, SLLI, SRL, SRLI, SRA, SRAI}
    ensures Computes(kind, a, b, Alu(kind, a, b))
  {
    hide Number, Wrapped, Signed, WrappingAdd, Xor, Or, And, ShiftAmount, ShiftLeft, ShiftRight, ShiftRightArithmetic,
         SignedLess, Less, Flag, HighWord, SignedProduct, UnsignedProduct, TruncatedDiv, TruncatedRem,
         BitwiseXor, BitwiseOr, BitwiseAnd, ShiftFactor, IsQuotient, IsRemainder, IsUnsignedQuotient,
             IsUnsignedRemainder;
    ShiftsCompute(a, b);
  }

  lemma ComparisonResults(kind: InsnKind, a: Word, b: Word)
    requires kind in {SLT, SLTI, SLTU, SLTIU}
    ensures Computes(kind, a, b, Alu(kind, a, b))
  {
    hide Number, Wrapped, Signed, WrappingAdd, Xor, Or, And, ShiftAmount, ShiftLeft, ShiftRight, ShiftRightArithmetic,
         SignedLess, Less, Flag, HighWord, SignedProduct, UnsignedProduct, TruncatedDiv, TruncatedRem,
         BitwiseXor, BitwiseOr, BitwiseAnd, ShiftFactor, IsQuotient, IsRemainder, IsUnsignedQuotient,
             IsUnsignedRemainder;
    ComparisonsCompute(a, b);
  }

  lemma ProductResults(kind: InsnKind, a: Word, b: Word)
    requires kind in {MULH, MULHSU, MULHU}
    ensures Computes(kind, a, b, Alu(kind, a, b))
  {
    hide Number, Wrapped, Signed, WrappingAdd, Xor, Or, And, ShiftAmount, ShiftLeft, ShiftRight, ShiftRightArithmetic,
         SignedLess, Less, Flag, HighWord, SignedProduct, UnsignedProduct, TruncatedDiv, TruncatedRem,
         BitwiseXor, BitwiseOr, BitwiseAnd, ShiftFactor, IsQuotient, IsRemainder, IsUnsignedQuotient,
             IsUnsignedRemainder;
    ProductsCompute(a, b);
  }

  lemma DivisionResults(kind: InsnKind, a: Word, b: Word)
    requires kind in {DIV, DIVU, REM, REMU}
    ensures Computes(kind, a, b, Alu(kind, a, b))
  {
    hide Number, Wrapped, Signed, WrappingAdd, Xor, Or, And, ShiftAmount, ShiftLeft, ShiftRight, ShiftRightArithmetic,
         SignedLess, Less, Flag, HighWord, SignedProduct, UnsignedProduct, TruncatedDiv, TruncatedRem,
         BitwiseXor, BitwiseOr, BitwiseAnd, ShiftFactor, IsQuotient, IsRemainder, IsUnsignedQuotient,
             IsUnsignedRemainder;
    NotZero(b);
    AllOnes();
    if b != 0 {
      SignedDivisionComputes(a, b);
      UnsignedDivisionComputes(a, b);
    } else {
      ByZero(a, b);
    }
  }

  lemma ByZero(a: Word, b: Word)
    requires Signed(b) == 0
    ensures IsQuotient(a, b, 0xFFFF_FFFF) && IsRemainder(a, b, a)
  {
    AllOnes();
    hide Number;
  }

  /** The result that the emulator computes is the specified one, for every instruction and all operands. */
  lemma AluComputes(kind: InsnKind, a: Word, b: Word)
    requires IsArithmetic(kind)
    ensures Computes(kind, a, b, Alu(kind, a, b))
  {
    hide Computes, Alu;
    if kind in {ADD, ADDI, SUB, MUL} { SumResults(kind, a, b); }
    else if kind in {MULH, MULHSU, MULHU} { ProductResults(kind, a, b); }
    else if kind in {DIV, DIVU, REM, REMU} { DivisionResults(kind, a, b); }
    else if kind in {XOR, XORI, OR, ORI, AND, ANDI} { BitwiseResults(kind, a, b); }
    else if kind in {SLL, SLLI, SRL, SRLI, SRA, SRAI} { ShiftResults(kind, a, b); }
    else { ComparisonResults(kind, a, b); }
  }

  lemma AllOnes()
    ensures Number(0xFFFF_FFFF) == TWO32 - 1 && Signed(0xFFFF_FFFF) == -1
  {
  }

  // ---------- the specification determines the result ----------

  lemma SignedInjective(x: Word, y: Word)
    requires Signed(x) == Signed(y)
    ensures x == y
  {
    hide Number;
    NumberBound(x);
    NumberBound(y);
    NumberInjective(x, y);
  }

  ghost predicate SameBits(x: Word, y: Word, n: nat) {
    forall i: nat :: i < n ==> BitAt(Number(x), i) == BitAt(Number(y), i)
  }

  lemma {:induction false} BitsDetermine(x: Word, y: Word, n: nat)
    requires SameBits(x, y, n) && Number(x) < Pow2(n) && Number(y) < Pow2(n)
    ensures Number(x) == Number(y)
    decreases n
  {
    hide Number, BitAt, Upper, Odd;
    if n > 0 {
      HalvesNumber(x);
      HalvesNumber(y);
      BitStep(x, 0);
      BitStep(y, 0);
      assert BitAt(Number(x), 0) == BitAt(Number(y), 0);
      forall i: nat | i < n - 1 ensures BitAt(Number(Upper(x)), i) == BitAt(Number(Upper(y)), i) {
        BitStep(x, i);
        BitStep(y, i);
        assert BitAt(Number(x), i + 1) == BitAt(Number(y), i + 1);
      }
      BitsDetermine(Upper(x), Upper(y), n - 1);
    }
  }

  lemma SameBitsEqual(x: Word, y: Word)
    requires SameBits(x, y, 32)
    ensures x == y
  {
    hide Number, SameBits;
    TopPower();
    NumberBound(x);
    NumberBound(y);
    BitsDetermine(x, y, 32);
    NumberInjective(x, y);
  }

  lemma DividesUnique(a: int, b: int, q: int, r: int, q': int, r': int)
    requires b != 0 && Divides(a, b, q, r) && Divides(a, b, q', r')
    ensures q == q' && r == r'
  {
    Distribute(q, q', b);
    Commute(b, q);
    Commute(b, q');
    if q != q' {
      AbsProduct(q - q', b);
      assert false;
    }
  }

  lemma Commute(x: int, y: int)
    ensures x * y == y * x
  {
  }

  lemma AbsProduct(d: int, b: int)
    requires d != 0
    ensures Abs(d * b) >= Abs(b)
  {
    assert d * b == Abs(d) * b || d * b == -(Abs(d) * b);
    assert Abs(d) * b == Abs(d) * Abs(b) || Abs(d) * b == -(Abs(d) * Abs(b));
    MulAtLeast(Abs(d), Abs(b));
  }

  lemma QuotientsUnique(a: Word, b: Word, r: Word, s: Word)
    ensures IsQuotient(a, b, r) && IsQuotient(a, b, s) ==> r == s
    ensures IsRemainder(a, b, r) && IsRemainder(a, b, s) ==> r == s
  {
    hide Number, Divides;
    if IsQuotient(a, b, r) && IsQuotient(a, b, s) {
      if Signed(b) != 0 && !DivisionOverflows(a, b) {
        DividesUnique(Signed(a), Signed(b), Signed(r), Signed(a) - Signed(b) * Signed(r), Signed(s),
                      Signed(a) - Signed(b) * Signed(s));
      }
      if Signed(r) == Signed(s) { SignedInjective(r, s); }
    }
    if IsRemainder(a, b, r) && IsRemainder(a, b, s) {
      if Signed(b) != 0 && DivisionOverflows(a, b) {
        NumberInjective(r, s);
      } else if Signed(b) != 0 {
        var q :| Divides(Signed(a), Signed(b), q, Signed(r));
        var q' :| Divides(Signed(a), Signed(b), q', Signed(s));
        DividesUnique(Signed(a), Signed(b), q, Signed(r), q', Signed(s));
        SignedInjective(r, s);
      }
    }
  }

  lemma UnsignedQuotientsUnique(a: Word, b: Word, r: Word, s: Word)
    requires Number(b) != 0
    ensures IsUnsignedQuotient(a, b, r) && IsUnsignedQuotient(a, b, s) ==> r == s
    ensures IsUnsignedRemainder(a, b, r) && IsUnsignedRemainder(a, b, s) ==> r == s
  {
    hide Number;
    var x, y := Number(a), Number(b);
    if IsUnsignedQuotient(a, b, r) && IsUnsignedQuotient(a, b, s) {
      DividesUnique(x, y, Number(r), x - y * Number(r), Number(s), x - y * Number(s));
      NumberInjective(r, s);
    }
    if IsUnsignedRemainder(a, b, r) && IsUnsignedRemainder(a, b, s) {
      var q: nat :| Divides(x, y, q, Number(r));
      var q': nat :| Divides(x, y, q', Number(s));
      DividesUnique(x, y, q, Number(r), q', Number(s));
      NumberInjective(r, s);
    }
  }

  lemma BitwiseUnique(a: Word, b: Word, r: Word, s: Word)
    ensures BitwiseXor(r, a, b) && BitwiseXor(s, a, b) ==> r == s
    ensures BitwiseOr(r, a, b) && BitwiseOr(s, a, b) ==> r == s
    ensures BitwiseAnd(r, a, b) && BitwiseAnd(s, a, b) ==> r == s
  {
    hide Number, BitAt;
    if SameBits(r, s, 32) { SameBitsEqual(r, s); }
  }

  /** No two words meet the specification of one result. */
  lemma ComputesUnique(kind: InsnKind, a: Word, b: Word, r: Word, s: Word)
    requires Computes(kind, a, b, r) && Computes(kind, a, b, s)
    ensures r == s
  {
    hide Number, Signed, BitwiseXor, BitwiseOr, BitwiseAnd, ShiftFactor, IsQuotient, IsRemainder, IsUnsignedQuotient,
         IsUnsignedRemainder;
    BitwiseUnique(a, b, r, s);
    QuotientsUnique(a, b, r, s);
    if Number(b) != 0 { UnsignedQuotientsUnique(a, b, r, s); }
    if Number(r) == Number(s) { NumberInjective(r, s); }
    if Signed(r) == Signed(s) { SignedInjective(r, s); }
  }

  // ---------- instructions that belong together ----------

  lemma SignedModulo(a: Word)
    ensures exists k: int :: Signed(a) == Number(a) + k * TWO32
  {
    hide Number;
    assert Signed(a) == Number(a) + 0 * TWO32 || Signed(a) == Number(a) + (-1) * TWO32;
  }

  lemma ProductModulo(x: int, y: int, j: int, k: int)
    ensures (x + j * TWO32) * (y + k * TWO32) % TWO32 == x * y % TWO32
  {
    var z := x * k + y * j + j * k * TWO32;
    assert (x + j * TWO32) * (y + k * TWO32) == x * y + z * TWO32;
    ModuloMultiple(x * y, z);
  }

  lemma ModuloMultiple(x: int, z: int)
    ensures (x + z * TWO32) % TWO32 == x % TWO32
  {
    assert (x + z * TWO32) / TWO32 == x / TWO32 + z;
  }

  lemma ProductCongruent(a: Word, b: Word)
    ensures Signed(a) * Signed(b) % TWO32 == Number(a) * Number(b) % TWO32
    ensures Signed(a) * Number(b) % TWO32 == Number(a) * Number(b) % TWO32
  {
    hide Number, Signed;
    SignedModulo(a);
    SignedModulo(b);
    var j: int :| Signed(a) == Number(a) + j * TWO32;
    var k: int :| Signed(b) == Number(b) + k * TWO32;
    ProductModulo(Number(a), Number(b), j, k);
    ProductModulo(Number(a), Number(b), j, 0);
  }

  /** The high and the low word of a product together are the exact product, for all three kinds of signs. */
  lemma WholeProduct(a: Word, b: Word)
    ensures TWO32 * Signed(Alu(MULH, a, b)) + Number(Alu(MUL, a, b)) == Signed(a) * Signed(b)
    ensures TWO32 * Signed(Alu(MULHSU, a, b)) + Number(Alu(MUL, a, b)) == Signed(a) * Number(b)
    ensures TWO32 * Number(Alu(MULHU, a, b)) + Number(Alu(MUL, a, b)) == Number(a) * Number(b)
  {
    hide Number, Signed, Alu;
    AluComputes(MUL, a, b);
    AluComputes(MULH, a, b);
    AluComputes(MULHSU, a, b);
    AluComputes(MULHU, a, b);
    ProductCongruent(a, b);
  }

  lemma SignedDivisionWhole(a: Word, b: Word, q: Word, r: Word)
    requires IsQuotient(a, b, q) && IsRemainder(a, b, r)
    ensures Stands(a, Signed(b) * Signed(q) + Signed(r))
  {
    hide Number, Divides, Stands;
    SignedStands(a);
    if Signed(b) != 0 && DivisionOverflows(a, b) {
      OverflowStands(a);
    } else if Signed(b) != 0 {
      var p :| Divides(Signed(a), Signed(b), p, Signed(r));
      DividesUnique(Signed(a), Signed(b), p, Signed(r), Signed(q), Signed(a) - Signed(b) * Signed(q));
    }
  }

  lemma OverflowStands(a: Word)
    requires Signed(a) == -TWO31
    ensures Stands(a, -1 * Signed(a))
  {
    hide Number;
  }

  lemma UnsignedDivisionWhole(a: Word, b: Word, q: Word, r: Word)
    requires Number(b) != 0 && IsUnsignedQuotient(a, b, q) && IsUnsignedRemainder(a, b, r)
    ensures Number(a) == Number(b) * Number(q) + Number(r)
  {
    hide Number;
    var y, u := Number(b), Number(q);
    var p: nat :| Divides(Number(a), y, p, Number(r));
    DividesUnique(Number(a), y, p, Number(r), u, Number(a) - y * u);
  }

  /** Quotient and remainder give back the dividend modulo 2^32, for all operands: division by zero and the overflow
      included. */
  lemma WholeDivision(a: Word, b: Word)
    ensures Stands(a, Signed(b) * Signed(Alu(DIV, a, b)) + Signed(Alu(REM, a, b)))
    ensures Stands(a, Number(b) * Number(Alu(DIVU, a, b)) + Number(Alu(REMU, a, b)))
  {
    hide Number, Signed, Alu, Stands, IsQuotient, IsRemainder, IsUnsignedQuotient, IsUnsignedRemainder;
    AluComputes(DIV, a, b);
    AluComputes(REM, a, b);
    AluComputes(DIVU, a, b);
    AluComputes(REMU, a, b);
    SignedStands(a);
    SignedDivisionWhole(a, b, Alu(DIV, a, b), Alu(REM, a, b));
    if Number(b) != 0 { UnsignedDivisionWhole(a, b, Alu(DIVU, a, b), Alu(REMU, a, b)); }
  }

  lemma SignedStands(a: Word)
    ensures Stands(a, Signed(a)) && Stands(a, Number(a))
  {
    hide Number;
    NumberBound(a);
  }
}

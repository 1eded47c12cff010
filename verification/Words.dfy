/** Words of 32 bits and the numbers they stand for: order, shifts and single bits.  The laws go through the halves of a
    word: the word without its lowest bit, and that bit. */
module Words {

  type Word = bv32

  const TWO31 := 0x8000_0000
  const TWO32 := 0x1_0000_0000

  function Number(x: bv32): nat { x as nat }

  function Bits(n: nat): bv32
    requires n < TWO32
  {
    n as bv32
  }

  lemma NumberBits(x: bv32)
    ensures Number(x) < TWO32 && Bits(Number(x)) == x
  {
  }

  lemma NumberBound(x: bv32)
    ensures Number(x) < TWO32
  {
  }

  lemma NumberInjective(x: bv32, y: bv32)
    requires Number(x) == Number(y)
    ensures x == y
  {
    hide Number, Bits;
    NumberBits(x);
    NumberBits(y);
  }

  // ---------- the word of a number ----------

  /** The word with the given number, put together from its bytes, and a byte from its two halves. */
  function WordOf(n: nat): Word
    requires n < TWO32
  {
    Join(ByteOf(n / 0x100_0000), ByteOf(n / 0x1_0000 % 0x100), ByteOf(n / 0x100 % 0x100), ByteOf(n % 0x100))
  }

  function Join(b3: bv8, b2: bv8, b1: bv8, b0: bv8): Word {
    ((b3 as bv32) << 24) | ((b2 as bv32) << 16) | ((b1 as bv32) << 8) | (b0 as bv32)
  }

  function ByteOf(n: nat): bv8
    requires n < 0x100
  {
    JoinHalves((n / 0x10) as bv4, (n % 0x10) as bv4)
  }

  function JoinHalves(h1: bv4, h0: bv4): bv8 { ((h1 as bv8) << 4) | (h0 as bv8) }

  lemma JoinNumber(b3: bv8, b2: bv8, b1: bv8, b0: bv8)
    ensures Number(Join(b3, b2, b1, b0))
         == 0x100_0000 * (b3 as nat) + 0x1_0000 * (b2 as nat) + 0x100 * (b1 as nat) + b0 as nat
  {
  }

  lemma JoinHalvesNumber(h1: bv4, h0: bv4)
    ensures JoinHalves(h1, h0) as nat == 0x10 * (h1 as nat) + h0 as nat
  {
  }

  lemma HalfNumber(n: nat)
    requires n < 0x10
    ensures (n as bv4) as nat == n
  {
  }

  lemma ByteNumber(n: nat)
    requires n < 0x100
    ensures ByteOf(n) as nat == n
  {
    hide JoinHalves;
    JoinHalvesNumber((n / 0x10) as bv4, (n % 0x10) as bv4);
    HalfNumber(n / 0x10);
    HalfNumber(n % 0x10);
  }

  lemma WordOfNumber(n: nat)
    requires n < TWO32
    ensures Number(WordOf(n)) == n
  {
    hide Join, Number, ByteOf;
    JoinNumber(ByteOf(n / 0x100_0000), ByteOf(n / 0x1_0000 % 0x100), ByteOf(n / 0x100 % 0x100), ByteOf(n % 0x100));
    ByteNumber(n / 0x100_0000);
    ByteNumber(n / 0x1_0000 % 0x100);
    ByteNumber(n / 0x100 % 0x100);
    ByteNumber(n % 0x100);
    BytesOfNumber(n);
  }

  lemma BytesOfNumber(n: nat)
    ensures n == 0x100_0000 * (n / 0x100_0000) + 0x1_0000 * (n / 0x1_0000 % 0x100) + 0x100 * (n / 0x100 % 0x100)
                 + n % 0x100
  {
    assert n / 0x1_0000 / 0x100 == n / 0x100_0000;
    assert n / 0x100 / 0x100 == n / 0x1_0000;
  }

  /** The word that an integer wraps around to. */
  function Wrapped(z: int): Word { WordOf(z % TWO32) }

  lemma WrappedNumber(z: int)
    ensures Number(Wrapped(z)) == z % TWO32
  {
    hide WordOf, Number;
    WordOfNumber(z % TWO32);
  }

  /** The two's complement reading of a word. */
  function Signed(a: Word): int { if Number(a) >= TWO31 then Number(a) - TWO32 else Number(a) }

  lemma SignedWrapped(z: int)
    requires -TWO31 <= z < TWO31
    ensures Signed(Wrapped(z)) == z
  {
    hide Wrapped, Number;
    WrappedNumber(z);
  }

  // ---------- halves ----------

  function Bit(x: bool): (n: nat)
    ensures n < 2
  {
    if x then 1 else 0
  }

  function Upper(a: Word): Word { a >> 1 }

  function Odd(a: Word): bool { a & 1 == 1 }

  function Append(h: Word, x: bool): Word { if x then (h << 1) | 1 else h << 1 }

  predicate Negative(a: Word) { a >= 0x8000_0000 }

  lemma EvenNumber(h: Word)
    requires !Negative(h)
    ensures Number(h << 1) == 2 * Number(h)
  {
  }

  lemma OddNumber(h: Word)
    requires !Negative(h)
    ensures Number((h << 1) | 1) == 2 * Number(h) + 1
  {
  }

  lemma AppendIs(h: Word)
    ensures Append(h, false) == h << 1 && Append(h, true) == (h << 1) | 1
  {
  }

  lemma AppendNumber(h: Word, x: bool)
    requires !Negative(h)
    ensures Number(Append(h, x)) == 2 * Number(h) + Bit(x)
  {
    hide Number, Append, Negative;
    AppendIs(h);
    EvenNumber(h);
    OddNumber(h);
  }

  lemma Halves(a: Word)
    ensures a == Append(Upper(a), Odd(a)) && !Negative(Upper(a))
  {
  }

  /** A word is twice its upper bits plus its lowest bit. */
  lemma HalvesNumber(a: Word)
    ensures Number(a) == 2 * Number(Upper(a)) + Bit(Odd(a))
  {
    hide Number, Upper, Odd, Append, Negative;
    Halves(a);
    AppendNumber(Upper(a), Odd(a));
  }

  lemma NegativeNumber(a: Word)
    ensures Negative(a) <==> Number(a) >= TWO31
  {
  }

  lemma ZeroWord()
    ensures Number(0) == 0 && Number(1) == 1 && Number(4) == 4 && Number(0xFFFF_FFFF) == 0xFFFF_FFFF
  {
  }

  // ---------- shifts ----------

  function Pow2(n: nat): (p: nat)
    ensures p > 0
  {
    if n == 0 then 1 else 2 * Pow2(n - 1)
  }

  function Double(a: Word): Word { a << 1 }

  lemma DoubleNumber(a: Word)
    ensures Number(Double(a)) == 2 * Number(a) - (if Negative(a) then TWO32 else 0)
  {
  }

  function ShiftLeft(a: Word, n: Word): Word
    requires n < 32
  {
    a << n
  }

  function ShiftRight(a: Word, n: Word): Word
    requires n < 32
  {
    a >> n
  }

  function Before(n: Word): (p: Word)
    requires 0 < n < 32
    ensures p < 32
  {
    n - 1
  }

  lemma BeforeNumber(n: Word)
    requires 0 < n < 32
    ensures Number(n) == Number(Before(n)) + 1
  {
  }

  lemma BeforeIs(n: Word)
    requires 0 < n < 32
    ensures Before(n) < 31 && n == Before(n) + 1
  {
  }

  lemma OneMoreLeft(a: Word, n: Word, p: Word)
    requires p < 31 && n == p + 1
    ensures ShiftLeft(a, n) == Double(ShiftLeft(a, p))
  {
  }

  lemma OneMoreRight(a: Word, n: Word, p: Word)
    requires p < 31 && n == p + 1
    ensures ShiftRight(a, n) == Upper(ShiftRight(a, p))
  {
  }

  lemma ShiftStep(a: Word, n: Word)
    requires 0 < n < 32
    ensures ShiftLeft(a, n) == Double(ShiftLeft(a, Before(n)))
    ensures ShiftRight(a, n) == Upper(ShiftRight(a, Before(n)))
  {
    hide ShiftLeft, ShiftRight, Double, Upper, Before;
    BeforeIs(n);
    OneMoreLeft(a, n, Before(n));
    OneMoreRight(a, n, Before(n));
  }

  lemma ShiftNone(a: Word)
    ensures ShiftLeft(a, 0) == a && ShiftRight(a, 0) == a
  {
  }

  lemma ZeroOrMore(n: Word)
    ensures n == 0 || 0 < n
    ensures Number(n) == 0 <==> n == 0
  {
  }

  lemma {:induction false} ShiftRightNumber(a: Word, n: Word)
    requires n < 32
    ensures Number(ShiftRight(a, n)) == Number(a) / Pow2(Number(n))
    decreases Number(n)
  {
    hide Number, ShiftRight, Upper, Before;
    ZeroOrMore(n);
    if n == 0 {
      ShiftNone(a);
    } else {
      BeforeNumber(n);
      ShiftRightNumber(a, Before(n));
      ShiftStep(a, n);
      HalvesNumber(ShiftRight(a, Before(n)));
      HalfOfQuotient(Number(a), Pow2(Number(Before(n))));
    }
  }

  lemma HalfOfQuotient(x: nat, p: nat)
    requires p > 0
    ensures x / p / 2 == x / (2 * p)
  {
    var q := x / p;
    var h := q / 2;
    assert x == p * q + x % p;
    assert q == 2 * h + q % 2;
    assert p * q == (2 * p) * h + p * (q % 2);
    QuotientIs(x, 2 * p, h, p * (q % 2) + x % p);
  }

  lemma QuotientIs(x: int, m: int, q: int, r: int)
    requires m > 0 && x == m * q + r && 0 <= r < m
    ensures x / m == q && x % m == r
  {
    var d := x / m - q;
    assert m * d == r - x % m;
    if d > 0 { MulAtLeast(d, m); assert false; }
    if d < 0 { MulAtLeast(-d, m); assert false; }
  }

  lemma {:induction false} ShiftLeftNumber(a: Word, n: Word)
    requires n < 32
    ensures Number(ShiftLeft(a, n)) == (Number(a) * Pow2(Number(n))) % TWO32
    decreases Number(n)
  {
    hide Number, ShiftLeft, Double, Before, Negative, Pow2;
    ZeroOrMore(n);
    NumberBound(a);
    if n == 0 {
      ShiftNone(a);
      TwiceProduct(Number(a), 0);
    } else {
      BeforeNumber(n);
      ShiftLeftNumber(a, Before(n));
      ShiftStep(a, n);
      var y := Number(a) * Pow2(Number(Before(n)));
      TwiceProduct(Number(a), Number(Before(n)));
      DoubleNumber(ShiftLeft(a, Before(n)));
      NegativeNumber(ShiftLeft(a, Before(n)));
      NumberBound(ShiftLeft(a, n));
      DoubleRemainder(y, y % TWO32, Number(ShiftLeft(a, n)));
    }
  }

  lemma TwiceProduct(x: nat, k: nat)
    ensures x * Pow2(k + 1) == 2 * (x * Pow2(k)) && x * Pow2(0) == x
  {
  }

  lemma DoubleRemainder(y: nat, r: nat, d: int)
    requires r == y % TWO32 && d == 2 * r - (if r >= TWO31 then TWO32 else 0)
    ensures d == (2 * y) % TWO32
  {
    var q := y / TWO32;
    assert y == TWO32 * q + r;
    QuotientIs(2 * y, TWO32, 2 * q + (if r >= TWO31 then 1 else 0), d);
  }

  // ---------- order ----------

  predicate Less(a: Word, b: Word) { a < b }

  predicate DoubleLess(a: Word, b: Word) { a << 1 < b << 1 }

  lemma LessLow(a: Word, b: Word)
    requires a < 0x8000_0000 && b < 0x8000_0000
    ensures Less(a, b) <==> DoubleLess(a, b)
  {
  }

  lemma LessHigh(a: Word, b: Word)
    requires a >= 0x8000_0000 && b >= 0x8000_0000
    ensures Less(a, b) <==> DoubleLess(a, b)
  {
  }

  lemma LowHigh(a: Word, b: Word)
    requires a < 0x8000_0000 && b >= 0x8000_0000
    ensures Less(a, b) && !Less(b, a)
  {
  }

  lemma DoubleLessIs(a: Word, b: Word)
    ensures DoubleLess(a, b) <==> Less(Double(a), Double(b))
  {
  }

  lemma LessStep(a: Word, b: Word)
    ensures Negative(a) == Negative(b) ==> (Less(a, b) <==> Less(Double(a), Double(b)))
    ensures !Negative(a) && Negative(b) ==> Less(a, b) && !Less(b, a)
  {
    hide Less, DoubleLess, Double;
    DoubleLessIs(a, b);
    if Negative(a) && Negative(b) { LessHigh(a, b); }
    if !Negative(a) && !Negative(b) { LessLow(a, b); }
    if !Negative(a) && Negative(b) { LowHigh(a, b); }
  }

  lemma NotLess()
    ensures !Less(0, 0)
  {
  }

  /** The order of two words that are multiples of 2^k. */
  lemma {:induction false} LessMultiples(a: Word, b: Word, k: nat, x: nat, y: nat)
    requires k <= 32 && Number(a) == x * Pow2(k) && Number(b) == y * Pow2(k)
    ensures Less(a, b) <==> Number(a) < Number(b)
    decreases 32 - k
  {
    hide Less, Number, Double, Negative, Pow2;
    NumberBound(a);
    NumberBound(b);
    TopPower();
    if k == 32 {
      if x > 0 { MulAtLeast(x, Pow2(k)); }
      if y > 0 { MulAtLeast(y, Pow2(k)); }
      ZeroWord();
      NumberInjective(a, 0);
      NumberInjective(b, 0);
      NotLess();
    } else {
      LessStep(a, b);
      LessStep(b, a);
      NegativeNumber(a);
      NegativeNumber(b);
      if Negative(a) == Negative(b) {
        var x' := DoubleMultiple(a, k, x);
        var y' := DoubleMultiple(b, k, y);
        LessMultiples(Double(a), Double(b), k + 1, x', y');
        DoubleNumber(a);
        DoubleNumber(b);
      }
    }
  }

  lemma MulAtLeast(x: nat, p: nat)
    requires x > 0
    ensures x * p >= p
  {
  }

  lemma TwiceOf(x: nat, y: nat)
    ensures 2 * x * y == 2 * (x * y)
  {
  }

  lemma {:induction false} PowerSum(i: nat, j: nat)
    ensures Pow2(i + j) == Pow2(i) * Pow2(j)
  {
    if i > 0 {
      PowerSum(i - 1, j);
      TwiceOf(Pow2(i - 1), Pow2(j));
    }
  }

  lemma TopPower()
    ensures Pow2(32) == TWO32
  {
    assert Pow2(8) == 0x100;
    PowerSum(8, 8);
    PowerSum(16, 16);
  }

  lemma DoubleMultiple(a: Word, k: nat, x: nat) returns (x': nat)
    requires k < 32 && Number(a) == x * Pow2(k)
    ensures Number(Double(a)) == x' * Pow2(k + 1)
  {
    hide Number, Double, Negative, Pow2;
    DoubleNumber(a);
    NumberBound(Double(a));
    TwiceProduct(x, k);
    TopPower();
    PowerSum(k + 1, 31 - k);
    if Negative(a) {
      MultipleBelow(x, Pow2(31 - k), Pow2(k + 1));
      x' := x - Pow2(31 - k);
    } else {
      x' := x;
    }
  }

  lemma Distribute(x: int, y: int, p: int)
    ensures (x - y) * p == x * p - y * p && (y - x) * p == y * p - x * p
  {
  }

  lemma MultipleBelow(x: nat, y: nat, p: nat)
    requires p > 0 && x * p >= y * p
    ensures x >= y && (x - y) * p == x * p - y * p
  {
    Distribute(x, y, p);
    if x < y { MulAtLeast(y - x, p); assert false; }
  }

  lemma LessOrder(a: Word, b: Word)
    ensures Less(a, b) <==> Number(a) < Number(b)
  {
    hide Number, Less;
    OnePower();
    LessMultiples(a, b, 0, Number(a), Number(b));
  }

  lemma OnePower()
    ensures Pow2(0) == 1
  {
  }

  lemma LessNumber(a: Word, b: Word)
    ensures a < b <==> Number(a) < Number(b)
  {
    hide Number;
    LessMultiples(a, b, 0, Number(a), Number(b));
  }

  // ---------- single bits ----------

  function Xor(a: Word, b: Word): Word { a ^ b }

  function Or(a: Word, b: Word): Word { a | b }

  function And(a: Word, b: Word): Word { a & b }

  lemma XorHalves(a: Word, b: Word)
    ensures Upper(Xor(a, b)) == Xor(Upper(a), Upper(b)) && (Odd(Xor(a, b)) <==> Odd(a) != Odd(b))
  {
  }

  lemma OrHalves(a: Word, b: Word)
    ensures Upper(Or(a, b)) == Or(Upper(a), Upper(b)) && (Odd(Or(a, b)) <==> Odd(a) || Odd(b))
  {
  }

  lemma AndHalves(a: Word, b: Word)
    ensures Upper(And(a, b)) == And(Upper(a), Upper(b)) && (Odd(And(a, b)) <==> Odd(a) && Odd(b))
  {
  }

  /** Bit i of a number in base two. */
  predicate BitAt(n: nat, i: nat) { n / Pow2(i) % 2 == 1 }

  lemma BitStep(a: Word, i: nat)
    ensures BitAt(Number(a), 0) == Odd(a) && BitAt(Number(a), i + 1) == BitAt(Number(Upper(a)), i)
  {
    hide Number, Odd, Upper;
    HalvesNumber(a);
    HalfOfSum(Number(a), Number(Upper(a)), Bit(Odd(a)), Pow2(i));
  }

  lemma HalfOfSum(n: nat, h: nat, x: nat, p: nat)
    requires n == 2 * h + x && x < 2 && p > 0
    ensures n / (2 * p) == h / p && n / 1 % 2 == x
  {
    var q := h / p;
    assert h == p * q + h % p;
    assert n == (2 * p) * q + (2 * (h % p) + x);
    QuotientIs(n, 2 * p, q, 2 * (h % p) + x);
  }

  lemma {:induction false} BitwiseNumber(a: Word, b: Word, i: nat)
    ensures BitAt(Number(Xor(a, b)), i) == (BitAt(Number(a), i) != BitAt(Number(b), i))
    ensures BitAt(Number(Or(a, b)), i) == (BitAt(Number(a), i) || BitAt(Number(b), i))
    ensures BitAt(Number(And(a, b)), i) == (BitAt(Number(a), i) && BitAt(Number(b), i))
    decreases i
  {
    hide Number, Odd, Upper, BitAt, Xor, Or, And;
    XorHalves(a, b);
    OrHalves(a, b);
    AndHalves(a, b);
    var j := if i > 0 then i - 1 else 0;
    BitStep(a, j);
    BitStep(b, j);
    BitStep(Xor(a, b), j);
    BitStep(Or(a, b), j);
    BitStep(And(a, b), j);
    if i > 0 { BitwiseNumber(Upper(a), Upper(b), i - 1); }
  }

  /** The lowest k bits set. */
  function Mask(k: nat): Word { if k == 0 then 0 else Append(Mask(k - 1), true) }

  lemma AppendHalves(h: Word, x: bool)
    requires !Negative(h)
    ensures Upper(Append(h, x)) == h && Odd(Append(h, x)) == x
  {
  }

  lemma HalfPower(k: nat)
    requires k <= 32
    ensures k > 0 ==> Pow2(k) == 2 * Pow2(k - 1) && Pow2(k - 1) <= TWO31
    ensures Pow2(0) == 1
  {
    if k > 0 {
      TopPower();
      PowerGrows(k - 1, 31);
    }
  }

  lemma {:induction false} PowerGrows(i: nat, j: nat)
    requires i <= j
    ensures Pow2(i) <= Pow2(j)
  {
    if i < j { PowerGrows(i, j - 1); }
  }

  lemma {:induction false} MaskNumber(k: nat)
    requires k <= 32
    ensures Number(Mask(k)) == Pow2(k) - 1
    ensures k > 0 ==> Upper(Mask(k)) == Mask(k - 1) && Odd(Mask(k))
  {
    hide Number, Upper, Odd, Negative, Append, Pow2;
    HalfPower(k);
    if k > 0 {
      MaskNumber(k - 1);
      HalfPower(k);
      NegativeNumber(Mask(k - 1));
      AppendNumber(Mask(k - 1), true);
      AppendHalves(Mask(k - 1), true);
    } else {
      ZeroWord();
    }
  }

  lemma AndZero(a: Word)
    ensures And(a, 0) == 0 && Xor(a, 0) == a
  {
  }

  lemma {:induction false} MaskedNumber(a: Word, k: nat)
    requires k <= 32
    ensures Number(And(a, Mask(k))) == Number(a) % Pow2(k)
    decreases k
  {
    hide Number, Upper, Odd, And, Xor, Mask;
    MaskNumber(k);
    if k == 0 {
      AndZero(a);
      ZeroWord();
      MaskZero();
    } else {
      MaskedNumber(Upper(a), k - 1);
      AndHalves(a, Mask(k));
      HalvesNumber(a);
      HalvesNumber(And(a, Mask(k)));
      LowPart(Number(a), Number(Upper(a)), Bit(Odd(a)), Pow2(k - 1));
    }
  }

  lemma MaskZero()
    ensures Mask(0) == 0
  {
  }

  lemma LowPart(n: nat, h: nat, x: nat, p: nat)
    requires n == 2 * h + x && x < 2 && p > 0
    ensures n % (2 * p) == 2 * (h % p) + x
  {
    var q := h / p;
    assert h == p * q + h % p;
    assert n == (2 * p) * q + (2 * (h % p) + x);
    QuotientIs(n, 2 * p, q, 2 * (h % p) + x);
  }

  /** Flipping the lowest k bits. */
  lemma {:induction false} FlippedNumber(a: Word, k: nat)
    requires k <= 32 && Number(a) < Pow2(k)
    ensures Number(Xor(a, Mask(k))) == Pow2(k) - 1 - Number(a)
    decreases k
  {
    hide Number, Upper, Odd, And, Xor, Mask;
    MaskNumber(k);
    if k == 0 {
      AndZero(a);
      MaskZero();
    } else {
      HalvesNumber(a);
      FlippedNumber(Upper(a), k - 1);
      XorHalves(a, Mask(k));
      HalvesNumber(Xor(a, Mask(k)));
    }
  }

  function Not(a: Word): Word { !a }

  lemma NotIsFlip(a: Word)
    ensures Not(a) == Xor(a, 0xFFFF_FFFF)
  {
  }

  lemma NotNumber(a: Word)
    ensures Number(Not(a)) == TWO32 - 1 - Number(a)
  {
    hide Number, Xor, Not, Mask;
    NumberBound(a);
    TopPower();
    ZeroWord();
    MaskNumber(32);
    NumberInjective(Mask(32), 0xFFFF_FFFF);
    FlippedNumber(a, 32);
    NotIsFlip(a);
  }

  /** The lowest bits of a word as a number. */
  lemma LowBits(a: Word)
    ensures Number(And(a, 1)) == Number(a) % 2 && Number(And(a, 3)) == Number(a) % 4
    ensures Number(And(a, 0x1f)) == Number(a) % 32
  {
    hide Number, And, Mask;
    MaskNumber(1);
    MaskNumber(2);
    MaskNumber(5);
    SmallMasks();
    MaskedNumber(a, 1);
    MaskedNumber(a, 2);
    MaskedNumber(a, 5);
    NumberInjective(Mask(1), 1);
    NumberInjective(Mask(2), 3);
    NumberInjective(Mask(5), 0x1f);
  }

  lemma SmallMasks()
    ensures Number(1) == 1 && Number(3) == 3 && Number(0x1f) == 31
    ensures Pow2(1) == 2 && Pow2(2) == 4 && Pow2(5) == 32
  {
  }

  // ---------- signed words ----------

  predicate SignedLess(a: Word, b: Word) { a ^ 0x8000_0000 < b ^ 0x8000_0000 }

  lemma FlipTopBits(a: bv32)
    ensures (a ^ 0x8000_0000) as int == if a >= 0x8000_0000 then a as int - 0x8000_0000 else a as int + 0x8000_0000
  {
  }

  lemma SignedLessIs(a: Word, b: Word)
    ensures SignedLess(a, b) <==> Less(FlipTop(a), FlipTop(b))
  {
  }

  function FlipTop(a: Word): Word { a ^ 0x8000_0000 }

  lemma FlipTopNumber(a: Word)
    ensures Number(FlipTop(a)) == Signed(a) + TWO31
  {
    FlipTopBits(a);
    NegativeNumber(a);
  }

  lemma SignedOrder(a: Word, b: Word)
    ensures SignedLess(a, b) <==> Signed(a) < Signed(b)
  {
    hide Number, FlipTop, SignedLess, Less;
    FlipTopNumber(a);
    FlipTopNumber(b);
    SignedLessIs(a, b);
    LessMultiples(FlipTop(a), FlipTop(b), 0, Number(FlipTop(a)), Number(FlipTop(b)));
  }

  function ShiftRightArithmetic(a: Word, n: Word): Word
    requires n < 32
  {
    if Negative(a) then Not(ShiftRight(Not(a), n)) else ShiftRight(a, n)
  }

  /** The arithmetic shift divides the signed number and rounds down. */
  lemma ShiftRightArithmeticNumber(a: Word, n: Word)
    requires n < 32
    ensures Signed(ShiftRightArithmetic(a, n)) == Signed(a) / Pow2(Number(n))
  {
    hide Number, Negative, ShiftRight, Not;
    NegativeNumber(a);
    NotNumber(a);
    NumberBound(a);
    var p := Pow2(Number(n));
    ShiftRightNumber(Not(a), n);
    ShiftRightNumber(a, n);
    NotNumber(ShiftRight(Not(a), n));
    QuotientSmall(Number(a), p);
    QuotientSmall(Number(Not(a)), p);
    NegativeQuotient(Number(Not(a)), p);
  }

  lemma QuotientSmall(x: nat, p: nat)
    requires p > 0
    ensures 0 <= x / p <= x
  {
    var q := x / p;
    assert x == p * q + x % p;
    if q > x { MulAtLeast(q, p); assert p * q >= q by { MulAtLeast(p, q); } assert false; }
  }

  lemma NegativeQuotient(x: nat, p: nat)
    requires p > 0
    ensures (-1 - x) / p == -1 - x / p
  {
    var q := x / p;
    assert x == p * q + x % p;
    assert -1 - x == p * (-1 - q) + (p - 1 - x % p);
    QuotientIs(-1 - x, p, -1 - q, p - 1 - x % p);
  }
}

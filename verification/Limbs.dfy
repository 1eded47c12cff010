/** Arithmetic on integers in 16-bit limbs: addition with carries, multiplication by accumulated columns, and the
    witness of a division. */
module Limbs {
  import opened Wrappers
  import opened Sums
  import opened Words
  import opened Rv32im

  const BASE := 0x1_0000
  const U64 := 0x1_0000_0000_0000_0000

  function Power(i: nat): (r: nat)
    ensures r > 0
  {
    if i == 0 then 1 else BASE * Power(i - 1)
  }

  /** The number with the given digits, lowest first; digits may exceed the base. */
  function Num(ds: seq<nat>): nat {
    if ds == [] then 0 else ds[0] + BASE * Num(ds[1..])
  }

  ghost predicate Digits(ds: seq<nat>) {
    forall i :: 0 <= i < |ds| ==> ds[i] < BASE
  }

  // ---------- arithmetic of digits ----------

  lemma {:induction false} PowerAdd(i: nat, j: nat)
    ensures Power(i + j) == Power(i) * Power(j)
  {
    if i > 0 {
      PowerAdd(i - 1, j);
      MulAssociative(BASE, Power(i - 1), Power(j));
    }
  }

  lemma MulAssociative(a: int, b: int, c: int)
    ensures a * b * c == a * (b * c)
  {
  }

  lemma MulDistributes(a: int, b: int, c: int)
    ensures a * (b + c) == a * b + a * c && (b + c) * a == b * a + c * a
  {
  }

  lemma {:induction false} NumSnoc(ds: seq<nat>, d: nat)
    ensures Num(ds + [d]) == Num(ds) + d * Power(|ds|)
  {
    if ds == [] {
      assert ([] + [d])[1..] == [];
    } else {
      assert (ds + [d])[1..] == ds[1..] + [d];
      NumSnoc(ds[1..], d);
      assert BASE * (d * Power(|ds| - 1)) == d * (BASE * Power(|ds| - 1)) by {
        MulAssociative(BASE, d, Power(|ds| - 1));
        MulAssociative(d, BASE, Power(|ds| - 1));
      }
    }
  }

  lemma {:induction false} NumUpdate(ds: seq<nat>, k: nat, more: nat)
    requires k < |ds|
    ensures Num(ds[k := ds[k] + more]) == Num(ds) + more * Power(k)
  {
    if k == 0 {
      assert ds[0 := ds[0] + more][1..] == ds[1..];
    } else {
      assert ds[k := ds[k] + more][1..] == ds[1..][k - 1 := ds[1..][k - 1] + more];
      NumUpdate(ds[1..], k - 1, more);
      MulAssociative(BASE, more, Power(k - 1));
      MulAssociative(more, BASE, Power(k - 1));
    }
  }

  lemma {:induction false} NumZeros(ds: seq<nat>)
    requires forall i :: 0 <= i < |ds| ==> ds[i] == 0
    ensures Num(ds) == 0
  {
    if ds != [] { NumZeros(ds[1..]); }
  }

  lemma {:induction false} NumBound(ds: seq<nat>)
    requires Digits(ds)
    ensures Num(ds) < Power(|ds|)
  {
    if ds != [] {
      NumBound(ds[1..]);
      assert BASE * Num(ds[1..]) <= BASE * (Power(|ds| - 1) - 1);
    }
  }

  /** Digits below the base determine the number and are determined by it. */
  lemma {:induction false} NumUnique(ds: seq<nat>, es: seq<nat>)
    requires Digits(ds) && Digits(es) && |ds| == |es| && Num(ds) == Num(es)
    ensures ds == es
  {
    if ds != [] {
      SameParts(ds[0], Num(ds[1..]), es[0], Num(es[1..]));
      NumUnique(ds[1..], es[1..]);
      assert ds == [ds[0]] + ds[1..] && es == [es[0]] + es[1..];
    }
  }

  lemma SameParts(a: nat, x: nat, b: nat, y: nat)
    requires a < BASE && b < BASE && a + BASE * x == b + BASE * y
    ensures a == b && x == y
  {
  }

  // ---------- splitting ----------

  /** `split_to_u16`: the lowest n limbs. */
  method SplitToU16(value: nat, n: nat) returns (limbs: seq<nat>, ghost high: nat)
    ensures |limbs| == n && Digits(limbs) && value == Num(limbs) + high * Power(n)
    ensures Num(limbs) == value % Power(n)
    ensures value < Power(n) ==> Num(limbs) == value
  {
    hide Num, Power;
    limbs := [];
    NoDigits();
    var acc: nat := value;
    for i := 0 to n
      invariant |limbs| == i && Digits(limbs) && value == Num(limbs) + acc * Power(i)
    {
      NumSnoc(limbs, acc % BASE);
      SplitStep(acc, Power(i));
      NextPower(i);
      limbs := limbs + [acc % BASE];
      acc := acc / BASE;
    }
    high := acc;
    NoHigh(value, Num(limbs), high, Power(n));
    LowPart(value, limbs, high);
  }

  /** What is left above the limbs does not change the number modulo the limbs. */
  lemma LowPart(value: nat, limbs: seq<nat>, high: nat)
    requires Digits(limbs) && value == Num(limbs) + high * Power(|limbs|)
    ensures value % Power(|limbs|) == Num(limbs)
  {
    hide Num, Power;
    NumBound(limbs);
    DivUnique(value, Power(|limbs|), high);
    Remainder(value, Power(|limbs|));
  }

  lemma Remainder(x: nat, m: nat)
    requires m > 0
    ensures x == (x / m) * m + x % m
  {
  }

  lemma NoDigits()
    ensures Num([]) == 0 && Power(0) == 1
  {
  }

  lemma NextPower(i: nat)
    ensures Power(i + 1) == BASE * Power(i)
  {
  }

  lemma NoHigh(value: nat, low: nat, high: nat, p: nat)
    requires value == low + high * p
    ensures value < p ==> low == value
  {
    if high > 0 { MulOrder(1, high, p); }
  }

  lemma SplitStep(acc: nat, p: nat)
    ensures acc * p == (acc % BASE) * p + (acc / BASE) * (BASE * p)
  {
    assert acc == acc % BASE + (acc / BASE) * BASE;
    MulDistributes(p, acc % BASE, (acc / BASE) * BASE);
    MulAssociative(acc / BASE, BASE, p);
  }

  // ---------- addition ----------

  datatype ValueAdd = ValueAdd(limbs: seq<nat>, carries: seq<nat>)

  function OverflowingAdd(a: nat, b: nat): (nat, bool) {
    ((a + b) % BASE, a + b >= BASE)
  }

  function LastOr(cs: seq<nat>, d: nat): nat { if cs == [] then d else cs[|cs| - 1] }

  /** Carry k is what the sum of the lower places does not hold. */
  ghost predicate SumCarry(a: seq<nat>, b: seq<nat>, limbs: seq<nat>, carries: seq<nat>, k: nat)
    requires k < |a| && k < |b| && k < |limbs| && k < |carries|
  {
    Num(a[..k + 1]) + Num(b[..k + 1]) == Num(limbs[..k + 1]) + carries[k] * Power(k + 1)
  }

  /** One limb: the carry of the previous limb is added in a second step, and either step may carry. */
  method AddLimbs(a: nat, b: nat, carries: seq<nat>) returns (limb: nat, carry: nat)
    requires a < BASE && b < BASE && LastOr(carries, 0) < 2
    ensures limb < BASE && carry < 2 && a + b + LastOr(carries, 0) == limb + BASE * carry
  {
    var first := OverflowingAdd(a, b);
    if carries != [] {
      var second := OverflowingAdd(first.0, carries[|carries| - 1]);
      limb, carry := second.0, if first.1 || second.1 then 1 else 0;
    } else {
      limb, carry := first.0, if first.1 then 1 else 0;
    }
  }

  /** `Value::add`: the sum of both numbers is the number of the limbs plus the last carry in the next place. */
  method Add(a: seq<nat>, b: seq<nat>, withOverflow: bool) returns (r: ValueAdd, ghost top: nat)
    requires Digits(a) && Digits(b) && |a| == |b| > 0
    ensures |r.limbs| == |a| && Digits(r.limbs) && top < 2
    ensures Num(a) + Num(b) == Num(r.limbs) + top * Power(|a|)
    ensures Num(r.limbs) == (Num(a) + Num(b)) % Power(|a|)
    ensures withOverflow ==> |r.carries| == |a| && r.carries[|a| - 1] == top
    ensures !withOverflow ==> |r.carries| == |a| - 1
    ensures forall i :: 0 <= i < |r.carries| ==> r.carries[i] < 2
    ensures forall k :: 0 <= k < |r.carries| ==> SumCarry(a, b, r.limbs, r.carries, k)
  {
    hide Num, Power;
    NoDigits();
    var limbs: seq<nat>, carries: seq<nat> := [], [];
    assert a[..0] == [] && b[..0] == [];
    for i := 0 to |a|
      invariant |limbs| == |carries| == i && Digits(limbs)
      invariant forall k :: 0 <= k < i ==> carries[k] < 2
      invariant Num(a[..i]) + Num(b[..i]) == Num(limbs) + LastOr(carries, 0) * Power(i)
      invariant forall k :: 0 <= k < i ==> SumCarry(a, b, limbs, carries, k)
    {
      var limb, carry := AddLimbs(a[i], b[i], carries);
      assert a[..i + 1] == a[..i] + [a[i]] && b[..i + 1] == b[..i] + [b[i]];
      NumSnoc(a[..i], a[i]);
      NumSnoc(b[..i], b[i]);
      NumSnoc(limbs, limb);
      AddStep(a[i], b[i], LastOr(carries, 0), limb, carry, Power(i));
      NextPower(i);
      ghost var was, cs := limbs, carries;
      limbs, carries := limbs + [limb], carries + [carry];
      assert limbs[..i + 1] == limbs;
      forall k | 0 <= k < i ensures SumCarry(a, b, limbs, carries, k) {
        assert SumCarry(a, b, was, cs, k) && limbs[..k + 1] == was[..k + 1];
      }
    }
    assert a[..|a|] == a && b[..|b|] == b;
    top := carries[|a| - 1];
    LowPart(Num(a) + Num(b), limbs, top);
    ghost var all := carries;
    if !withOverflow {
      carries := carries[..|carries| - 1];
    }
    assert forall k :: 0 <= k < |carries| ==> SumCarry(a, b, limbs, all, k) ==> SumCarry(a, b, limbs, carries, k);
    r := ValueAdd(limbs, carries);
  }

  lemma AddStep(a: nat, b: nat, c: nat, limb: nat, carry: nat, p: nat)
    requires a + b + c == limb + BASE * carry
    ensures a * p + b * p + c * p == limb * p + carry * (BASE * p)
  {
    MulDistributes(p, a, b);
    MulDistributes(p, a + b, c);
    MulDistributes(p, limb, BASE * carry);
    MulAssociative(carry, BASE, p);
  }

  // ---------- multiplication ----------

  const MAX_PRODUCT := 0xFFFF * 0xFFFF

  function DigitAt(ds: seq<nat>, k: int): nat { if 0 <= k < |ds| then ds[k] else 0 }

  /** The part of column k that comes from the first n limbs of a: the products of limbs i < n and k - i. */
  function ColumnTo(a: seq<nat>, b: seq<nat>, k: nat, n: nat): nat {
    if n == 0 then 0 else ColumnTo(a, b, k, n - 1) + DigitAt(a, n - 1) * DigitAt(b, k - (n - 1))
  }

  /** All products of limbs i and j with i + j == k. */
  function Column(a: seq<nat>, b: seq<nat>, k: nat): nat { ColumnTo(a, b, k, |a|) }

  /** The product of the numbers as far as the places below k tell it: all products of limbs i and j with i + j < k,
      each in its place. */
  function ProductBelow(a: seq<nat>, b: seq<nat>, k: nat): nat {
    if k == 0 then 0 else ProductBelow(a, b, k - 1) + Column(a, b, k - 1) * Power(k - 1)
  }

  lemma {:induction false} ColumnsProduct(a: seq<nat>, b: seq<nat>, tmp: seq<nat>, k: nat)
    requires k <= |tmp| && forall i :: 0 <= i < k ==> tmp[i] == Column(a, b, i)
    ensures Num(tmp[..k]) == ProductBelow(a, b, k)
  {
    hide Num, Power, Column;
    if k == 0 {
      NoDigits();
      assert tmp[..0] == [];
    } else {
      ColumnsProduct(a, b, tmp, k - 1);
      assert tmp[..k] == tmp[..k - 1] + [tmp[k - 1]];
      NumSnoc(tmp[..k - 1], tmp[k - 1]);
    }
  }

  /** All products of limbs, each added to its column; those past the last column are dropped. */
  method Columns(a: seq<nat>, b: seq<nat>, m: nat) returns (tmp: seq<nat>, ghost dropped: nat)
    requires Digits(a) && Digits(b) && |a| < 0x8000_0000
    ensures |tmp| == m && Num(tmp) + dropped * Power(m) == Num(a) * Num(b)
    ensures |a| + |b| <= m + 1 ==> dropped == 0
    ensures forall k :: 0 <= k < m ==> tmp[k] <= |a| * MAX_PRODUCT < U64
    ensures forall k :: 0 <= k < m ==> tmp[k] == Column(a, b, k)
  {
    tmp := seq(m, _ => 0);
    dropped := 0;
    NumZeros(tmp);
    assert a[..0] == [];
    for i := 0 to |a|
      invariant |tmp| == m && Num(tmp) + dropped * Power(m) == Num(a[..i]) * Num(b)
      invariant |a| + |b| <= m + 1 ==> dropped == 0
      invariant forall k :: 0 <= k < m ==> tmp[k] <= i * MAX_PRODUCT
      invariant forall k :: 0 <= k < m ==> tmp[k] == ColumnTo(a, b, k, i)
    {
      ghost var more: nat;
      tmp, more := AddRow(tmp, a[i], i, b, |a|);
      MulDistributes(Power(m), dropped, more);
      dropped := dropped + more;
      assert a[..i + 1] == a[..i] + [a[i]];
      NumSnoc(a[..i], a[i]);
      MulDistributes(Num(b), Num(a[..i]), a[i] * Power(i));
    }
    assert a[..|a|] == a;
    MulOrder(|a|, 0x8000_0000, MAX_PRODUCT);
  }

  /** One row: limb a times every limb of b, from column i on. */
  method AddRow(tmp: seq<nat>, a: nat, i: nat, b: seq<nat>, ghost rows: nat) returns (r: seq<nat>, ghost dropped: nat)
    requires a < BASE && Digits(b) && i < rows
    requires forall k :: 0 <= k < |tmp| ==> tmp[k] <= i * MAX_PRODUCT
    ensures |r| == |tmp| && Num(r) + dropped * Power(|tmp|) == Num(tmp) + a * Power(i) * Num(b)
    ensures rows + |b| <= |tmp| + 1 ==> dropped == 0
    ensures forall k :: 0 <= k < |r| ==> r[k] <= (i + 1) * MAX_PRODUCT
    ensures forall k :: 0 <= k < |r| ==> r[k] == tmp[k] + a * DigitAt(b, k - i)
  {
    hide Num, Power;
    NoDigits();
    r := tmp;
    dropped := 0;
    assert b[..0] == [];
    RowStart(a, Power(i), Power(|tmp|));
    for j := 0 to |b|
      invariant |r| == |tmp| && Num(r) + dropped * Power(|tmp|) == Num(tmp) + a * Power(i) * Num(b[..j])
      invariant rows + |b| <= |tmp| + 1 ==> dropped == 0
      invariant forall k :: 0 <= k < |r| && !(i <= k < i + j) ==> r[k] == tmp[k]
      invariant forall k :: 0 <= k < |r| && i <= k < i + j ==> r[k] <= tmp[k] + MAX_PRODUCT
      invariant forall k :: 0 <= k < |r| && i <= k < i + j ==> r[k] == tmp[k] + a * b[k - i]
    {
      var idx, p := i + j, a * b[j];
      ProductBound(a, b[j]);
      assert b[..j + 1] == b[..j] + [b[j]];
      NumSnoc(b[..j], b[j]);
      RowStep(a, i, Num(b[..j]), b[j], j);
      if idx < |r| {
        NumUpdate(r, idx, p);
        r := r[idx := r[idx] + p];
      } else {
        DroppedStep(p, idx, |tmp|, dropped);
        dropped := dropped + p * Power(idx - |tmp|);
      }
    }
    assert b[..|b|] == b;
    MulDistributes(MAX_PRODUCT, i, 1);
  }

  lemma RowStart(a: nat, p: nat, q: nat)
    ensures a * p * 0 == 0 && 0 * q == 0
  {
  }

  lemma ProductBound(a: nat, b: nat)
    requires a < BASE && b < BASE
    ensures 0 <= a * b <= MAX_PRODUCT
  {
    MulOrder(a, 0xFFFF, b);
    MulOrder(b, 0xFFFF, 0xFFFF);
    assert a * b <= 0xFFFF * b && 0xFFFF * b == b * 0xFFFF;
  }

  lemma RowStep(a: nat, i: nat, n: nat, b: nat, j: nat)
    ensures a * Power(i) * (n + b * Power(j)) == a * Power(i) * n + (a * b) * Power(i + j)
  {
    PowerAdd(i, j);
    MulDistributes(a * Power(i), n, b * Power(j));
    var x, y := Power(i), Power(j);
    assert a * x * (b * y) == (a * b) * (x * y) by {
      MulAssociative(a, x, b * y);
      MulAssociative(x, b, y);
      MulAssociative(b, x, y);
      MulAssociative(a, b, x * y);
    }
  }

  lemma DroppedStep(p: nat, idx: nat, m: nat, dropped: nat)
    requires idx >= m
    ensures (dropped + p * Power(idx - m)) * Power(m) == dropped * Power(m) + p * Power(idx)
  {
    PowerAdd(idx - m, m);
    MulDistributes(Power(m), dropped, p * Power(idx - m));
    MulAssociative(p, Power(idx - m), Power(m));
  }

  /** The largest carry a multiplication can produce, plus one. */
  function MaxCarryWord(n: nat): nat {
    var sum := MAX_PRODUCT * n;
    (sum + sum / BASE) / BASE + 1
  }

  lemma CarryBound(n: nat, tmp: nat, prev: nat)
    requires 0 < n < BASE && tmp <= n * MAX_PRODUCT && prev <= n * BASE - n - 1
    ensures (tmp + prev) / BASE <= n * BASE - n - 1 && tmp + prev < U64
  {
    assert n * MAX_PRODUCT + (n * BASE - n - 1) < BASE * (n * BASE - n);
  }

  lemma MaxCarryWordIs(n: nat)
    requires 0 < n < BASE
    ensures MaxCarryWord(n) == n * BASE - n
  {
    var sum := MAX_PRODUCT * n;
    assert sum == (n * BASE - 2 * n) * BASE + n;
    DivUnique(sum, BASE, n * BASE - 2 * n);
    assert sum + (n * BASE - 2 * n) == (n * BASE - n - 1) * BASE + (BASE - n);
    DivUnique(sum + (n * BASE - 2 * n), BASE, n * BASE - n - 1);
  }

  datatype ValueMul = ValueMul(limbs: seq<nat>, carries: seq<nat>, maxCarryValue: nat)

  /** Carry k is what the columns up to k do not hold. */
  ghost predicate ColumnCarry(tmp: seq<nat>, limbs: seq<nat>, carries: seq<nat>, k: nat)
    requires k < |tmp| && k < |limbs| && k < |carries|
  {
    Num(tmp[..k + 1]) == Num(limbs[..k + 1]) + carries[k] * Power(k + 1)
  }

  /** The carries are taken off the columns one after the other. */
  method Carry(tmp: seq<nat>, n: nat) returns (limbs: seq<nat>, carries: seq<nat>)
    requires 0 < n < BASE && forall k :: 0 <= k < |tmp| ==> tmp[k] <= n * MAX_PRODUCT
    ensures |limbs| == |carries| == |tmp| && Digits(limbs)
    ensures Num(tmp) == Num(limbs) + LastOr(carries, 0) * Power(|tmp|)
    ensures forall k :: 0 <= k < |carries| ==> carries[k] < MaxCarryWord(n)
    ensures forall k :: 0 <= k < |carries| ==> ColumnCarry(tmp, limbs, carries, k)
  {
    hide Num, Power;
    NoDigits();
    limbs, carries := [], [];
    assert tmp[..0] == [];
    MaxCarryWordIs(n);
    for k := 0 to |tmp|
      invariant |limbs| == |carries| == k && Digits(limbs)
      invariant Num(tmp[..k]) == Num(limbs) + LastOr(carries, 0) * Power(k)
      invariant forall q :: 0 <= q < k ==> ColumnCarry(tmp, limbs, carries, q)
      invariant forall q :: 0 <= q < k ==> carries[q] <= n * BASE - n - 1
    {
      var prev := LastOr(carries, 0);
      assert prev <= n * BASE - n - 1 by { if carries == [] { MulOrder(1, n, BASE - 1); } }
      CarryBound(n, tmp[k], prev);
      var t := tmp[k] + prev;
      assert tmp[..k + 1] == tmp[..k] + [tmp[k]];
      NumSnoc(tmp[..k], tmp[k]);
      NumSnoc(limbs, t % BASE);
      CarryStep(tmp[k], prev, Power(k));
      ghost var was, cs := limbs, carries;
      limbs, carries := limbs + [t % BASE], carries + [t / BASE];
      NextPower(k);
      assert limbs[..k + 1] == limbs;
      forall q | 0 <= q < k ensures ColumnCarry(tmp, limbs, carries, q) {
        assert ColumnCarry(tmp, was, cs, q) && limbs[..q + 1] == was[..q + 1];
      }
    }
    assert tmp[..|tmp|] == tmp;
  }

  lemma CarryStep(t: nat, prev: nat, p: nat)
    ensures t * p + prev * p == ((t + prev) % BASE) * p + ((t + prev) / BASE) * (BASE * p)
  {
    MulDistributes(p, t, prev);
    SplitStep(t + prev, p);
  }

  /** Carry k is what the product does not hold in the lower places. */
  ghost predicate ProductCarry(a: seq<nat>, b: seq<nat>, limbs: seq<nat>, carries: seq<nat>, k: nat)
    requires k < |limbs| && k < |carries|
  {
    ProductBelow(a, b, k + 1) == Num(limbs[..k + 1]) + carries[k] * Power(k + 1)
  }

  /** `internal_mul` for two values of n limbs: with high limbs the product is exact; without, it is exact up to a
      multiple of the modulus.  None is the failed assertion on a wrong overflow flag. */
  method InternalMul(a: seq<nat>, b: seq<nat>, withOverflow: bool, withHiLimbs: bool)
      returns (r: Option<ValueMul>, ghost top: nat, ghost dropped: nat)
    requires Digits(a) && Digits(b) && 0 < |a| == |b| < BASE
    ensures withOverflow || withHiLimbs ==> r.Some?
    ensures r.None? ==> Num(a) * Num(b) >= Power(|a|)
    ensures r.Some? ==>
              && Num(r.value.limbs) == (Num(a) * Num(b)) % Power(|r.value.limbs|)
              && (withHiLimbs ==> Num(r.value.limbs) == Num(a) * Num(b))
    ensures var m := if withHiLimbs then 2 * |a| else |a|;
            r.None? <==> !withOverflow && ProductBelow(a, b, m) >= Power(m)
    ensures r.Some? ==>
              var m := if withHiLimbs then 2 * |a| else |a|;
              && |r.value.limbs| == m && Digits(r.value.limbs)
              && Num(a) * Num(b) == Num(r.value.limbs) + (top + dropped) * Power(m)
              && (withHiLimbs ==> top == 0 && dropped == 0)
              && (withOverflow ==> |r.value.carries| == m && r.value.carries[m - 1] == top)
              && (!withOverflow ==> |r.value.carries| == m - 1)
              && r.value.maxCarryValue == MaxCarryWord(|a|)
              && (forall k :: 0 <= k < |r.value.carries| ==> r.value.carries[k] < r.value.maxCarryValue)
              && forall k :: 0 <= k < |r.value.carries| ==> ProductCarry(a, b, r.value.limbs, r.value.carries, k)
  {
    hide Num, Power, Column, ProductBelow;
    var m := if withHiLimbs then 2 * |a| else |a|;
    var tmp;
    tmp, dropped := Columns(a, b, m);
    var limbs, carries := Carry(tmp, |a|);
    top := carries[m - 1];
    forall k | 0 <= k < m ensures ProductCarry(a, b, limbs, carries, k) {
      assert ColumnCarry(tmp, limbs, carries, k);
      ColumnsProduct(a, b, tmp, k + 1);
    }
    ghost var all := carries;
    assert ProductCarry(a, b, limbs, all, m - 1);
    assert limbs[..m] == limbs;
    CarryOut(ProductBelow(a, b, m), limbs, top);
    ProductParts(a, b, limbs, top, dropped, m);
    LowPart(Num(a) * Num(b), limbs, top + dropped);
    if !withOverflow {
      if carries[m - 1] != 0 {
        MulOrder(1, top + dropped, Power(m));
        return None, top, dropped;
      }
      carries := carries[..m - 1];
    }
    assert forall k :: 0 <= k < |carries| ==>
             ProductCarry(a, b, limbs, all, k) ==> ProductCarry(a, b, limbs, carries, k);
    r := Some(ValueMul(limbs, carries, MaxCarryWord(|a|)));
  }

  /** The last carry is zero exactly when the number fits into the limbs. */
  lemma CarryOut(value: nat, limbs: seq<nat>, top: nat)
    requires Digits(limbs) && value == Num(limbs) + top * Power(|limbs|)
    ensures top > 0 <==> value >= Power(|limbs|)
  {
    hide Num, Power;
    NumBound(limbs);
    if top > 0 { MulOrder(1, top, Power(|limbs|)); }
  }

  /** Without an overflow flag the assertion looks at the last carry alone: a product of high limbs passes it. */
  lemma OverflowUnnoticed()
    ensures var a, b := [0, 1], [0, 1];
            Num(a) * Num(b) >= Power(|a|) && ProductBelow(a, b, |a|) < Power(|a|)
  {
    var a, b := [0, 1], [0, 1];
    assert Num(a[1..]) == 1 && Num(a) == BASE;
    TwoLimbs();
    assert Column(a, b, 0) == 0 by { assert ColumnTo(a, b, 0, 1) == 0; }
    assert Column(a, b, 1) == 0 by { assert ColumnTo(a, b, 1, 1) == 0; }
    assert ProductBelow(a, b, 1) == 0;
    assert ProductBelow(a, b, 2) == 0;
  }

  lemma ProductParts(a: seq<nat>, b: seq<nat>, limbs: seq<nat>, top: nat, dropped: nat, m: nat)
    requires Digits(a) && Digits(b) && |a| == |b| && |limbs| == m && Digits(limbs)
    requires Num(limbs) + top * Power(m) + dropped * Power(m) == Num(a) * Num(b)
    ensures Num(a) * Num(b) == Num(limbs) + (top + dropped) * Power(m)
    ensures m == 2 * |a| ==> top == 0 && dropped == 0
  {
    hide Num, Power;
    MulDistributes(Power(m), top, dropped);
    if m == 2 * |a| && top + dropped > 0 {
      NumBound(a);
      NumBound(b);
      PowerAdd(|a|, |a|);
      ProductLess(Num(a), Num(b), Power(|a|));
      MulOrder(1, top + dropped, Power(m));
      assert false;
    }
  }

  lemma ProductLess(x: nat, y: nat, p: nat)
    requires x < p && y < p
    ensures x * y < p * p
  {
    MulOrder(x, p, y);
    MulOrder(y + 1, p, p);
    assert x * y <= p * y && p * y == y * p && (y + 1) * p == y * p + p;
  }

  /** Every carry of the product and of the sum, not only the last, tells what the lower limbs do not hold. */
  ghost predicate CarriesTell(a: seq<nat>, b: seq<nat>, addend: seq<nat>, sum: ValueAdd, product: ValueMul) {
    && |sum.carries| <= |sum.limbs| && |product.carries| <= |product.limbs| && |sum.carries| <= |addend|
    && |sum.carries| <= |product.limbs|
    && (forall k :: 0 <= k < |product.carries| ==> ProductCarry(a, b, product.limbs, product.carries, k))
    && forall k :: 0 <= k < |sum.carries| ==> SumCarry(addend, product.limbs, sum.limbs, sum.carries, k)
  }

  /** `Value::mul_add`: product plus addend, both modulo the limbs that are kept.  None is the failed assertion on a
      wrong overflow flag. */
  method MulAdd(a: seq<nat>, b: seq<nat>, addend: seq<nat>, withOverflow: bool)
      returns (r: Option<(ValueAdd, ValueMul)>, ghost high: nat, ghost carry: nat)
    requires Digits(a) && Digits(b) && Digits(addend) && 0 < |a| == |b| == |addend| < BASE
    ensures withOverflow ==> r.Some?
    ensures r.None? <==> !withOverflow && ProductBelow(a, b, |a|) >= Power(|a|)
    ensures r.Some? ==> var (sum, product) := r.value; CarriesTell(a, b, addend, sum, product)
    ensures r.Some? ==>
              var (sum, product) := r.value;
              && |sum.limbs| == |product.limbs| == |a| && Digits(sum.limbs) && Digits(product.limbs)
              && Num(a) * Num(b) == Num(product.limbs) + high * Power(|a|)
              && Num(addend) + Num(product.limbs) == Num(sum.limbs) + carry * Power(|a|)
              && Num(sum.limbs) == (Num(a) * Num(b) + Num(addend)) % Power(|a|)
              && (withOverflow ==> |sum.carries| == |product.carries| == |a| && sum.carries[|a| - 1] == carry
                                   && product.carries[|a| - 1] <= high)
  {
    hide Num, Power, ProductBelow;
    var mul;
    ghost var top: nat, dropped: nat;
    mul, top, dropped := InternalMul(a, b, withOverflow, false);
    high, carry := top + dropped, 0;
    if mul.None? {
      return None, high, carry;
    }
    var sum;
    sum, carry := Add(addend, mul.value.limbs, withOverflow);
    MulDistributes(Power(|a|), high, carry);
    LowPart(Num(a) * Num(b) + Num(addend), sum.limbs, high + carry);
    r := Some((sum, mul.value));
  }

  // ---------- division ----------

  /** The quotient and the remainder of two numbers below 2^32, division by zero included. */
  function Divu(a: nat, b: nat): nat { if b == 0 then 0xFFFF_FFFF else a / b }

  function Remu(a: nat, b: nat): nat { if b == 0 then a else a % b }

  lemma DivisionIdentity(a: nat, b: nat)
    ensures b * Divu(a, b) + Remu(a, b) == a
  {
    if b > 0 { assert a == b * (a / b) + a % b; }
  }

  /** With a remainder below the divisor, as the circuit demands, only the quotient and the remainder of the division
      fit; the remainder of the emulator is below the divisor exactly when the divisor is not zero. */
  lemma DivisionUnique(a: nat, b: nat, q: nat, r: nat)
    ensures Remu(a, b) < b <==> b != 0
    ensures b * q + r == a && r < b ==> q == Divu(a, b) && r == Remu(a, b)
  {
    if b * q + r == a && r < b {
      assert q * b == b * q;
      DivUnique(a, b, q);
      DivisionIdentity(a, b);
    }
  }

  /** DIVU and REMU of the emulator. */
  lemma EmulatorDivision(a: Word, b: Word)
    ensures Number(Alu(DIVU, a, b)) == Divu(Number(a), Number(b))
    ensures Number(Alu(REMU, a, b)) == Remu(Number(a), Number(b))
  {
    hide Number, Wrapped, Alu;
    DivisionIs(a, b);
    ZeroWord();
    NotZero(b);
    NumberBound(a);
    if b != 0 {
      QuotientFits(Number(a), Number(b));
      WrappedNumber(Number(a) / Number(b));
      WrappedNumber(Number(a) % Number(b));
    }
  }

  lemma DivisionIs(a: Word, b: Word)
    ensures b == 0 ==> Alu(DIVU, a, b) == 0xFFFF_FFFF && Alu(REMU, a, b) == a
    ensures b != 0 ==> Number(b) > 0 && Alu(DIVU, a, b) == Wrapped(Number(a) / Number(b))
                       && Alu(REMU, a, b) == Wrapped(Number(a) % Number(b))
  {
    hide Number, Wrapped, Signed, WrappingAdd, Xor, Or, And, ShiftAmount, ShiftLeft, ShiftRight, ShiftRightArithmetic,
         SignedLess, Less, Flag, HighWord, SignedProduct, UnsignedProduct, TruncatedDiv, TruncatedRem;
    NotZero(b);
  }

  lemma QuotientFits(x: nat, y: nat)
    requires y > 0
    ensures 0 <= x / y <= x && 0 <= x % y <= x
  {
    QuotientSmall(x, y);
    assert x == y * (x / y) + x % y;
    if x / y > 0 { MulOrder(1, x / y, y); }
  }

  /** `divisor.mul_add(quotient, remainder)` with the quotient and remainder of the emulator gives back the
      dividend, with both top carries zero, for every dividend and divisor, zero included. */
  method DivisionWitness(dividend: Word, divisor: Word)
      returns (sum: ValueAdd, product: ValueMul, ghost d: seq<nat>, ghost q: seq<nat>, ghost rem: seq<nat>)
    ensures |d| == |q| == |rem| == 2 && Digits(d) && Digits(q) && Digits(rem)
    ensures Num(d) == Number(divisor) && Num(q) == Number(Alu(DIVU, dividend, divisor))
    ensures Num(rem) == Number(Alu(REMU, dividend, divisor)) && CarriesTell(d, q, rem, sum, product)
    ensures |sum.limbs| == 2 && Digits(sum.limbs) && Num(sum.limbs) == Number(dividend)
    ensures |sum.carries| == 2 && sum.carries[1] == 0
    ensures |product.limbs| == 2 && |product.carries| == 2 && product.carries[1] == 0
    ensures Num(product.limbs) == Number(divisor) * Number(Alu(DIVU, dividend, divisor))
  {
    hide Number, Alu, Num, Divu, Remu, Power, Digits, CarriesTell;
    var quotient, remainder := Alu(DIVU, dividend, divisor), Alu(REMU, dividend, divisor);
    EmulatorDivision(dividend, divisor);
    NumberBound(dividend);
    NumberBound(divisor);
    DivisionIdentity(Number(dividend), Number(divisor));
    QuotientBound(Number(dividend), Number(divisor));
    TwoLimbs();
    ghost var high: nat, carry: nat;
    var divisorLimbs, quotientLimbs, remainderLimbs;
    divisorLimbs, high := SplitToU16(Number(divisor), 2);
    quotientLimbs, high := SplitToU16(Number(quotient), 2);
    remainderLimbs, high := SplitToU16(Number(remainder), 2);
    d, q, rem := divisorLimbs, quotientLimbs, remainderLimbs;
    var res;
    res, high, carry := MulAdd(divisorLimbs, quotientLimbs, remainderLimbs, true);
    sum, product := res.value.0, res.value.1;
    NothingAbove(Num(d) * Num(q), Num(product.limbs), high, Number(dividend));
    NothingAbove(Number(dividend), Num(sum.limbs), carry, Number(dividend));
  }

  lemma TwoLimbs()
    ensures Power(2) == 0x1_0000_0000
  {
    assert Power(1) == BASE * Power(0);
  }

  lemma QuotientBound(a: nat, b: nat)
    requires a < 0x1_0000_0000
    ensures Divu(a, b) < 0x1_0000_0000 && Remu(a, b) < 0x1_0000_0000 && 0 <= b * Divu(a, b) <= a
  {
    DivisionIdentity(a, b);
    if b > 0 {
      MulOrder(1, b, a / b);
    }
  }

  lemma NothingAbove(value: nat, low: nat, high: nat, bound: nat)
    requires value == low + high * Power(2) && value <= bound < 0x1_0000_0000
    ensures high == 0 && low == value
  {
    TwoLimbs();
  }
}

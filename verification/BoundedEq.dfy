/** The equality polynomial restricted to the indices up to a bound, computed without summing over them; and the
    evaluation of arithmetic progressions given on the hypercube. */
module BoundedEq {
  import opened Fields
  import opened Sums
  import opened Multilinear
  import opened MixedArity
  import opened RoundEvaluator
  import opened EqTables

  // ---------- the naive sum ----------

  /** The terms of the naive sum over the indices from 0 to m. */
  function NaiveTerms<T>(K: Field<T>, a: seq<T>, b: seq<T>, count: nat): (r: seq<T>)
    ensures |r| == count && forall i :: 0 <= i < count ==> r[i] == K.Mul(EqAt(K, a, i), EqAt(K, b, i))
  {
    seq(count, i requires 0 <= i => K.Mul(EqAt(K, a, i), EqAt(K, b, i)))
  }

  function Naive<T>(K: Field<T>, a: seq<T>, b: seq<T>, m: nat): T {
    K.Sum(NaiveTerms(K, a, b, m + 1))
  }

  function Bit(m: nat, i: nat): nat { Shr(m, i) % 2 }

  /** The lowest i bits of m. */
  function Low(m: nat, i: nat): nat {
    if i == 0 then 0 else Low(m, i - 1) + Bit(m, i - 1) * Pow2(i - 1)
  }

  lemma BitTimes(bit: nat, p: nat)
    requires bit < 2
    ensures bit * p == if bit == 1 then p else 0
  {
  }

  lemma {:induction false} LowBound(m: nat, i: nat)
    ensures Low(m, i) < Pow2(i) && m == Low(m, i) + Shr(m, i) * Pow2(i)
  {
    if i > 0 {
      LowBound(m, i - 1);
      HalfTimes(Shr(m, i - 1), Pow2(i - 1));
      BitTimes(Bit(m, i - 1), Pow2(i - 1));
    }
  }

  lemma LowAll(m: nat, n: nat)
    requires m < Pow2(n)
    ensures Low(m, n) == m
  {
    LowBound(m, n);
    if Shr(m, n) > 0 { MulOrder(1, Shr(m, n), Pow2(n)); }
  }

  /** The factor of one coordinate when the index has the given bit there. */
  function Factor<T>(K: Field<T>, x: T, y: T, bit: nat): T {
    if bit == 1 then K.Mul(x, y) else K.Mul(K.Sub(K.one, x), K.Sub(K.one, y))
  }

  lemma OneCoordinate<T(!new)>(K: Field<T>, x: T, t: nat)
    requires Lawful(K) && t < 2
    ensures EqAt(K, [x], t) == if t == 1 then x else K.Sub(K.one, x)
  {
    assert [x][1..] == [];
    MulOne(K, x);
    MulOne(K, K.Sub(K.one, x));
  }

  /** A term over one more coordinate. */
  lemma TermSnoc<T(!new)>(K: Field<T>, a: seq<T>, b: seq<T>, x: T, y: T, t: nat, i: nat)
    requires Lawful(K) && |a| == |b| && t < 2 && i < Pow2(|a|)
    ensures K.Mul(EqAt(K, a + [x], t * Pow2(|a|) + i), EqAt(K, b + [y], t * Pow2(|a|) + i))
         == K.Mul(Factor(K, x, y, t), K.Mul(EqAt(K, a, i), EqAt(K, b, i)))
  {
    hide EqAt, Field<T>.Sub, Pow2;
    SplitTable(K, a, [x], i, t);
    SplitTable(K, b, [y], i, t);
    OneCoordinate(K, x, t);
    OneCoordinate(K, y, t);
    MulSwap(K, EqAt(K, [x], t), EqAt(K, a, i), EqAt(K, [y], t), EqAt(K, b, i));
  }

  lemma AllTerms<T(!new)>(K: Field<T>, a: seq<T>, b: seq<T>)
    requires Lawful(K) && |a| == |b|
    ensures K.Sum(NaiveTerms(K, a, b, Pow2(|a|))) == EqProduct(K, a, b)
  {
    TablesInnerProduct(K, a, b);
    assert NaiveTerms(K, a, b, Pow2(|a|)) == Times(K, EqTable(K, a), EqTable(K, b));
  }

  /** With bit 0 in one more coordinate the terms are scaled. */
  lemma LowerTerms<T(!new)>(K: Field<T>, a: seq<T>, b: seq<T>, x: T, y: T, count: nat)
    requires Lawful(K) && |a| == |b| && count <= Pow2(|a|)
    ensures NaiveTerms(K, a + [x], b + [y], count) == Scaled(K, Factor(K, x, y, 0), NaiveTerms(K, a, b, count))
  {
    hide EqAt, Factor, Pow2;
    var lo := Scaled(K, Factor(K, x, y, 0), NaiveTerms(K, a, b, count));
    forall k: nat | k < count ensures K.Mul(EqAt(K, a + [x], k), EqAt(K, b + [y], k)) == lo[k] {
      TermSnoc(K, a, b, x, y, 0, k);
      assert 0 * Pow2(|a|) + k == k;
    }
  }

  /** The terms with bit 1 follow those with bit 0. */
  lemma UpperTerms<T(!new)>(K: Field<T>, a: seq<T>, b: seq<T>, x: T, y: T, count: nat)
    requires Lawful(K) && |a| == |b| && count <= Pow2(|a|)
    ensures NaiveTerms(K, a + [x], b + [y], Pow2(|a|) + count)
         == NaiveTerms(K, a + [x], b + [y], Pow2(|a|)) + Scaled(K, Factor(K, x, y, 1), NaiveTerms(K, a, b, count))
  {
    hide EqAt, Factor, Pow2;
    var p, hi := Pow2(|a|), Scaled(K, Factor(K, x, y, 1), NaiveTerms(K, a, b, count));
    forall k: nat | k < count ensures K.Mul(EqAt(K, a + [x], p + k), EqAt(K, b + [y], p + k)) == hi[k] {
      TermSnoc(K, a, b, x, y, 1, k);
      assert 1 * Pow2(|a|) + k == p + k;
    }
    var all := NaiveTerms(K, a + [x], b + [y], p + count);
    forall k: nat | p <= k < p + count ensures all[k] == hi[k - p] {
      assert K.Mul(EqAt(K, a + [x], p + (k - p)), EqAt(K, b + [y], p + (k - p))) == hi[k - p];
    }
  }

  lemma NaiveIs<T>(K: Field<T>, a: seq<T>, b: seq<T>, m: nat)
    ensures Naive(K, a, b, m) == K.Sum(NaiveTerms(K, a, b, m + 1))
  {
  }

  /** The naive sum over one more coordinate where the bound has bit 0. */
  lemma NaiveLower<T(!new)>(K: Field<T>, a: seq<T>, b: seq<T>, x: T, y: T, m: nat)
    requires Lawful(K) && |a| == |b| && m < Pow2(|a|)
    ensures Naive(K, a + [x], b + [y], m) == K.Mul(Factor(K, x, y, 0), Naive(K, a, b, m))
  {
    hide *;
    NaiveIs(K, a, b, m);
    NaiveIs(K, a + [x], b + [y], m);
    LowerTerms(K, a, b, x, y, m + 1);
    SumScaled(K, Factor(K, x, y, 0), NaiveTerms(K, a, b, m + 1));
  }

  /** The naive sum over one more coordinate where the bound has bit 1. */
  lemma NaiveUpper<T(!new)>(K: Field<T>, a: seq<T>, b: seq<T>, x: T, y: T, m: nat)
    requires Lawful(K) && |a| == |b| && m < Pow2(|a|)
    ensures Naive(K, a + [x], b + [y], m + Pow2(|a|))
         == K.Add(K.Mul(Factor(K, x, y, 0), EqProduct(K, a, b)), K.Mul(Factor(K, x, y, 1), Naive(K, a, b, m)))
  {
    hide *;
    var p, low, high := Pow2(|a|), NaiveTerms(K, a, b, Pow2(|a|)), NaiveTerms(K, a, b, m + 1);
    NaiveIs(K, a, b, m);
    NaiveIs(K, a + [x], b + [y], m + p);
    LowerTerms(K, a, b, x, y, p);
    SumScaled(K, Factor(K, x, y, 0), low);
    UpperTerms(K, a, b, x, y, m + 1);
    SumScaled(K, Factor(K, x, y, 1), high);
    assert m + p + 1 == p + (m + 1);
    SumConcat(K, NaiveTerms(K, a + [x], b + [y], p), Scaled(K, Factor(K, x, y, 1), high));
    AllTerms(K, a, b);
  }

  // ---------- what lies above the bound ----------

  /** The sum over the indices above the bound, within the first i coordinates: they agree with the bound down to some
      zero bit, have a one there, and are free below. */
  function Above<T>(K: Field<T>, a: seq<T>, b: seq<T>, m: nat, i: nat): T
    requires i <= |a| && i <= |b|
  {
    if i == 0 then K.zero
    else
      var rest := K.Mul(Above(K, a, b, m, i - 1), Factor(K, a[i - 1], b[i - 1], Bit(m, i - 1)));
      if Bit(m, i - 1) == 1 then rest
      else K.Add(rest, K.Mul(EqProduct(K, a[..i - 1], b[..i - 1]), K.Mul(a[i - 1], b[i - 1])))
  }

  lemma BitOne<T(!new)>(K: Field<T>, p: T, f0: T, f1: T, n: T, g: T)
    requires Lawful(K) && n == K.Sub(p, g)
    ensures K.Add(K.Mul(f0, p), K.Mul(f1, n)) == K.Sub(K.Mul(p, K.Add(f1, f0)), K.Mul(g, f1))
    ensures K.Mul(f0, n) == K.Sub(K.Mul(p, K.Add(f1, f0)), K.Add(K.Mul(g, f0), K.Mul(p, f1)))
  {
    MulSub(K, f1, p, g);
    MulSub(K, f0, p, g);
    Distrib(K, p, f1, f0);
    MulComm(K, f0, p);
    MulComm(K, f1, p);
    MulComm(K, f0, g);
    MulComm(K, f1, g);
    var pf0, pf1, gf0, gf1 := K.Mul(p, f0), K.Mul(p, f1), K.Mul(g, f0), K.Mul(g, f1);
    AddAssoc(K, pf0, pf1, K.Neg(gf1));
    AddComm(K, pf0, pf1);
    NegAdd(K, gf0, pf1);
    AddComm(K, K.Neg(gf0), K.Neg(pf1));
    AddAssoc(K, K.Add(pf1, pf0), K.Neg(pf1), K.Neg(gf0));
    AddSub(K, pf1, pf0);
    AddComm(K, pf1, pf0);
  }

  lemma NoCoordinates<T(!new)>(K: Field<T>, a: seq<T>, b: seq<T>, m: nat)
    requires Lawful(K)
    ensures Naive(K, a[..0], b[..0], Low(m, 0)) == K.Sub(EqProduct(K, a[..0], b[..0]), Above(K, a, b, m, 0))
  {
    var none: seq<T> := [];
    assert a[..0] == none && b[..0] == none;
    NaiveNone(K);
    assert Low(m, 0) == 0;
    AddZero(K, K.one);
    NegNeg(K, K.zero);
  }

  lemma NaiveNone<T(!new)>(K: Field<T>)
    requires Lawful(K)
    ensures Naive<T>(K, [], [], 0) == K.one
  {
    var none: seq<T> := [];
    MulOne(K, K.one);
    SumOne(K, K.one);
    var terms := NaiveTerms(K, none, none, 1);
    assert terms[0] == K.Mul(EqAt(K, none, 0), EqAt(K, none, 0));
    assert terms == [K.one];
    NaiveIs(K, none, none, 0);
  }

  lemma LowStep(m: nat, i: nat)
    ensures Low(m, i + 1) == if Bit(m, i) == 1 then Low(m, i) + Pow2(i) else Low(m, i)
    ensures Bit(m, i) < 2
  {
    hide Shr, Pow2;
    BitTimes(Bit(m, i), Pow2(i));
    assert Low(m, i + 1) == Low(m, i) + Bit(m, i) * Pow2(i);
  }

  lemma AboveStep<T>(K: Field<T>, a: seq<T>, b: seq<T>, m: nat, i: nat)
    requires i < |a| && i < |b|
    ensures Above(K, a, b, m, i + 1)
         == if Bit(m, i) == 1 then K.Mul(Above(K, a, b, m, i), Factor(K, a[i], b[i], 1))
            else K.Add(K.Mul(Above(K, a, b, m, i), Factor(K, a[i], b[i], 0)),
                       K.Mul(EqProduct(K, a[..i], b[..i]), Factor(K, a[i], b[i], 1)))
  {
    hide EqProduct, Shr;
  }

  /** The indices up to the bound and those above it make up the full product. */
  lemma {:induction false} NaiveIsFullMinusAbove<T(!new)>(K: Field<T>, a: seq<T>, b: seq<T>, m: nat, i: nat)
    requires Lawful(K) && i <= |a| && i <= |b|
    ensures Naive(K, a[..i], b[..i], Low(m, i)) == K.Sub(EqProduct(K, a[..i], b[..i]), Above(K, a, b, m, i))
    decreases i
  {
    hide *;
    if i == 0 {
      NoCoordinates(K, a, b, m);
    } else {
      var j := i - 1;
      var u, v, x, y := a[..j], b[..j], a[j], b[j];
      assert a[..i] == u + [x] && b[..i] == v + [y];
      NaiveIsFullMinusAbove(K, a, b, m, j);
      LowBound(m, j);
      LowStep(m, j);
      AboveStep(K, a, b, m, j);
      if Bit(m, j) == 1 { NaiveUpper(K, u, v, x, y, Low(m, j)); } else { NaiveLower(K, u, v, x, y, Low(m, j)); }
      EqProductSnoc(K, u, v, x, y);
      PairIsBothFactors(K, x, y);
      BitOne(K, EqProduct(K, u, v), Factor(K, x, y, 0), Factor(K, x, y, 1), Naive(K, u, v, Low(m, j)),
             Above(K, a, b, m, j));
    }
  }

  lemma PairIsBothFactors<T>(K: Field<T>, x: T, y: T)
    ensures EqPair(K, x, y) == K.Add(Factor(K, x, y, 1), Factor(K, x, y, 0))
  {
  }

  // ---------- the loops of the code ----------

  /** The factor as the code writes it. */
  lemma FactorIs<T(!new)>(K: Field<T>, x: T, y: T, bit: nat)
    requires Lawful(K) && bit < 2
    ensures K.Add(K.Mul(K.Mul(x, y), K.Num(bit)),
                  K.Mul(K.Mul(K.Sub(K.one, x), K.Sub(K.one, y)), K.Sub(K.one, K.Num(bit)))) == Factor(K, x, y, bit)
  {
    var p, q := K.Mul(x, y), K.Mul(K.Sub(K.one, x), K.Sub(K.one, y));
    NumOne(K);
    SubSelf(K, K.one);
    NegNeg(K, K.zero);
    AddZero(K, K.one);
    MulOne(K, p);
    MulOne(K, q);
    MulZero(K, p);
    MulZero(K, q);
    AddZero(K, p);
    AddZero(K, q);
  }

  /** The product of the factors of the bound's own bits from coordinate i on. */
  function Suffix<T>(K: Field<T>, a: seq<T>, b: seq<T>, m: nat, i: nat): T
    requires i <= |b| <= |a|
    decreases |b| - i
  {
    if i == |b| then K.one else K.Mul(Suffix(K, a, b, m, i + 1), Factor(K, a[i], b[i], Bit(m, i)))
  }

  /** Taking away the indices above the bound that first differ at coordinate i. */
  lemma TakeAway<T(!new)>(K: Field<T>, a: seq<T>, b: seq<T>, m: nat, i: nat, full: T)
    requires Lawful(K) && i < |b| <= |a|
    ensures var rp := EqProduct(K, a[..i], b[..i]);
            var before := K.Sub(full, K.Mul(Above(K, a, b, m, i), Suffix(K, a, b, m, i)));
            K.Sub(full, K.Mul(Above(K, a, b, m, i + 1), Suffix(K, a, b, m, i + 1)))
            == if Bit(m, i) == 1 then before
               else K.Sub(before, K.Mul(K.Mul(K.Mul(rp, Suffix(K, a, b, m, i + 1)), a[i]), b[i]))
  {
    hide EqProduct, Field<T>.Sub, Shr;
    var rp, g, s, f, ab := EqProduct(K, a[..i], b[..i]), Above(K, a, b, m, i), Suffix(K, a, b, m, i + 1),
                           Factor(K, a[i], b[i], Bit(m, i)), K.Mul(a[i], b[i]);
    MulAssoc(K, g, f, s);
    MulComm(K, f, s);
    if Bit(m, i) != 1 {
      Distrib(K, s, K.Mul(g, f), K.Mul(rp, ab));
      MulAssoc(K, rp, ab, s);
      MulComm(K, ab, s);
      MulAssoc(K, rp, s, ab);
      MulAssoc(K, K.Mul(rp, s), a[i], b[i]);
      SubTwice(K, full, K.Mul(K.Mul(g, f), s), K.Mul(K.Mul(rp, ab), s));
    }
  }

  lemma SubTwice<T(!new)>(K: Field<T>, a: T, b: T, c: T)
    requires Lawful(K)
    ensures K.Sub(a, K.Add(b, c)) == K.Sub(K.Sub(a, b), c)
  {
    NegAdd(K, b, c);
    AddAssoc(K, a, K.Neg(b), K.Neg(c));
  }

  /** The factors of the coordinates beyond the second argument: they must all be zero bits. */
  function ZeroBits<T>(K: Field<T>, a: seq<T>): T {
    if a == [] then K.one else K.Mul(ZeroBits(K, a[..|a| - 1]), K.Sub(K.one, a[|a| - 1]))
  }

  lemma NoProduct<T>(K: Field<T>, a: seq<T>, b: seq<T>)
    requires |a| >= |b|
    ensures EqProduct(K, a[..0], b[..0]) == K.one
  {
  }

  method RunningProducts<T(!new)>(K: Field<T>, a: seq<T>, b: seq<T>) returns (rp: seq<T>)
    requires Lawful(K) && |a| >= |b|
    ensures |rp| == |b| + 1 && forall i :: 0 <= i <= |b| ==> rp[i] == EqProduct(K, a[..i], b[..i])
  {
    hide Field<T>.Sub, EqProduct;
    rp := [K.one];
    NoProduct(K, a, b);
    for i := 0 to |b|
      invariant |rp| == i + 1 && forall k :: 0 <= k <= i ==> rp[k] == EqProduct(K, a[..k], b[..k])
    {
      EqProductSnoc(K, a[..i], b[..i], a[i], b[i]);
      assert a[..i + 1] == a[..i] + [a[i]] && b[..i + 1] == b[..i] + [b[i]];
      rp := rp + [K.Mul(rp[i], K.Add(K.Mul(a[i], b[i]), K.Mul(K.Sub(K.one, a[i]), K.Sub(K.one, b[i]))))];
    }
  }

  lemma SuffixEnd<T>(K: Field<T>, a: seq<T>, b: seq<T>, m: nat)
    requires |a| >= |b|
    ensures Suffix(K, a, b, m, |b|) == K.one
  {
  }

  lemma SuffixNext<T>(K: Field<T>, a: seq<T>, b: seq<T>, m: nat, i: nat)
    requires i < |b| <= |a|
    ensures Suffix(K, a, b, m, i) == K.Mul(Suffix(K, a, b, m, i + 1), Factor(K, a[i], b[i], Bit(m, i)))
    ensures Bit(m, i) < 2
  {
    hide Factor;
  }

  method SuffixProducts<T(!new)>(K: Field<T>, maxIdx: nat, a: seq<T>, b: seq<T>) returns (rp2: seq<T>)
    requires Lawful(K) && |a| >= |b|
    ensures |rp2| == |b| + 1 && forall i :: 0 <= i <= |b| ==> rp2[i] == Suffix(K, a, b, maxIdx, i)
  {
    hide Field<T>.Num, Field<T>.Sub, Suffix, Bit, Factor, Zeros;
    rp2 := Zeros(K, |b| + 1)[|b| := K.one];
    SuffixEnd(K, a, b, maxIdx);
    var i := |b|;
    while i > 0
      invariant 0 <= i <= |b| && |rp2| == |b| + 1
      invariant forall k :: i <= k <= |b| ==> rp2[k] == Suffix(K, a, b, maxIdx, k)
    {
      i := i - 1;
      var bit := Bit(maxIdx, i);
      SuffixNext(K, a, b, maxIdx, i);
      FactorIs(K, a[i], b[i], bit);
      rp2 := rp2[i := K.Mul(rp2[i + 1], K.Add(K.Mul(K.Mul(a[i], b[i]), K.Num(bit)),
                                              K.Mul(K.Mul(K.Sub(K.one, a[i]), K.Sub(K.one, b[i])),
                                                    K.Sub(K.one, K.Num(bit)))))];
    }
  }

  /** The full product minus what lies above the bound, over the coordinates of the second argument. */
  method UpToBound<T(!new)>(K: Field<T>, maxIdx: nat, a: seq<T>, b: seq<T>) returns (ans: T)
    requires Lawful(K) && |a| >= |b|
    ensures ans == Naive(K, a[..|b|], b, Low(maxIdx, |b|))
  {
    var rp := RunningProducts(K, a, b);
    var rp2 := SuffixProducts(K, maxIdx, a, b);
    hide EqProduct, Above, Suffix, Naive, Bit, Low, Field<T>.Sub;
    var n := |b|;
    ans := rp[n];
    ghost var full := ans;
    NothingAbove(K, a, b, maxIdx, full);
    for i := 0 to n
      invariant ans == K.Sub(full, K.Mul(Above(K, a, b, maxIdx, i), Suffix(K, a, b, maxIdx, i)))
    {
      TakeAway(K, a, b, maxIdx, i, full);
      if Bit(maxIdx, i) != 1 {
        ans := K.Sub(ans, K.Mul(K.Mul(K.Mul(rp[i], rp2[i + 1]), a[i]), b[i]));
      }
    }
    AllTakenAway(K, a, b, maxIdx);
    NaiveIsFullMinusAbove(K, a, b, maxIdx, n);
    assert b[..n] == b;
  }

  method ExtraCoordinates<T(!new)>(K: Field<T>, start: T, a: seq<T>) returns (ans: T)
    requires Lawful(K)
    ensures ans == K.Mul(start, ZeroBits(K, a))
  {
    hide Field<T>.Sub;
    ans := start;
    MulOne(K, start);
    for i := 0 to |a|
      invariant ans == K.Mul(start, ZeroBits(K, a[..i]))
    {
      assert a[..i + 1][..i] == a[..i];
      MulAssoc(K, start, ZeroBits(K, a[..i]), K.Sub(K.one, a[i]));
      ans := K.Mul(ans, K.Sub(K.one, a[i]));
    }
    assert a[..|a|] == a;
  }

  /** `eq_eval_less_or_equal_than`: the naive sum over all indices up to the lowest |b| bits of the bound, times 1 - a_i
      for the extra coordinates. */
  method EqEvalLessOrEqualThan<T(!new)>(K: Field<T>, maxIdx: nat, a: seq<T>, b: seq<T>) returns (ans: T)
    requires Lawful(K) && |a| >= |b|
    ensures ans == K.Mul(Naive(K, a[..|b|], b, Low(maxIdx, |b|)), ZeroBits(K, a[|b|..]))
    ensures maxIdx < Pow2(|b|) ==> ans == K.Mul(Naive(K, a[..|b|], b, maxIdx), ZeroBits(K, a[|b|..]))
  {
    hide *;
    ans := UpToBound(K, maxIdx, a, b);
    ans := ExtraCoordinates(K, ans, a[|b|..]);
    if maxIdx < Pow2(|b|) { LowAll(maxIdx, |b|); }
  }

  lemma NothingAbove<T(!new)>(K: Field<T>, a: seq<T>, b: seq<T>, m: nat, full: T)
    requires Lawful(K) && |a| >= |b|
    ensures K.Sub(full, K.Mul(Above(K, a, b, m, 0), Suffix(K, a, b, m, 0))) == full
  {
    MulZero(K, Suffix(K, a, b, m, 0));
    NegNeg(K, K.zero);
    AddZero(K, full);
  }

  lemma AllTakenAway<T(!new)>(K: Field<T>, a: seq<T>, b: seq<T>, m: nat)
    requires Lawful(K) && |a| >= |b|
    ensures K.Mul(Above(K, a, b, m, |b|), Suffix(K, a, b, m, |b|)) == Above(K, a, b, m, |b|)
  {
    MulOne(K, Above(K, a, b, m, |b|));
  }

  // ---------- arithmetic progressions ----------

  /** r_0 + 2*r_1 + 4*r_2 + ... */
  function WeightedBits<T>(K: Field<T>, r: seq<T>): T {
    if r == [] then K.zero else K.Add(r[0], K.Mul(K.Num(2), WeightedBits(K, r[1..])))
  }

  function Numbers<T>(K: Field<T>, n: nat): (s: seq<T>)
    ensures |s| == n && forall i :: 0 <= i < n ==> s[i] == K.Num(i)
  {
    seq(n, i requires 0 <= i => K.Num(i))
  }

  /** The entry of the address vector at an index. */
  function AddressAt<T>(K: Field<T>, offset: nat, scaled: nat, descending: bool, i: nat): T {
    var d := K.Mul(K.Num(scaled), K.Num(i));
    K.Add(K.Num(offset), if descending then K.Neg(d) else d)
  }

  function AddressVec<T>(K: Field<T>, offset: nat, scaled: nat, descending: bool, n: nat): (s: seq<T>)
    ensures |s| == n && forall i :: 0 <= i < n ==> s[i] == AddressAt(K, offset, scaled, descending, i)
  {
    seq(n, i requires 0 <= i => AddressAt(K, offset, scaled, descending, i))
  }

  /** The weights of a point add up to one. */
  lemma {:induction false} EqTableSum<T(!new)>(K: Field<T>, r: seq<T>)
    requires Lawful(K)
    ensures K.Sum(EqTable(K, r)) == K.one
  {
    if r == [] {
      assert EqTable(K, r) == [K.one];
      SumOne(K, K.one);
    } else {
      hide EqTable;
      var u := EqTable(K, r[1..]);
      EqTableSum(K, r[1..]);
      EqTableHalves(K, r);
      SumHalves(K, EqTable(K, r));
      SumScaled(K, K.Sub(K.one, r[0]), u);
      SumScaled(K, r[0], u);
      MulOne(K, K.Sub(K.one, r[0]));
      MulOne(K, r[0]);
      AddSub(K, r[0], K.one);
    }
  }

  /** The two weighted numbers 2j and 2j + 1 in terms of the weight and the number of j. */
  lemma NumberPair<T(!new)>(K: Field<T>, r: T, u: T, j: nat)
    requires Lawful(K)
    ensures K.Add(K.Mul(K.Mul(K.Sub(K.one, r), u), K.Num(2 * j)), K.Mul(K.Mul(r, u), K.Num(2 * j + 1)))
         == K.Add(K.Mul(r, u), K.Mul(K.Num(2), K.Mul(u, K.Num(j))))
  {
    hide Field<T>.Num, Field<T>.Sub;
    var n := K.Num(2 * j);
    NumAdd(K, 2 * j, 1);
    NumOne(K);
    NumMul(K, 2, j);
    Distrib(K, K.Mul(r, u), n, K.one);
    MulOne(K, K.Mul(r, u));
    Distrib(K, n, K.Mul(K.Sub(K.one, r), u), K.Mul(r, u));
    Distrib(K, u, K.Sub(K.one, r), r);
    AddSub(K, r, K.one);
    MulOne(K, u);
    AddAssoc(K, K.Mul(K.Mul(K.Sub(K.one, r), u), n), K.Mul(K.Mul(r, u), n), K.Mul(r, u));
    AddComm(K, K.Mul(u, n), K.Mul(r, u));
    MulAssoc(K, u, K.Num(2), K.Num(j));
    MulComm(K, u, K.Num(2));
    MulAssoc(K, K.Num(2), u, K.Num(j));
  }

  /** The table 0, 1, 2, ... evaluates to r_0 + 2*r_1 + 4*r_2 + ... */
  lemma {:induction false} NumbersSum<T(!new)>(K: Field<T>, r: seq<T>)
    requires Lawful(K)
    ensures K.Sum(Times(K, EqTable(K, r), Numbers(K, Pow2(|r|)))) == WeightedBits(K, r)
  {
    if r == [] {
      MulZero(K, K.one);
      assert Times(K, EqTable(K, r), Numbers(K, Pow2(|r|))) == [K.zero];
      SumOne(K, K.zero);
    } else {
      hide EqTable, Field<T>.Num, Field<T>.Sub;
      var u, half := EqTable(K, r[1..]), Pow2(|r| - 1);
      var s, t := Times(K, EqTable(K, r), Numbers(K, Pow2(|r|))), Times(K, u, Numbers(K, half));
      NumbersSum(K, r[1..]);
      assert |s| == 2 * |u|;
      forall j: nat | j < |u|
          ensures Plus(K, Evens(s), Odds(s))[j] == Plus(K, Scaled(K, r[0], u), Scaled(K, K.Num(2), t))[j] {
        EqTableEntry(K, r, j);
        NumberPair(K, r[0], u[j], j);
      }
      assert Plus(K, Evens(s), Odds(s)) == Plus(K, Scaled(K, r[0], u), Scaled(K, K.Num(2), t));
      SumHalves(K, s);
      SumPlus(K, Evens(s), Odds(s));
      SumPlus(K, Scaled(K, r[0], u), Scaled(K, K.Num(2), t));
      SumScaled(K, r[0], u);
      SumScaled(K, K.Num(2), t);
      EqTableSum(K, r[1..]);
      MulOne(K, r[0]);
    }
  }

  /** The address vector evaluates to offset plus or minus scaled times the value of the table 0, 1, 2, ... */
  lemma AddressVecSum<T(!new)>(K: Field<T>, offset: nat, scaled: nat, descending: bool, r: seq<T>)
    requires Lawful(K)
    ensures var d := K.Mul(K.Num(scaled), WeightedBits(K, r));
            K.Sum(Times(K, EqTable(K, r), AddressVec(K, offset, scaled, descending, Pow2(|r|))))
              == K.Add(K.Num(offset), if descending then K.Neg(d) else d)
  {
    hide EqTable, Field<T>.Num, Field<T>.Sum, WeightedBits;
    var e, c := EqTable(K, r), if descending then K.Neg(K.Num(scaled)) else K.Num(scaled);
    var numbers := Times(K, e, Numbers(K, Pow2(|r|)));
    var s, t := Times(K, e, AddressVec(K, offset, scaled, descending, Pow2(|r|))),
        Plus(K, Scaled(K, K.Num(offset), e), Scaled(K, c, numbers));
    forall i | 0 <= i < |s| ensures s[i] == t[i] {
      NegMul(K, K.Num(scaled), K.Num(i));
      Distrib(K, e[i], K.Num(offset), K.Mul(c, K.Num(i)));
      MulComm(K, e[i], K.Num(offset));
      MulAssoc(K, e[i], c, K.Num(i));
      MulComm(K, e[i], c);
      MulAssoc(K, c, e[i], K.Num(i));
    }
    assert s == t;
    SumPlus(K, Scaled(K, K.Num(offset), e), Scaled(K, c, numbers));
    SumScaled(K, K.Num(offset), e);
    SumScaled(K, c, numbers);
    EqTableSum(K, r);
    NumbersSum(K, r);
    MulOne(K, K.Num(offset));
    NegMul(K, K.Num(scaled), WeightedBits(K, r));
  }

  /** `eval_wellform_address_vec` */
  method EvalWellformAddressVec<T(!new)>(K: Field<T>, offset: nat, scaled: nat, r: seq<T>,
                                         descending: bool) returns (v: T)
    requires Lawful(K)
    ensures v == K.Sum(Times(K, EqTable(K, r), AddressVec(K, offset, scaled, descending, Pow2(|r|))))
  {
    hide EqTable, Field<T>.Num, Field<T>.Sum, Pow2;
    var sum, state := K.zero, K.one;
    AddZero(K, K.Mul(K.one, WeightedBits(K, r)));
    MulOne(K, WeightedBits(K, r));
    for i := 0 to |r|
      invariant K.Add(sum, K.Mul(state, WeightedBits(K, r[i..]))) == WeightedBits(K, r)
    {
      NextWeight(K, r[i..], sum, state);
      assert r[i..][1..] == r[i + 1..];
      sum := K.Add(sum, K.Mul(r[i], state));
      state := K.Mul(state, K.Num(2));
    }
    MulZero(K, state);
    AddZero(K, sum);
    AddressVecSum(K, offset, scaled, descending, r);
    var tmp := K.Mul(K.Num(scaled), sum);
    v := K.Add(K.Num(offset), if descending then K.Neg(tmp) else tmp);
  }

  lemma NextWeight<T(!new)>(K: Field<T>, r: seq<T>, sum: T, state: T)
    requires Lawful(K) && r != []
    ensures K.Add(K.Add(sum, K.Mul(r[0], state)), K.Mul(K.Mul(state, K.Num(2)), WeightedBits(K, r[1..])))
         == K.Add(sum, K.Mul(state, WeightedBits(K, r)))
  {
    hide Field<T>.Num;
    var w := WeightedBits(K, r[1..]);
    Distrib(K, state, r[0], K.Mul(K.Num(2), w));
    MulComm(K, state, r[0]);
    MulAssoc(K, state, K.Num(2), w);
    AddAssoc(K, sum, K.Mul(r[0], state), K.Mul(K.Mul(state, K.Num(2)), w));
  }
}

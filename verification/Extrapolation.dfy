/** The precomputed extrapolation table of the prover and the unrolled extrapolation of the verifier. */
module Extrapolation {
  import opened Wrappers
  import opened Fields
  import opened Sums
  import opened Polynomials
  import opened Interpolation

  // ---------- the table ----------

  /** The unnormalised share of node j among n nodes at the integer z. */
  function RawShare<T>(K: Field<T>, n: nat, z: nat, j: nat): T {
    K.Div(Weight(K, n, j), K.Sub(K.Num(z), K.Num(j)))
  }

  function RawShares<T>(K: Field<T>, n: nat, z: nat): (r: seq<T>)
    ensures |r| == n && forall j :: 0 <= j < n ==> r[j] == RawShare(K, n, z, j)
  {
    seq(n, j requires 0 <= j < n => RawShare(K, n, z, j))
  }

  /** The table row for n nodes and target z: the shares divided by their sum. */
  function TableRow<T>(K: Field<T>, n: nat, z: nat): (r: seq<T>)
    ensures |r| == n && forall j :: 0 <= j < n ==> r[j] == K.Div(RawShare(K, n, z, j), K.Sum(RawShares(K, n, z)))
  {
    seq(n, j requires 0 <= j < n => K.Div(RawShare(K, n, z, j), K.Sum(RawShares(K, n, z))))
  }

  function Dot<T>(K: Field<T>, ws: seq<T>, xs: seq<T>): T
    requires |ws| == |xs|
  {
    K.Sum(Times(K, ws, xs))
  }

  lemma IntegerOffNodes<T(!new)>(K: Field<T>, n: nat, z: nat)
    requires Lawful(K) && CharacteristicAbove(K, z) && n <= z
    ensures OffNodes(K, n, K.Num(z))
  {
    forall j: nat | j < n ensures OffNode(K, j, K.Num(z)) { NodesDistinct(K, z, z, j); }
  }

  lemma OnesAreShares<T(!new)>(K: Field<T>, n: nat, z: nat)
    requires Lawful(K)
    ensures RawShares(K, n, z) == Shares(K, seq(n, _ => K.one), K.Num(z))
  {
    forall j | 0 <= j < n
      ensures RawShare(K, n, z, j) == Share(K, seq(n, _ => K.one), K.Num(z), j)
    {
      MulOne(K, Weight(K, n, j));
    }
  }

  /** The shares of the constant polynomial one add up to the inverse of the node product. */
  lemma Denominator<T(!new)>(K: Field<T>, n: nat, z: nat)
    requires Lawful(K) && 0 < n <= z && CharacteristicAbove(K, z)
    ensures K.Mul(NodeProduct(K, n, K.Num(z)), K.Sum(RawShares(K, n, z))) == K.one
  {
    var ones, one := seq(n, _ => K.one), [K.one];
    OnesAreShares(K, n, z);
    IntegerOffNodes(K, n, z);
    FirstForm(K, ones, K.Num(z));
    forall x: T ensures Eval(K, one, x) == K.one {
      assert one[1..] == [];
      MulZero(K, x);
      AddZero(K, K.one);
    }
    assert forall k: nat :: 1 <= k <= n - 1 ==> NumeralNonZero(K, k);
    assert PassesThrough(K, one, ones);
    InterpolantUnique(K, ones, one, K.Num(z));
  }

  lemma InverseUnique<T(!new)>(K: Field<T>, a: T, b: T)
    requires Lawful(K) && K.Mul(a, b) == K.one
    ensures a != K.zero && b != K.zero && K.Inv(b) == a
  {
    MulZero(K, a);
    MulZero(K, b);
    MulInv(K, b);
    MulAssoc(K, a, b, K.Inv(b));
    MulOne(K, K.Inv(b));
    MulOne(K, a);
  }

  /** Second barycentric form: a table row applied to the values at the nodes gives the value of the
      interpolating polynomial at the later integer z. */
  lemma TableRowExact<T(!new)>(K: Field<T>, ys: seq<T>, z: nat)
    requires Lawful(K) && 0 < |ys| <= z && CharacteristicAbove(K, z)
    ensures Dot(K, TableRow(K, |ys|, z), ys) == Eval(K, Interpolant(K, ys), K.Num(z))
  {
    var n, x := |ys|, K.Num(z);
    var den, l := K.Sum(RawShares(K, n, z)), NodeProduct(K, n, K.Num(z));
    Denominator(K, n, z);
    InverseUnique(K, l, den);
    IntegerOffNodes(K, n, z);
    FirstForm(K, ys, x);
    var terms, scaled := Times(K, TableRow(K, n, z), ys), Scaled(K, l, Shares(K, ys, x));
    forall j | 0 <= j < n ensures terms[j] == scaled[j] {
      RowEntry(K, ys, z, j, l, den);
    }
    assert terms == scaled;
    SumScaled(K, l, Shares(K, ys, x));
  }

  lemma RowEntry<T(!new)>(K: Field<T>, ys: seq<T>, z: nat, j: nat, l: T, den: T)
    requires Lawful(K) && j < |ys| && K.Inv(den) == l
    ensures K.Mul(K.Div(RawShare(K, |ys|, z, j), den), ys[j]) == K.Mul(l, Share(K, ys, K.Num(z), j))
  {
    var w, d, y := Weight(K, |ys|, j), K.Inv(K.Sub(K.Num(z), K.Num(j))), ys[j];
    MulComm(K, K.Mul(w, d), l);
    MulAssoc(K, l, K.Mul(w, d), y);
    MulAssoc(K, w, d, y);
    MulComm(K, d, y);
    MulAssoc(K, w, y, d);
  }

  /** The rows for one degree d: one per target from d + 1 to the maximal degree. */
  function DegreeRows<T>(K: Field<T>, d: nat, maxDegree: nat): (r: seq<seq<T>>)
    ensures |r| == if d <= maxDegree then maxDegree - d else 0
    ensures forall o :: 0 <= o < |r| ==> r[o] == TableRow(K, d + 1, d + 1 + o)
  {
    seq(if d <= maxDegree then maxDegree - d else 0, o requires 0 <= o => TableRow(K, d + 1, d + 1 + o))
  }

  function Table<T>(K: Field<T>, minDegree: nat, maxDegree: nat): (r: seq<seq<seq<T>>>)
    ensures |r| == if minDegree <= maxDegree then maxDegree - minDegree + 1 else 0
    ensures forall i :: 0 <= i < |r| ==> r[i] == DegreeRows(K, minDegree + i, maxDegree)
  {
    seq(if minDegree <= maxDegree then maxDegree - minDegree + 1 else 0,
        i requires 0 <= i => DegreeRows(K, minDegree + i, maxDegree))
  }

  /** `ExtrapolationTable::new`: one row per degree in the range and target beyond the degree. */
  method NewTable<T(!new)>(K: Field<T>, minDegree: nat, maxDegree: nat) returns (weights: seq<seq<seq<T>>>)
    requires Lawful(K)
    ensures weights == Table(K, minDegree, maxDegree)
  {
    weights := [];
    ghost var table := Table(K, minDegree, maxDegree);
    for i := 0 to if minDegree <= maxDegree then maxDegree - minDegree + 1 else 0
      invariant weights == table[..i]
    {
      var d := minDegree + i;
      var baryWeights := BarycentricWeights(K, d + 1);
      var degreeWeights: seq<seq<T>> := [];
      ghost var rows := DegreeRows(K, d, maxDegree);
      for o := 0 to maxDegree - d
        invariant degreeWeights == rows[..o]
      {
        var row := TargetRow(K, d + 1, d + 1 + o, baryWeights);
        degreeWeights := degreeWeights + [row];
      }
      assert degreeWeights == rows == table[i];
      weights := weights + [degreeWeights];
    }
  }

  method BarycentricWeights<T(!new)>(K: Field<T>, n: nat) returns (baryWeights: seq<T>)
    ensures |baryWeights| == n && forall j :: 0 <= j < n ==> baryWeights[j] == Weight(K, n, j)
  {
    baryWeights := [];
    for j := 0 to n
      invariant |baryWeights| == j && forall i :: 0 <= i < j ==> baryWeights[i] == Weight(K, n, i)
    {
      var w := K.one;
      for i := 0 to n
        invariant w == Except(K, i, j, K.Num(j))
      {
        if i != j {
          w := K.Mul(w, K.Sub(K.Num(j), K.Num(i)));
        }
      }
      baryWeights := baryWeights + [K.Inv(w)];
    }
  }

  /** The inner part of the table loop: one row, accumulated and then normalised. */
  method TargetRow<T(!new)>(K: Field<T>, n: nat, z: nat, baryWeights: seq<T>) returns (row: seq<T>)
    requires Lawful(K)
    requires |baryWeights| == n && forall i :: 0 <= i < n ==> baryWeights[i] == Weight(K, n, i)
    ensures row == TableRow(K, n, z)
  {
    var tmp: seq<T>, den := [], K.zero;
    ghost var shares := RawShares(K, n, z);
    for j := 0 to n
      invariant |tmp| == j && tmp == shares[..j] && den == K.Sum(tmp)
    {
      var t := K.Div(baryWeights[j], K.Sub(K.Num(z), K.Num(j)));
      SumSnoc(K, tmp, t);
      tmp, den := tmp + [t], K.Add(den, t);
    }
    assert tmp == shares;
    row := [];
    for j := 0 to n
      invariant |row| == j && row == TableRow(K, n, z)[..j]
    {
      row := row + [K.Div(tmp[j], den)];
    }
  }

  /** `extrapolate_from_table`: the first `start` values stay, every later slot receives the value of the
      interpolating polynomial at its index. */
  method ExtrapolateFromTable<T(!new)>(K: Field<T>, uni: array<T>, start: nat)
    requires Lawful(K) && 0 < start < uni.Length && CharacteristicAbove(K, uni.Length - 1)
    modifies uni
    ensures uni[..] == Extended(K, old(uni[..start]), uni.Length)
  {
    var table := NewTable(K, start - 1, uni.Length - 1);
    var weightSets := table[0];
    assert weightSets == DegreeRows(K, start - 1, uni.Length - 1);
    ghost var known := uni[..start];
    var z := start;
    while z < uni.Length
      invariant start <= z <= uni.Length && uni[..start] == known
      invariant forall i :: start <= i < z ==> uni[i] == Eval(K, Interpolant(K, known), K.Num(i))
    {
      var weights := weightSets[z - start];
      var acc := K.zero;
      ghost var products := Times(K, weights, known);
      for j := 0 to start
        invariant acc == K.Sum(products[..j]) && uni[..start] == known
        invariant forall i :: start <= i < z ==> uni[i] == Eval(K, Interpolant(K, known), K.Num(i))
      {
        assert uni[j] == known[j];
        assert products[..j + 1] == products[..j] + [products[j]];
        SumSnoc(K, products[..j], products[j]);
        acc := K.Add(acc, K.Mul(weights[j], uni[j]));
      }
      assert products[..start] == products;
      assert forall k: nat :: 1 <= k <= z ==> NumeralNonZero(K, k);
      TableRowExact(K, known, z);
      uni[z] := acc;
      z := z + 1;
    }
  }

  /** The values of the polynomial through `known`, continued up to length n. */
  function Extended<T>(K: Field<T>, known: seq<T>, n: nat): (r: seq<T>)
    requires |known| <= n
    ensures |r| == n && forall i :: 0 <= i < n ==>
              r[i] == if i < |known| then known[i] else Eval(K, Interpolant(K, known), K.Num(i))
  {
    seq(n, i requires 0 <= i < n => if i < |known| then known[i] else Eval(K, Interpolant(K, known), K.Num(i)))
  }

  /** If the known values come from a polynomial p of small enough degree, all values do. */
  lemma ExtendedExact<T(!new)>(K: Field<T>, p: seq<T>, known: seq<T>, n: nat)
    requires Lawful(K) && known != [] && |known| <= n && CharacteristicAbove(K, |known| - 1)
    requires PassesThrough(K, p, known)
    ensures forall i :: 0 <= i < n ==> Extended(K, known, n)[i] == Eval(K, p, K.Num(i))
  {
    forall i: nat | i < n ensures Extended(K, known, n)[i] == Eval(K, p, K.Num(i)) {
      InterpolantUnique(K, known, p, K.Num(i));
    }
  }

  // ---------- the verifier's unrolled extrapolation ----------

  /** The constants of `extrapolate_uni_poly_deg_1` to `_deg_4`, for n = 2 to 5 values. */
  function CodeWeights<T>(K: Field<T>, n: nat): (ws: seq<T>)
    requires 2 <= n <= 5
    ensures |ws| == n
  {
    var unit := (m: nat) => K.Div(K.Num(1), K.Num(m));
    if n == 2 then [K.Neg(K.one), K.one]
    else if n == 3 then [unit(2), K.Neg(K.one), unit(2)]
    else if n == 4 then [K.Neg(unit(6)), unit(2), K.Neg(unit(2)), unit(6)]
    else [unit(24), K.Neg(unit(6)), unit(4), K.Neg(unit(6)), unit(24)]
  }

  function LeftSum<T>(K: Field<T>, s: seq<T>): T
    requires s != []
  {
    if |s| == 1 then s[0] else K.Add(LeftSum(K, s[..|s| - 1]), s[|s| - 1])
  }

  /** The product of the distances d_0 * d_1 * ... * d_(n-1). */
  function Distances<T>(K: Field<T>, n: nat, x: T): T
    requires n > 0
  {
    if n == 1 then K.Sub(x, K.Num(0)) else K.Mul(Distances(K, n - 1, x), K.Sub(x, K.Num(n - 1)))
  }

  predicate IsNode<T(==)>(K: Field<T>, n: nat, x: T) {
    exists j: nat :: j < n && x == K.Num(j)
  }

  function CodeShare<T>(K: Field<T>, p: seq<T>, x: T, j: nat): T
    requires 2 <= |p| <= 5 && j < |p|
  {
    K.Mul(K.Mul(CodeWeights(K, |p|)[j], p[j]), K.Inv(K.Sub(x, K.Num(j))))
  }

  /** `extrapolate_uni_poly`: None is a panic, either on an unsupported number of values or on the
      inverse of zero at a node. */
  function ExtrapolateUniPoly<T(==)>(K: Field<T>, p: seq<T>, x: T): Option<T> {
    if !(2 <= |p| <= 5) || IsNode(K, |p|, x) then None
    else Some(K.Mul(Distances(K, |p|, x), LeftSum(K, seq(|p|, j requires 0 <= j < |p| => CodeShare(K, p, x, j)))))
  }

  /** The weight of a node is the inverse of an integer. */
  function ExceptInt(n: nat, j: nat): int {
    if n == 0 then 1 else if n - 1 == j then ExceptInt(n - 1, j) else ExceptInt(n - 1, j) * (j - (n - 1))
  }

  lemma {:induction false} ExceptIsInt<T(!new)>(K: Field<T>, n: nat, j: nat)
    requires Lawful(K)
    ensures Except(K, n, j, K.Num(j)) == NumZ(K, ExceptInt(n, j))
  {
    if n == 0 {
      NumOne(K);
    } else {
      ExceptIsInt(K, n - 1, j);
      if n - 1 != j {
        NumSub(K, j, n - 1);
        NumZMul(K, ExceptInt(n - 1, j), j - (n - 1));
      }
    }
  }

  lemma {:induction false} UnitInverse<T(!new)>(K: Field<T>, m: nat)
    requires Lawful(K) && m > 0 && K.Num(m) != K.zero
    ensures K.Inv(NumZ(K, m)) == K.Div(K.Num(1), K.Num(m))
    ensures K.Inv(NumZ(K, 0 - m)) == K.Neg(K.Div(K.Num(1), K.Num(m)))
  {
    var a := K.Num(m);
    NumOne(K);
    MulOne(K, K.Inv(a));
    MulInv(K, a);
    NegMul(K, K.Inv(a), K.Neg(a));
    NegMul(K, a, K.Inv(a));
    NegNeg(K, K.one);
    InverseUnique(K, K.Neg(K.Inv(a)), K.Neg(a));
  }

  lemma ProductNumeral<T(!new)>(K: Field<T>, m: nat, n: nat)
    requires Lawful(K) && K.Num(m) != K.zero && K.Num(n) != K.zero
    ensures K.Num(m * n) != K.zero
  {
    NumMul(K, m, n);
    if K.Num(m * n) == K.zero { NoZeroDivisors(K, K.Num(m), K.Num(n)); }
  }

  lemma ExceptIntValues()
    ensures ExceptInt(2, 0) == -1 && ExceptInt(2, 1) == 1
    ensures ExceptInt(3, 0) == 2 && ExceptInt(3, 1) == -1 && ExceptInt(3, 2) == 2
    ensures ExceptInt(4, 0) == -6 && ExceptInt(4, 1) == 2 && ExceptInt(4, 2) == -2 && ExceptInt(4, 3) == 6
    ensures ExceptInt(5, 0) == 24 && ExceptInt(5, 1) == -6 && ExceptInt(5, 2) == 4
    ensures ExceptInt(5, 3) == -6 && ExceptInt(5, 4) == 24
  {
  }

  /** The hard-coded constants are the barycentric weights. */
  lemma CodeWeightsExact<T(!new)>(K: Field<T>, n: nat, j: nat)
    requires Lawful(K) && 2 <= n <= 5 && j < n && CharacteristicAbove(K, n - 1)
    ensures CodeWeights(K, n)[j] == Weight(K, n, j)
  {
    ExceptIsInt(K, n, j);
    ExceptIntValues();
    NumOne(K);
    UnitInverse(K, 1);
    MulInv(K, K.one);
    MulOne(K, K.Inv(K.one));
    assert n >= 3 ==> NumeralNonZero(K, 2);
    if n >= 3 { UnitInverse(K, 2); }
    assert n >= 4 ==> NumeralNonZero(K, 3);
    if n >= 4 { ProductNumeral(K, 2, 3); UnitInverse(K, 6); }
    assert n >= 5 ==> NumeralNonZero(K, 4);
    if n >= 5 { UnitInverse(K, 4); ProductNumeral(K, 6, 4); UnitInverse(K, 24); }
  }

  lemma {:induction false} LeftSumIsSum<T(!new)>(K: Field<T>, s: seq<T>)
    requires Lawful(K) && s != []
    ensures LeftSum(K, s) == K.Sum(s)
  {
    if |s| == 1 {
      AddZero(K, s[0]);
    } else {
      var head := s[..|s| - 1];
      LeftSumIsSum(K, head);
      SumSnoc(K, head, s[|s| - 1]);
      assert s == head + [s[|s| - 1]];
    }
  }

  lemma {:induction false} DistancesAreProduct<T(!new)>(K: Field<T>, n: nat, x: T)
    requires Lawful(K) && n > 0
    ensures Distances(K, n, x) == NodeProduct(K, n, x)
  {
    if n == 1 {
      MulOne(K, K.Sub(x, K.Num(0)));
      assert NodeProduct(K, 0, x) == K.one;
    } else {
      DistancesAreProduct(K, n - 1, x);
    }
  }

  /** `extrapolate_uni_poly` succeeds exactly on 2 to 5 values away from the nodes, and then returns
      the value at x of the polynomial through the given values. */
  lemma ExtrapolateUniPolyExact<T(!new)>(K: Field<T>, p: seq<T>, x: T)
    requires Lawful(K) && (2 <= |p| <= 5 ==> CharacteristicAbove(K, |p| - 1))
    ensures ExtrapolateUniPoly(K, p, x).Some? <==> 2 <= |p| <= 5 && !IsNode(K, |p|, x)
    ensures ExtrapolateUniPoly(K, p, x).Some? ==>
              ExtrapolateUniPoly(K, p, x).value == Eval(K, Interpolant(K, p), x)
  {
    if ExtrapolateUniPoly(K, p, x).Some? {
      var shares := seq(|p|, j requires 0 <= j < |p| => CodeShare(K, p, x, j));
      forall j | 0 <= j < |p| ensures shares[j] == Share(K, p, x, j) { CodeWeightsExact(K, |p|, j); }
      assert shares == Shares(K, p, x);
      LeftSumIsSum(K, shares);
      DistancesAreProduct(K, |p|, x);
      forall j: nat | j < |p| ensures OffNode(K, j, x) {
        if K.Sub(x, K.Num(j)) == K.zero { SubZeroEqual(K, x, K.Num(j)); }
      }
      FirstForm(K, p, x);
    }
  }
}

/** The generated evaluator of one product in one round, as the code computes it, and what it means. */
module RoundEvaluator {
  import opened Fields
  import opened Sums
  import opened Multilinear
  import opened HypercubeSums
  import opened MixedArity

  /** `Normal` tables are split over the workers; `Phase2Only` tables are too small and are duplicated. */
  datatype PolyMeta = Normal | Phase2Only

  function LargestEvenBelow(n: nat): nat {
    if n % 2 == 0 then n else n - 1
  }

  function SaturatingSub(a: nat, b: nat): nat {
    if a >= b then a - b else 0
  }

  function BitLength(n: nat): nat {
    if n == 0 then 0 else 1 + BitLength(n / 2)
  }

  /** `ceil_log2`: the number of bits of x - 1. */
  function CeilLog2(x: nat): nat
    requires x > 0
  {
    BitLength(x - 1)
  }

  lemma {:induction false} CeilLog2Exact(k: nat)
    ensures CeilLog2(Pow2(k)) == k
  {
    if k > 0 {
      CeilLog2Exact(k - 1);
      assert (Pow2(k) - 1) / 2 == Pow2(k - 1) - 1;
    }
  }

  // ---------- multiples of a difference by doubling ----------

  function OneBitsFrom(n: nat, j: nat): (r: seq<nat>)
  {
    if n == 0 then [] else (if n % 2 == 1 then [j] else []) + OneBitsFrom(n / 2, j + 1)
  }

  function PowerSum(js: seq<nat>): nat {
    if js == [] then 0 else Pow2(js[0]) + PowerSum(js[1..])
  }

  lemma {:induction false} OneBitsSum(n: nat, j: nat)
    ensures PowerSum(OneBitsFrom(n, j)) == n * Pow2(j)
  {
    if n > 0 {
      OneBitsSum(n / 2, j + 1);
      HalfTimes(n, Pow2(j));
      var rest := OneBitsFrom(n / 2, j + 1);
      if n % 2 == 1 { assert ([j] + rest)[1..] == rest; } else { assert [] + rest == rest; }
    }
  }

  lemma HalfTimes(n: nat, p: nat)
    ensures n * p == (n / 2) * (2 * p) + (n % 2) * p
  {
    assert n == 2 * (n / 2) + n % 2;
    assert 2 * (n / 2) * p == (n / 2) * (2 * p);
  }

  /** The right shift of n by j bits. */
  function Shr(n: nat, j: nat): nat {
    if j == 0 then n else Shr(n, j - 1) / 2
  }

  lemma {:induction false} ShrLength(n: nat, j: nat)
    requires j <= BitLength(n)
    ensures BitLength(Shr(n, j)) == BitLength(n) - j
  {
    if j > 0 { ShrLength(n, j - 1); }
  }

  /** `idx_of_one_bits`: the positions of the one bits, lowest first; their powers of two add up to n. */
  method IdxOfOneBits(n: nat) returns (res: seq<nat>)
    requires n > 0
    ensures res == OneBitsFrom(n, 0) && PowerSum(res) == n
  {
    hide Pow2, PowerSum, OneBitsFrom, Shr, BitLength;
    res := [];
    ShrStart(n);
    for j := 0 to BitLength(n)
      invariant res + OneBitsFrom(Shr(n, j), j) == OneBitsFrom(n, 0)
    {
      OneBitsStep(n, j);
      ghost var rest := OneBitsFrom(Shr(n, j + 1), j + 1);
      if Shr(n, j) % 2 == 1 {
        assert res + ([j] + rest) == (res + [j]) + rest;
        res := res + [j];
      }
    }
    ShrEnd(n);
    OneBitsSum(n, 0);
    assert res + [] == res;
  }

  lemma ShrStart(n: nat)
    ensures Shr(n, 0) == n && Pow2(0) == 1
  {
  }

  lemma OneBitsStep(n: nat, j: nat)
    requires j < BitLength(n)
    ensures OneBitsFrom(Shr(n, j), j)
         == if Shr(n, j) % 2 == 1 then [j] + OneBitsFrom(Shr(n, j + 1), j + 1) else OneBitsFrom(Shr(n, j + 1), j + 1)
  {
    ShrLength(n, j);
  }

  lemma ShrEnd(n: nat)
    ensures OneBitsFrom(Shr(n, BitLength(n)), BitLength(n)) == []
  {
    ShrLength(n, BitLength(n));
  }

  /** The declared multiples: c_0 is the difference and every next one doubles its predecessor. */
  function Doubled<T>(K: Field<T>, c0: T, k: nat): T {
    if k == 0 then c0 else K.Add(Doubled(K, c0, k - 1), Doubled(K, c0, k - 1))
  }

  function DoubledSum<T>(K: Field<T>, c0: T, ks: seq<nat>): T
    requires ks != []
  {
    if |ks| == 1 then Doubled(K, c0, ks[0])
    else K.Add(DoubledSum(K, c0, ks[..|ks| - 1]), Doubled(K, c0, ks[|ks| - 1]))
  }

  lemma OneBitsNonEmpty(n: nat, j: nat)
    requires n > 0
    ensures OneBitsFrom(n, j) != []
  {
    if n % 2 == 0 { OneBitsNonEmpty(n / 2, j + 1); }
  }

  /** Entry i of the generated array for one factor with values v0 and v1 at 0 and 1. */
  function RowValue<T>(K: Field<T>, i: nat, v0: T, v1: T): T {
    if i == 0 then v0
    else if i == 1 then v1
    else
      OneBitsNonEmpty(i - 1, 0);
      K.Add(DoubledSum(K, K.Sub(v1, v0), OneBitsFrom(i - 1, 0)), v1)
  }

  lemma {:induction false} DoubledIsMultiple<T(!new)>(K: Field<T>, c0: T, k: nat)
    requires Lawful(K)
    ensures Doubled(K, c0, k) == K.Mul(K.Num(Pow2(k)), c0)
  {
    if k == 0 {
      NumOne(K);
      MulOne(K, c0);
    } else {
      DoubledIsMultiple(K, c0, k - 1);
      NumAdd(K, Pow2(k - 1), Pow2(k - 1));
      Distrib(K, c0, K.Num(Pow2(k - 1)), K.Num(Pow2(k - 1)));
    }
  }

  lemma {:induction false} PowerSumSnoc(js: seq<nat>, j: nat)
    ensures PowerSum(js + [j]) == PowerSum(js) + Pow2(j)
  {
    if js == [] {
      assert [j][1..] == [];
    } else {
      assert (js + [j])[1..] == js[1..] + [j];
      PowerSumSnoc(js[1..], j);
    }
  }

  lemma {:induction false} DoubledSumIsMultiple<T(!new)>(K: Field<T>, c0: T, ks: seq<nat>)
    requires Lawful(K) && ks != []
    ensures DoubledSum(K, c0, ks) == K.Mul(K.Num(PowerSum(ks)), c0)
  {
    var head, last := ks[..|ks| - 1], ks[|ks| - 1];
    assert ks == head + [last];
    PowerSumSnoc(head, last);
    DoubledIsMultiple(K, c0, last);
    if |ks| > 1 {
      DoubledSumIsMultiple(K, c0, head);
      NumAdd(K, PowerSum(head), Pow2(last));
      Distrib(K, c0, K.Num(PowerSum(head)), K.Num(Pow2(last)));
    }
  }

  /** Every entry of the generated array is the value of the factor's line at the entry's index. */
  lemma RowValueExact<T(!new)>(K: Field<T>, i: nat, v0: T, v1: T)
    requires Lawful(K)
    ensures RowValue(K, i, v0, v1) == K.Line(v0, v1, K.Num(i))
  {
    if i < 2 {
      LineEnds(K, v0, v1);
      NumOne(K);
    } else {
      hide *;
      RowMultiple(K, i - 1, v0, v1);
      NextOnLine(K, i - 1, v0, v1);
    }
  }

  lemma RowMultiple<T(!new)>(K: Field<T>, n: nat, v0: T, v1: T)
    requires Lawful(K) && n > 0
    ensures RowValue(K, n + 1, v0, v1) == K.Add(K.Mul(K.Num(n), K.Sub(v1, v0)), v1)
  {
    hide Doubled, DoubledSum, Field<T>.Num, OneBitsFrom;
    OneBitsNonEmpty(n, 0);
    DoubledSumIsMultiple(K, K.Sub(v1, v0), OneBitsFrom(n, 0));
    OneBitsSum(n, 0);
  }

  lemma NextOnLine<T(!new)>(K: Field<T>, n: nat, v0: T, v1: T)
    requires Lawful(K)
    ensures K.Add(K.Mul(K.Num(n), K.Sub(v1, v0)), v1) == K.Line(v0, v1, K.Num(n + 1))
  {
    var d := K.Sub(v1, v0);
    AddSub(K, v0, v1);
    LineStep(K, K.Mul(K.Num(n), d), v0, d, v1);
    Distrib(K, d, K.Num(n), K.one);
    MulOne(K, d);
  }

  lemma LineStep<T(!new)>(K: Field<T>, m: T, v0: T, d: T, v1: T)
    requires Lawful(K) && K.Add(v0, d) == v1
    ensures K.Add(m, v1) == K.Add(v0, K.Add(m, d))
  {
    AddCommAll(K);
    AddAssocAll(K);
  }

  // ---------- one product in one round ----------

  function RowsAt<T>(K: Field<T>, fs: seq<seq<T>>, k: nat, i: nat): (r: seq<T>)
    requires forall j :: 0 <= j < |fs| ==> 2 * k + 1 < |fs[j]|
    ensures |r| == |fs| && forall j :: 0 <= j < |fs| ==> r[j] == RowValue(K, i, fs[j][2 * k], fs[j][2 * k + 1])
  {
    seq(|fs|, j requires 0 <= j < |fs| => RowValue(K, i, fs[j][2 * k], fs[j][2 * k + 1]))
  }

  function RowTable<T>(K: Field<T>, fs: seq<seq<T>>, half: nat, i: nat): (t: seq<T>)
    requires forall j :: 0 <= j < |fs| ==> 2 * half <= |fs[j]|
    ensures |t| == half && forall k :: 0 <= k < half ==> t[k] == K.Product(RowsAt(K, fs, k, i))
  {
    seq(half, k requires 0 <= k < half => K.Product(RowsAt(K, fs, k, i)))
  }

  function Constant<T>(x: T, n: nat): (r: seq<T>)
    ensures |r| == n && forall i :: 0 <= i < n ==> r[i] == x
  {
    seq(n, _ => x)
  }

  /** The full sum of a product with fewer variables, times two to the number of missing variables. */
  function MultipliedSum<T>(K: Field<T>, fs: seq<seq<T>>, multiplicity: nat): T
    requires fs != [] && AllSized(fs, |fs[0]|)
  {
    var sum := K.Sum(ProductTable(K, fs, LargestEvenBelow(|fs[0]|)));
    if multiplicity > 0 then K.Mul(sum, K.Num(Pow2(multiplicity))) else sum
  }

  /** The generated match on the kind and the arity of a product, for the factor tables fs. */
  function EvaluateProduct<T>(K: Field<T>, fs: seq<seq<T>>, meta: PolyMeta, isMain: bool,
                              expected: nat, phase2NumVars: nat): (r: seq<T>)
    requires fs != [] && AllSized(fs, |fs[0]|) && |fs[0]| > 0
    ensures |r| == |fs| + 1
  {
    var len, n := |fs[0]|, |fs| + 1;
    var numVar := CeilLog2(len);
    match meta
    case Phase2Only =>
      if isMain
      then Constant(MultipliedSum(K, fs, SaturatingSub(SaturatingSub(expected + phase2NumVars, 1), numVar)), n)
      else Constant(K.zero, n)
    case Normal =>
      if numVar < expected then Constant(MultipliedSum(K, fs, SaturatingSub(SaturatingSub(expected, 1), numVar)), n)
      else if len == 1 then Constant(K.Product(Column(fs, 0)), n)
      else seq(n, i requires 0 <= i < n => K.Sum(RowTable(K, fs, LargestEvenBelow(len) / 2, i)))
  }

  lemma RowTableExact<T(!new)>(K: Field<T>, fs: seq<seq<T>>, half: nat, i: nat)
    requires Lawful(K) && AllSized(fs, 2 * half)
    ensures K.Sum(RowTable(K, fs, half, i)) == PartialSum(K, fs, half, K.Num(i))
  {
    hide RowValue;
    forall k | 0 <= k < half ensures RowsAt(K, fs, k, i) == Column(FoldAll(K, fs, K.Num(i)), k) {
      forall j | 0 <= j < |fs| ensures RowsAt(K, fs, k, i)[j] == Fold(K, fs[j], K.Num(i))[k] {
        RowValueExact(K, i, fs[j][2 * k], fs[j][2 * k + 1]);
      }
    }
    assert RowTable(K, fs, half, i) == ProductTable(K, FoldAll(K, fs, K.Num(i)), half);
  }

  lemma MultipliedSumExact<T(!new)>(K: Field<T>, fs: seq<seq<T>>, arity: nat, total: nat, t: T)
    requires Lawful(K) && fs != [] && AllSized(fs, Pow2(arity)) && 0 < arity < total
    ensures AllSized(Pads(fs, Pow2(total - arity)), 2 * Pow2(total - 1))
    ensures MultipliedSum(K, fs, total - 1 - arity)
         == PartialSum(K, Pads(fs, Pow2(total - arity)), Pow2(total - 1), t)
  {
    hide MultipliedSum, PartialSum, ProductTable, Pads, Pow2, Field<T>.Num, Field<T>.Sum;
    LowerArity(K, fs, arity, total, t);
    MultipliedSumIs(K, fs, arity, total - 1 - arity);
    MulComm(K, K.Num(Pow2(total - 1 - arity)), K.Sum(ProductTable(K, fs, Pow2(arity))));
  }

  /** The multiplicity is a factor even where the code leaves the multiplication out. */
  lemma MultipliedSumIs<T(!new)>(K: Field<T>, fs: seq<seq<T>>, arity: nat, multiplicity: nat)
    requires Lawful(K) && fs != [] && AllSized(fs, Pow2(arity)) && arity > 0
    ensures AllSized(fs, |fs[0]|)
    ensures MultipliedSum(K, fs, multiplicity)
              == K.Mul(K.Sum(ProductTable(K, fs, Pow2(arity))), K.Num(Pow2(multiplicity)))
  {
    hide ProductTable, Field<T>.Sum, Field<T>.Num;
    assert |fs[0]| == Pow2(arity) == 2 * Pow2(arity - 1);
    var sum := K.Sum(ProductTable(K, fs, Pow2(arity)));
    NumOne(K);
    MulOne(K, sum);
    MulComm(K, sum, K.one);
  }

  lemma FirstSize<T>(fs: seq<seq<T>>, len: nat)
    requires fs != [] && AllSized(fs, len)
    ensures |fs[0]| == len
  {
  }

  /** Entry i of a split product in one worker: the worker's partial sum at i of the padded tables. */
  lemma NormalProductExact<T(!new)>(K: Field<T>, fs: seq<seq<T>>, isMain: bool, expected: nat, phase2NumVars: nat,
                                    arity: nat, i: nat)
    requires Lawful(K) && fs != [] && AllSized(fs, Pow2(arity)) && 0 < arity <= expected && i <= |fs|
    ensures AllSized(Pads(fs, Pow2(expected - arity)), 2 * Pow2(expected - 1))
    ensures EvaluateProduct(K, fs, Normal, isMain, expected, phase2NumVars)[i]
         == PartialSum(K, Pads(fs, Pow2(expected - arity)), Pow2(expected - 1), K.Num(i))
  {
    hide MultipliedSum, PartialSum, Pads, CeilLog2, RowTable, Field<T>.Num, Field<T>.Sum, Repeat, ProductTable, Column;
    CeilLog2Exact(arity);
    FirstSize(fs, Pow2(arity));
    if arity < expected {
      MultipliedSumExact(K, fs, arity, expected, K.Num(i));
    } else {
      PadsOnce(fs);
      RowTableExact(K, fs, Pow2(expected - 1), i);
    }
  }

  lemma PadsOnce<T>(fs: seq<seq<T>>)
    ensures Pads(fs, 1) == fs
  {
    forall j | 0 <= j < |fs| ensures Pads(fs, 1)[j] == fs[j] { RepeatOnce(fs[j]); }
  }

  /** Entry i of a duplicated product: the main worker alone contributes the partial sum over the hypercube
      of both phases, and every other worker contributes zero. */
  lemma Phase2ProductExact<T(!new)>(K: Field<T>, fs: seq<seq<T>>, isMain: bool, expected: nat, phase2NumVars: nat,
                                    arity: nat, i: nat)
    requires Lawful(K) && fs != [] && AllSized(fs, Pow2(arity)) && 0 < arity < expected + phase2NumVars && i <= |fs|
    ensures AllSized(Pads(fs, Pow2(expected + phase2NumVars - arity)), 2 * Pow2(expected + phase2NumVars - 1))
    ensures EvaluateProduct(K, fs, Phase2Only, isMain, expected, phase2NumVars)[i]
         == if isMain then PartialSum(K, Pads(fs, Pow2(expected + phase2NumVars - arity)),
                                      Pow2(expected + phase2NumVars - 1), K.Num(i))
            else K.zero
  {
    hide MultipliedSum, PartialSum, Pads, AllSized, CeilLog2, Field<T>.Num, Pow2;
    FirstSize(fs, Pow2(arity));
    CeilLog2Exact(arity);
    MultipliedSumExact(K, fs, arity, expected + phase2NumVars, K.Num(i));
  }
}

/** Tables of different arities in one sum: a table with fewer variables is read as one that repeats its
    entries along the missing low variables (suffix alignment). */
module MixedArity {
  import opened Fields
  import opened Sums
  import opened Multilinear
  import opened HypercubeSums

  lemma {:induction false} Pow2Add(a: nat, b: nat)
    ensures Pow2(a + b) == Pow2(a) * Pow2(b)
  {
    if a > 0 {
      Pow2Add(a - 1, b);
      assert 2 * Pow2(a - 1) * Pow2(b) == 2 * (Pow2(a - 1) * Pow2(b));
    }
  }

  function Pads<T>(fs: seq<seq<T>>, q: nat): (gs: seq<seq<T>>)
    ensures |gs| == |fs| && forall j :: 0 <= j < |fs| ==> gs[j] == Repeat(fs[j], q)
  {
    seq(|fs|, j requires 0 <= j < |fs| => Repeat(fs[j], q))
  }

  lemma RepeatOnce<T>(s: seq<T>)
    ensures Repeat(s, 1) == s
  {
    forall i | 0 <= i < |s| ensures Repeat(s, 1)[i] == s[i] { RepeatAt(s, 1, i); }
  }

  /** Fixing a dummy variable halves the repetition and leaves the entries alone. */
  lemma FoldRepeat<T(!new)>(K: Field<T>, f: seq<T>, q: nat, t: T)
    requires Lawful(K) && q > 0
    ensures Fold(K, Repeat(f, 2 * q), t) == Repeat(f, q)
  {
    hide Repeat;
    assert |f| * (2 * q) == 2 * (|f| * q);
    var g := Fold(K, Repeat(f, 2 * q), t);
    forall i: nat | i < |f| * q ensures g[i] == Repeat(f, q)[i] {
      RepeatAt(f, q, i);
      RepeatAt(f, 2 * q, 2 * i);
      RepeatAt(f, 2 * q, 2 * i + 1);
      DivPair(i, q);
      LineFlat(K, f[i / q], t);
    }
  }

  lemma FoldAllPads<T(!new)>(K: Field<T>, fs: seq<seq<T>>, q: nat, t: T)
    requires Lawful(K) && q > 0
    ensures FoldAll(K, Pads(fs, 2 * q), t) == Pads(fs, q)
  {
    hide Repeat, Fold;
    forall j | 0 <= j < |fs| ensures FoldAll(K, Pads(fs, 2 * q), t)[j] == Pads(fs, q)[j] { FoldRepeat(K, fs[j], q, t); }
  }

  lemma DivPair(i: nat, q: nat)
    requires q > 0
    ensures (2 * i) / (2 * q) == i / q && (2 * i + 1) / (2 * q) == i / q
  {
    var p, r := i / q, i % q;
    assert i == p * q + r && 0 <= r < q;
    assert p * (2 * q) == 2 * (p * q);
    DivUnique(2 * i, 2 * q, p);
    DivUnique(2 * i + 1, 2 * q, p);
  }

  lemma ProductTableRepeat<T>(K: Field<T>, fs: seq<seq<T>>, len: nat, q: nat)
    requires AllSized(fs, len) && q > 0 && fs != []
    ensures AllSized(Pads(fs, q), len * q)
    ensures ProductTable(K, Pads(fs, q), len * q) == Repeat(ProductTable(K, fs, len), q)
  {
    var t := ProductTable(K, fs, len);
    forall i: nat | i < len * q ensures ProductTable(K, Pads(fs, q), len * q)[i] == Repeat(t, q)[i] {
      RepeatAt(t, q, i);
      forall j | 0 <= j < |fs| ensures Pads(fs, q)[j][i] == fs[j][i / q] { RepeatAt(fs[j], q, i); }
      assert Column(Pads(fs, q), i) == Column(fs, i / q);
    }
  }

  /** The padded tables have 2^total entries. */
  lemma PadsSized<T>(fs: seq<seq<T>>, arity: nat, total: nat)
    requires AllSized(fs, Pow2(arity)) && arity <= total
    ensures AllSized(Pads(fs, Pow2(total - arity)), Pow2(total))
  {
    Pow2Add(arity, total - arity);
  }

  /** A product of tables with fewer variables than the round expects: its partial sum is its full sum,
      counted once for every setting of the remaining dummy variables, whatever value is fixed. */
  lemma FlatPartialSum<T(!new)>(K: Field<T>, fs: seq<seq<T>>, len: nat, q: nat, t: T)
    requires Lawful(K) && AllSized(fs, len) && q > 0 && fs != []
    ensures AllSized(Pads(fs, 2 * q), 2 * (len * q))
    ensures PartialSum(K, Pads(fs, 2 * q), len * q, t) == K.Mul(K.Num(q), K.Sum(ProductTable(K, fs, len)))
  {
    hide Repeat, Fold;
    assert len * (2 * q) == 2 * (len * q);
    FoldAllPads(K, fs, q, t);
    ProductTableRepeat(K, fs, len, q);
    SumRepeat(K, ProductTable(K, fs, len), q);
  }

  lemma LowerArity<T(!new)>(K: Field<T>, fs: seq<seq<T>>, arity: nat, total: nat, t: T)
    requires Lawful(K) && AllSized(fs, Pow2(arity)) && arity < total && fs != []
    ensures AllSized(Pads(fs, Pow2(total - arity)), 2 * Pow2(total - 1))
    ensures PartialSum(K, Pads(fs, Pow2(total - arity)), Pow2(total - 1), t)
         == K.Mul(K.Num(Pow2(total - 1 - arity)), K.Sum(ProductTable(K, fs, Pow2(arity))))
  {
    hide AllSized, PartialSum, ProductTable, Pads;
    Pow2Add(arity, total - 1 - arity);
    FlatPartialSum(K, fs, Pow2(arity), Pow2(total - 1 - arity), t);
  }
}

/** Splitting tables over workers: partial sums of contiguous chunks add up to the partial sum of the whole. */
module SplitTables {
  import opened Fields
  import opened Sums
  import opened Multilinear
  import opened HypercubeSums

  /** Tablewise concatenation. */
  function Zip<T>(fs: seq<seq<T>>, gs: seq<seq<T>>): (r: seq<seq<T>>)
    requires |fs| == |gs|
    ensures |r| == |fs| && forall j :: 0 <= j < |r| ==> r[j] == fs[j] + gs[j]
  {
    seq(|fs|, j requires 0 <= j < |fs| => fs[j] + gs[j])
  }

  ghost predicate Blocks<T>(blocks: seq<seq<seq<T>>>, d: nat, len: nat) {
    forall w :: 0 <= w < |blocks| ==> |blocks[w]| == d && AllSized(blocks[w], len)
  }

  /** d tables, each the concatenation over all workers of their chunks. */
  function Joined<T>(blocks: seq<seq<seq<T>>>, d: nat): (r: seq<seq<T>>)
    requires forall w :: 0 <= w < |blocks| ==> |blocks[w]| == d
    ensures |r| == d
  {
    if blocks == [] then seq(d, _ => []) else Zip(blocks[0], Joined(blocks[1..], d))
  }

  lemma {:induction false} JoinedSized<T>(blocks: seq<seq<seq<T>>>, d: nat, len: nat)
    requires Blocks(blocks, d, len)
    ensures AllSized(Joined(blocks, d), |blocks| * len)
  {
    if blocks != [] {
      JoinedSized(blocks[1..], d, len);
      assert |blocks| * len == len + (|blocks| - 1) * len;
    }
  }

  lemma FoldConcat<T>(K: Field<T>, f: seq<T>, g: seq<T>, t: T)
    requires |f| % 2 == 0
    ensures Fold(K, f + g, t) == Fold(K, f, t) + Fold(K, g, t)
  {
    assert |f| == 2 * (|f| / 2);
  }

  lemma PartialSumZip<T(!new)>(K: Field<T>, fs: seq<seq<T>>, gs: seq<seq<T>>, h: nat, k: nat, t: T)
    requires Lawful(K) && |fs| == |gs| && AllSized(fs, 2 * h) && AllSized(gs, 2 * k)
    ensures AllSized(Zip(fs, gs), 2 * (h + k))
    ensures PartialSum(K, Zip(fs, gs), h + k, t) == K.Add(PartialSum(K, fs, h, t), PartialSum(K, gs, k, t))
  {
    hide Fold, ProductTable, FoldAll, Zip;
    FoldAllZip(K, fs, gs, h, k, t);
    ProductTableZip(K, FoldAll(K, fs, t), FoldAll(K, gs, t), h, k);
    SumConcat(K, ProductTable(K, FoldAll(K, fs, t), h), ProductTable(K, FoldAll(K, gs, t), k));
  }

  lemma FoldAllZip<T>(K: Field<T>, fs: seq<seq<T>>, gs: seq<seq<T>>, h: nat, k: nat, t: T)
    requires |fs| == |gs| && AllSized(fs, 2 * h) && AllSized(gs, 2 * k)
    ensures AllSized(Zip(fs, gs), 2 * (h + k)) && AllSized(FoldAll(K, fs, t), h) && AllSized(FoldAll(K, gs, t), k)
    ensures FoldAll(K, Zip(fs, gs), t) == Zip(FoldAll(K, fs, t), FoldAll(K, gs, t))
  {
    hide Fold, FoldAll, Zip;
    forall j | 0 <= j < |fs| ensures FoldAll(K, Zip(fs, gs), t)[j] == Zip(FoldAll(K, fs, t), FoldAll(K, gs, t))[j] {
      FoldConcat(K, fs[j], gs[j], t);
    }
  }

  lemma ProductTableZip<T>(K: Field<T>, fs: seq<seq<T>>, gs: seq<seq<T>>, h: nat, k: nat)
    requires |fs| == |gs| && AllSized(fs, h) && AllSized(gs, k)
    ensures AllSized(Zip(fs, gs), h + k)
    ensures ProductTable(K, Zip(fs, gs), h + k) == ProductTable(K, fs, h) + ProductTable(K, gs, k)
  {
    hide ProductTable, Column, Zip, Field<T>.Product;
    var whole, parts := ProductTable(K, Zip(fs, gs), h + k), ProductTable(K, fs, h) + ProductTable(K, gs, k);
    forall i | 0 <= i < h + k ensures whole[i] == parts[i] {
      if i < h {
        assert Column(Zip(fs, gs), i) == Column(fs, i);
      } else {
        assert Column(Zip(fs, gs), i) == Column(gs, i - h);
      }
    }
  }

  function BlockSums<T>(K: Field<T>, blocks: seq<seq<seq<T>>>, d: nat, half: nat, t: T): (r: seq<T>)
    requires Blocks(blocks, d, 2 * half)
    ensures |r| == |blocks| && forall w :: 0 <= w < |r| ==> r[w] == PartialSum(K, blocks[w], half, t)
  {
    seq(|blocks|, w requires 0 <= w < |blocks| => PartialSum(K, blocks[w], half, t))
  }

  lemma EmptyTables<T>(K: Field<T>, fs: seq<seq<T>>, t: T)
    requires AllSized(fs, 0)
    ensures PartialSum(K, fs, 0, t) == K.zero
  {
  }

  /** The partial sum of the concatenated tables is the sum of the workers' partial sums. */
  lemma {:induction false} PartialSumJoined<T(!new)>(K: Field<T>, blocks: seq<seq<seq<T>>>, d: nat, half: nat, t: T)
    requires Lawful(K) && Blocks(blocks, d, 2 * half)
    ensures AllSized(Joined(blocks, d), 2 * (|blocks| * half))
    ensures PartialSum(K, Joined(blocks, d), |blocks| * half, t) == K.Sum(BlockSums(K, blocks, d, half, t))
  {
    hide PartialSum, Zip;
    JoinedSized(blocks, d, 2 * half);
    assert |blocks| * (2 * half) == 2 * (|blocks| * half);
    if blocks == [] {
      EmptyTables(K, Joined(blocks, d), t);
    } else {
      var rest := blocks[1..];
      PartialSumJoined(K, rest, d, half, t);
      PartialSumZip(K, blocks[0], Joined(rest, d), half, |rest| * half, t);
      assert |blocks| * half == half + |rest| * half;
      assert BlockSums(K, blocks, d, half, t)[1..] == BlockSums(K, rest, d, half, t);
    }
  }

  // ---------- sums of messages ----------

  /** The entrywise sum of messages of the same length. */
  function SumAll<T>(K: Field<T>, msgs: seq<seq<T>>, n: nat): (r: seq<T>)
    requires AllSized(msgs, n)
    ensures |r| == n
  {
    if msgs == [] then Zeros(K, n) else Plus(K, msgs[0], SumAll(K, msgs[1..], n))
  }

  lemma {:induction false} SumAllEntry<T>(K: Field<T>, msgs: seq<seq<T>>, n: nat, i: nat)
    requires AllSized(msgs, n) && i < n
    ensures SumAll(K, msgs, n)[i] == K.Sum(Column(msgs, i))
  {
    if msgs != [] {
      SumAllEntry(K, msgs[1..], n, i);
      assert Column(msgs, i)[1..] == Column(msgs[1..], i);
    }
  }
}

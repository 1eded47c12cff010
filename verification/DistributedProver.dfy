/** The distributed prover: every worker computes on its own chunks, the messages are added up, and after
    the first phase the tables are merged.  All of it refines a single prover on the unsplit tables. */
module DistributedProver {
  import opened Fields
  import opened Sums
  import opened Polynomials
  import opened Interpolation
  import opened Multilinear
  import opened HypercubeSums
  import opened MixedArity
  import opened SplitTables
  import opened RoundEvaluator
  import opened ProverRounds

  /** The tables of all workers when `left` variables per worker remain; the last worker is the main one. */
  ghost predicate System<T>(job: Job<T>, arities: seq<nat>, left: nat, workers: seq<seq<seq<T>>>) {
    && ValidJob(job, arities)
    && |workers| == Pow2(job.phase2NumVars)
    && (forall w :: 0 <= w < |workers| ==> ValidTables(job, arities, left, workers[w]))
    && (forall w, i :: 0 <= w < |workers| && 0 <= i < |arities| && job.meta[i].Phase2Only? ==>
        workers[w][i] == workers[0][i])
  }

  /** Table i of all workers in a row, every entry repeated q times. */
  function Concatenated<T>(workers: seq<seq<seq<T>>>, i: nat, q: nat): seq<T>
    requires forall w :: 0 <= w < |workers| ==> i < |workers[w]|
  {
    if workers == [] then [] else Repeat(workers[0][i], q) + Concatenated(workers[1..], i, q)
  }

  /** Table i as the single prover sees it: one table over all remaining variables of both phases. */
  function WholeTable<T>(job: Job<T>, arities: seq<nat>, left: nat, workers: seq<seq<seq<T>>>, i: nat): seq<T>
    requires System(job, arities, left, workers) && i < |arities|
  {
    if job.meta[i].Normal?
    then Concatenated(workers, i, Pow2(left - Min(arities[i], left)))
    else Repeat(workers[0][i], Pow2(left + job.phase2NumVars - arities[i]))
  }

  function WholeTables<T>(job: Job<T>, arities: seq<nat>, left: nat, workers: seq<seq<seq<T>>>): (r: seq<seq<T>>)
    requires System(job, arities, left, workers)
    ensures |r| == |arities| && forall i :: 0 <= i < |r| ==> r[i] == WholeTable(job, arities, left, workers, i)
  {
    seq(|arities|, i requires 0 <= i < |arities| => WholeTable(job, arities, left, workers, i))
  }

  // ---------- sizes ----------

  lemma {:induction false} ConcatenatedSize<T>(workers: seq<seq<seq<T>>>, i: nat, q: nat, len: nat)
    requires forall w :: 0 <= w < |workers| ==> i < |workers[w]| && |workers[w][i]| == len
    ensures |Concatenated(workers, i, q)| == |workers| * (len * q)
  {
    if workers != [] {
      ConcatenatedSize(workers[1..], i, q, len);
      assert |workers| * (len * q) == len * q + (|workers| - 1) * (len * q);
    }
  }

  lemma WholeTableSize<T>(job: Job<T>, arities: seq<nat>, left: nat, workers: seq<seq<seq<T>>>, i: nat)
    requires System(job, arities, left, workers) && i < |arities|
    ensures |WholeTable(job, arities, left, workers, i)| == Pow2(left + job.phase2NumVars)
  {
    hide Repeat, Pow2, Concatenated;
    var L := job.phase2NumVars;
    Pow2Positive(L);
    assert ValidTables(job, arities, left, workers[0]);
    if job.meta[i].Normal? {
      var a := Min(arities[i], left);
      forall w | 0 <= w < |workers| ensures i < |workers[w]| && |workers[w][i]| == Pow2(a) {
        assert ValidTables(job, arities, left, workers[w]);
      }
      ConcatenatedSize(workers, i, Pow2(left - a), Pow2(a));
      Pow2Add(a, left - a);
      Pow2Add(L, left);
    } else {
      Pow2Add(arities[i], left + L - arities[i]);
    }
  }

  lemma WholeTablesWellFormed<T>(job: Job<T>, arities: seq<nat>, left: nat, workers: seq<seq<seq<T>>>)
    requires System(job, arities, left, workers)
    ensures WellFormed(job.terms, WholeTables(job, arities, left, workers), Pow2(left + job.phase2NumVars))
    ensures left > 0 ==>
              WellFormed(job.terms, WholeTables(job, arities, left, workers), 2 * Pow2(left + job.phase2NumVars - 1))
  {
    hide WholeTable;
    forall i | 0 <= i < |arities|
        ensures |WholeTable(job, arities, left, workers, i)| == Pow2(left + job.phase2NumVars) {
      WholeTableSize(job, arities, left, workers, i);
    }
    forall i | 0 <= i < |job.terms| ensures Indexed(job.terms[i].product, WholeTables(job, arities, left, workers)) {
      assert ValidProduct(job, arities, job.terms[i].product);
    }
    if left > 0 { Pow2Even(left + job.phase2NumVars); }
  }

  // ---------- one product ----------

  function Shares<T>(K: Field<T>, job: Job<T>, arities: seq<nat>, left: nat, workers: seq<seq<seq<T>>>,
                     product: seq<nat>, t: T): (r: seq<T>)
    requires System(job, arities, left, workers) && ValidProduct(job, arities, product) && left > 0
    ensures |r| == |workers| && forall w :: 0 <= w < |r| ==>
              r[w] == ProductShare(K, job, w == |workers| - 1, arities, left, workers[w], product, t)
  {
    seq(|workers|, w requires 0 <= w < |workers| =>
      ProductShare(K, job, w == |workers| - 1, arities, left, workers[w], product, t))
  }

  lemma {:induction false} JoinedTable<T>(workers: seq<seq<seq<T>>>, product: seq<nat>, q: nat,
                                          blocks: seq<seq<seq<T>>>, j: nat)
    requires |blocks| == |workers| && j < |product|
    requires forall w :: 0 <= w < |workers| ==>
               Indexed(product, workers[w]) && blocks[w] == Pads(Factors(workers[w], product), q)
    ensures forall w :: 0 <= w < |workers| ==> product[j] < |workers[w]| && |blocks[w]| == |product|
    ensures Joined(blocks, |product|)[j] == Concatenated(workers, product[j], q)
  {
    hide Repeat;
    forall w | 0 <= w < |workers| ensures product[j] < |workers[w]| && |blocks[w]| == |product| {
      assert Indexed(product, workers[w]);
    }
    if workers != [] {
      JoinedTable(workers[1..], product, q, blocks[1..], j);
      assert blocks[0][j] == Repeat(workers[0][product[j]], q);
    }
  }

  lemma ProductSystem<T>(job: Job<T>, arities: seq<nat>, left: nat, workers: seq<seq<seq<T>>>, product: seq<nat>)
    requires System(job, arities, left, workers) && ValidProduct(job, arities, product)
    ensures |workers| > 0
    ensures forall w :: 0 <= w < |workers| ==>
              Indexed(product, workers[w]) && ValidTables(job, arities, left, workers[w])
    ensures Indexed(product, WholeTables(job, arities, left, workers))
  {
    Pow2Positive(job.phase2NumVars);
    forall w | 0 <= w < |workers| ensures Indexed(product, workers[w]) {
      assert ValidTables(job, arities, left, workers[w]);
    }
  }

  /** A split product: the workers' shares add up to the partial sum over the unsplit tables. */
  lemma NormalShares<T(!new)>(K: Field<T>, job: Job<T>, arities: seq<nat>, left: nat, workers: seq<seq<seq<T>>>,
                              product: seq<nat>, t: T)
    requires Lawful(K) && System(job, arities, left, workers) && ValidProduct(job, arities, product) && left > 0
    requires job.meta[product[0]].Normal?
    ensures Indexed(product, WholeTables(job, arities, left, workers))
    ensures AllSized(Factors(WholeTables(job, arities, left, workers), product), 2 * Pow2(left + job.phase2NumVars - 1))
    ensures K.Sum(Shares(K, job, arities, left, workers, product, t))
         == PartialSum(K, Factors(WholeTables(job, arities, left, workers), product),
                       Pow2(left + job.phase2NumVars - 1), t)
  {
    hide PartialSum, Pads, Repeat, Pow2, Concatenated, Joined;
    ProductSystem(job, arities, left, workers, product);
    var half, q, d := Pow2(left - 1), Pow2(left - Min(arities[product[0]], left)), |product|;
    var blocks := seq(|workers|, w requires 0 <= w < |workers| => Pads(Factors(workers[w], product), q));
    forall w | 0 <= w < |workers|
      ensures |blocks[w]| == d && AllSized(blocks[w], 2 * half)
      ensures Shares(K, job, arities, left, workers, product, t)[w] == PartialSum(K, blocks[w], half, t)
    {
      PaddedFactorsSized(job, arities, left, workers[w], product);
    }
    PartialSumJoined(K, blocks, d, half, t);
    assert BlockSums(K, blocks, d, half, t) == Shares(K, job, arities, left, workers, product, t);
    Pow2Add(job.phase2NumVars, left - 1);
    var whole := Factors(WholeTables(job, arities, left, workers), product);
    forall j | 0 <= j < d ensures Joined(blocks, d)[j] == whole[j] {
      JoinedTable(workers, product, q, blocks, j);
    }
    assert Joined(blocks, d) == whole;
  }

  /** A duplicated product: only the main worker contributes, for the whole hypercube. */
  lemma Phase2Shares<T(!new)>(K: Field<T>, job: Job<T>, arities: seq<nat>, left: nat, workers: seq<seq<seq<T>>>,
                              product: seq<nat>, t: T)
    requires Lawful(K) && System(job, arities, left, workers) && ValidProduct(job, arities, product) && left > 0
    requires job.meta[product[0]].Phase2Only?
    ensures Indexed(product, WholeTables(job, arities, left, workers))
    ensures AllSized(Factors(WholeTables(job, arities, left, workers), product), 2 * Pow2(left + job.phase2NumVars - 1))
    ensures K.Sum(Shares(K, job, arities, left, workers, product, t))
         == PartialSum(K, Factors(WholeTables(job, arities, left, workers), product),
                       Pow2(left + job.phase2NumVars - 1), t)
  {
    hide PartialSum, Repeat, Pow2, PaddedFactors, Factors, WholeTables, ValidJob, ValidTables;
    ProductSystem(job, arities, left, workers, product);
    var main, shares := |workers| - 1, Shares(K, job, arities, left, workers, product, t);
    SumZeros(K, shares[..main]);
    SumPrefix(K, shares, main);
    assert shares[..main + 1] == shares;
    AddZero(K, shares[main]);
    PaddedFactorsSized(job, arities, left, workers[main], product);
    MainFactors(job, arities, left, workers, product);
  }

  /** The main worker's copy of a duplicated product, padded to both phases, is what the single prover sees. */
  lemma MainFactors<T>(job: Job<T>, arities: seq<nat>, left: nat, workers: seq<seq<seq<T>>>, product: seq<nat>)
    requires System(job, arities, left, workers) && ValidProduct(job, arities, product) && left > 0
    requires job.meta[product[0]].Phase2Only? && |workers| > 0
    requires Indexed(product, WholeTables(job, arities, left, workers)) && Indexed(product, workers[|workers| - 1])
    requires ValidTables(job, arities, left, workers[|workers| - 1])
    ensures PaddedFactors(job, arities, left, workers[|workers| - 1], product)
         == Factors(WholeTables(job, arities, left, workers), product)
  {
    hide Repeat, Pow2;
    var main, whole := |workers| - 1, Factors(WholeTables(job, arities, left, workers), product);
    forall j | 0 <= j < |product|
      ensures PaddedFactors(job, arities, left, workers[main], product)[j] == whole[j]
    {
      assert workers[main][product[j]] == workers[0][product[j]];
    }
  }

  lemma SharesExact<T(!new)>(K: Field<T>, job: Job<T>, arities: seq<nat>, left: nat, workers: seq<seq<seq<T>>>,
                             product: seq<nat>, t: T)
    requires Lawful(K) && System(job, arities, left, workers) && ValidProduct(job, arities, product) && left > 0
    ensures Indexed(product, WholeTables(job, arities, left, workers))
    ensures AllSized(Factors(WholeTables(job, arities, left, workers), product), 2 * Pow2(left + job.phase2NumVars - 1))
    ensures K.Sum(Shares(K, job, arities, left, workers, product, t))
         == PartialSum(K, Factors(WholeTables(job, arities, left, workers), product),
                       Pow2(left + job.phase2NumVars - 1), t)
  {
    hide PartialSum, Factors, WholeTables, System, Shares;
    ProductBounds(job, arities, product);
    if job.meta[product[0]].Normal? {
      NormalShares(K, job, arities, left, workers, product, t);
    } else {
      Phase2Shares(K, job, arities, left, workers, product, t);
    }
  }

  // ---------- one message ----------

  lemma WorkerComputable<T>(job: Job<T>, arities: seq<nat>, left: nat, workers: seq<seq<seq<T>>>, w: nat)
    requires System(job, arities, left, workers) && w < |workers|
    ensures |workers[w]| == |job.meta|
    ensures forall i :: 0 <= i < |job.terms| ==> Computable(job, workers[w], job.terms[i].product)
  {
    assert ValidTables(job, arities, left, workers[w]);
    forall i | 0 <= i < |job.terms| ensures Computable(job, workers[w], job.terms[i].product) {
      assert ValidProduct(job, arities, job.terms[i].product);
      ProductComputable(job, arities, left, workers[w], job.terms[i].product);
    }
  }

  /** The messages of all workers in one round, restricted to the first `count` monomials. */
  function Messages<T>(K: Field<T>, job: Job<T>, arities: seq<nat>, left: nat, workers: seq<seq<seq<T>>>,
                       count: nat): (r: seq<seq<T>>)
    requires System(job, arities, left, workers) && count <= |job.terms|
    ensures |r| == |workers| && AllSized(r, job.maxDegree + 1)
    ensures forall w :: 0 <= w < |workers| ==>
              (WorkerComputable(job, arities, left, workers, w);
               r[w] == MessageUpTo(K, job, w == |workers| - 1, left, workers[w], count))
  {
    seq(|workers|, w requires 0 <= w < |workers| =>
      WorkerComputable(job, arities, left, workers, w);
      MessageUpTo(K, job, w == |workers| - 1, left, workers[w], count))
  }

  /** What the main thread sends to the transcript in one round of the first phase. */
  function SystemMessage<T>(K: Field<T>, job: Job<T>, arities: seq<nat>, left: nat,
                            workers: seq<seq<seq<T>>>): (r: seq<T>)
    requires System(job, arities, left, workers)
    ensures |r| == job.maxDegree + 1
  {
    SumAll(K, Messages(K, job, arities, left, workers, |job.terms|), job.maxDegree + 1)
  }

  lemma {:induction false} PolySumSnoc<T(!new)>(K: Field<T>, terms: seq<Term<T>>, x: Term<T>, mles: seq<seq<T>>,
                                                len: nat)
    requires Lawful(K) && WellFormed(terms + [x], mles, len)
    ensures WellFormed(terms, mles, len) && Indexed(x.product, mles)
    ensures PolySum(K, terms + [x], mles, len)
         == K.Add(PolySum(K, terms, mles, len), K.Mul(K.Sum(ProductTable(K, Factors(mles, x.product), len)), x.scalar))
  {
    hide ProductTable, Factors;
    assert (terms + [x])[|terms|] == x;
    forall i | 0 <= i < |terms| ensures Indexed(terms[i].product, mles) { assert terms[i] == (terms + [x])[i]; }
    if terms == [] {
      assert [x][1..] == [];
      var c := K.Mul(K.Sum(ProductTable(K, Factors(mles, x.product), len)), x.scalar);
      AddZero(K, c);
    } else {
      assert (terms + [x])[1..] == terms[1..] + [x];
      PolySumSnoc(K, terms[1..], x, mles, len);
      AddAssoc(K, K.Mul(K.Sum(ProductTable(K, Factors(mles, terms[0].product), len)), terms[0].scalar),
               PolySum(K, terms[1..], mles, len),
               K.Mul(K.Sum(ProductTable(K, Factors(mles, x.product), len)), x.scalar));
    }
  }

  lemma TermValid<T>(job: Job<T>, arities: seq<nat>, left: nat, workers: seq<seq<seq<T>>>, count: nat)
    requires System(job, arities, left, workers) && count < |job.terms|
    ensures ValidProduct(job, arities, job.terms[count].product)
  {
    hide ValidTables;
  }

  /** Entry i of the contributions of monomial number `count`, over all workers. */
  lemma TermColumn<T(!new)>(K: Field<T>, job: Job<T>, arities: seq<nat>, left: nat, workers: seq<seq<seq<T>>>,
                            count: nat, i: nat)
    requires Lawful(K) && System(job, arities, left, workers) && left > 0 && count < |job.terms|
    requires i <= job.maxDegree && CharacteristicAbove(K, job.maxDegree)
    ensures ValidProduct(job, arities, job.terms[count].product)
    ensures Column(Messages(K, job, arities, left, workers, count + 1), i)
         == Plus(K, Column(Messages(K, job, arities, left, workers, count), i),
                 Scaled(K, job.terms[count].scalar,
                        Shares(K, job, arities, left, workers, job.terms[count].product, K.Num(i))))
  {
    hide ProductShare, TermMessage, ValidTables, ValidProduct, CharacteristicAbove, Lawful, Pow2, Computable;
    TermValid(job, arities, left, workers, count);
    var term := job.terms[count];
    var lhs := Column(Messages(K, job, arities, left, workers, count + 1), i);
    var shares := Shares(K, job, arities, left, workers, term.product, K.Num(i));
    var rhs := Plus(K, Column(Messages(K, job, arities, left, workers, count), i), Scaled(K, term.scalar, shares));
    forall w | 0 <= w < |workers| ensures lhs[w] == rhs[w] {
      WorkerComputable(job, arities, left, workers, w);
      TermMessageExact(K, job, w == |workers| - 1, arities, left, workers[w], term, i);
      MulComm(K, term.scalar, shares[w]);
    }
  }

  lemma {:induction false} PrefixExact<T(!new)>(K: Field<T>, job: Job<T>, arities: seq<nat>, left: nat,
                                                workers: seq<seq<seq<T>>>,
                                                count: nat, i: nat)
    requires Lawful(K) && System(job, arities, left, workers) && left > 0 && count <= |job.terms|
    requires i <= job.maxDegree && CharacteristicAbove(K, job.maxDegree)
    ensures WellFormed(job.terms[..count], WholeTables(job, arities, left, workers),
                       2 * Pow2(left + job.phase2NumVars - 1))
    ensures K.Sum(Column(Messages(K, job, arities, left, workers, count), i))
         == RoundSum(K, job.terms[..count], WholeTables(job, arities, left, workers),
                     Pow2(left + job.phase2NumVars - 1), K.Num(i))
  {
    hide *;
    var whole, half := WholeTables(job, arities, left, workers), Pow2(left + job.phase2NumVars - 1);
    WholeTablesWellFormed(job, arities, left, workers);
    PrefixWellFormed(job.terms, whole, 2 * half, count);
    if count == 0 {
      NoTerms(K, job, arities, left, workers, i);
      assert job.terms[..0] == [];
    } else {
      var term := job.terms[count - 1];
      PrefixExact(K, job, arities, left, workers, count - 1, i);
      ColumnSum(K, job, arities, left, workers, count - 1, i);
      assert job.terms[..count] == job.terms[..count - 1] + [term];
      RoundSumSnoc(K, job.terms[..count - 1], term, whole, half, K.Num(i));
    }
  }

  lemma PrefixWellFormed<T>(terms: seq<Term<T>>, mles: seq<seq<T>>, len: nat, count: nat)
    requires WellFormed(terms, mles, len) && count <= |terms|
    ensures WellFormed(terms[..count], mles, len)
  {
  }

  /** One more monomial adds the scaled partial sum of its product to what the workers send. */
  lemma ColumnSum<T(!new)>(K: Field<T>, job: Job<T>, arities: seq<nat>, left: nat, workers: seq<seq<seq<T>>>,
                           count: nat, i: nat)
    requires Lawful(K) && System(job, arities, left, workers) && left > 0 && count < |job.terms|
    requires i <= job.maxDegree && CharacteristicAbove(K, job.maxDegree)
    ensures var whole, term := WholeTables(job, arities, left, workers), job.terms[count];
            && Indexed(term.product, whole)
            && AllSized(Factors(whole, term.product), 2 * Pow2(left + job.phase2NumVars - 1))
            && K.Sum(Column(Messages(K, job, arities, left, workers, count + 1), i))
            == K.Add(K.Sum(Column(Messages(K, job, arities, left, workers, count), i)),
                     K.Mul(PartialSum(K, Factors(whole, term.product), Pow2(left + job.phase2NumVars - 1), K.Num(i)),
                           term.scalar))
  {
    hide *;
    var term := job.terms[count];
    TermColumn(K, job, arities, left, workers, count, i);
    var before, shares := Column(Messages(K, job, arities, left, workers, count), i),
                          Shares(K, job, arities, left, workers, term.product, K.Num(i));
    SumPlus(K, before, Scaled(K, term.scalar, shares));
    SumScaled(K, term.scalar, shares);
    SharesExact(K, job, arities, left, workers, term.product, K.Num(i));
    MulComm(K, term.scalar, K.Sum(shares));
  }

  lemma RoundSumSnoc<T(!new)>(K: Field<T>, terms: seq<Term<T>>, x: Term<T>, mles: seq<seq<T>>, half: nat, t: T)
    requires Lawful(K) && WellFormed(terms + [x], mles, 2 * half) && WellFormed(terms, mles, 2 * half)
    requires Indexed(x.product, mles) && AllSized(Factors(mles, x.product), 2 * half)
    ensures RoundSum(K, terms + [x], mles, half, t)
         == K.Add(RoundSum(K, terms, mles, half, t), K.Mul(PartialSum(K, Factors(mles, x.product), half, t), x.scalar))
  {
    hide PolySum, ProductTable, Factors, FoldAll, WellFormed, AllSized, Indexed;
    FoldAllWellFormed(K, terms + [x], mles, half, t);
    PolySumSnoc(K, terms, x, FoldAll(K, mles, t), half);
    FactorsFold(K, mles, x.product, t);
  }

  lemma NoTerms<T(!new)>(K: Field<T>, job: Job<T>, arities: seq<nat>, left: nat, workers: seq<seq<seq<T>>>, i: nat)
    requires Lawful(K) && System(job, arities, left, workers) && left > 0 && i <= job.maxDegree
    ensures WellFormed<T>([], WholeTables(job, arities, left, workers), 2 * Pow2(left + job.phase2NumVars - 1))
    ensures K.Sum(Column(Messages(K, job, arities, left, workers, 0), i))
         == RoundSum(K, [], WholeTables(job, arities, left, workers), Pow2(left + job.phase2NumVars - 1), K.Num(i))
  {
    WholeTablesWellFormed(job, arities, left, workers);
    SumZeros(K, Column(Messages(K, job, arities, left, workers, 0), i));
  }

  /** The honest message of the single prover: the round function at 0, 1, ..., maxDegree. */
  function HonestMessage<T>(K: Field<T>, terms: seq<Term<T>>, mles: seq<seq<T>>, half: nat, maxDegree: nat): (r: seq<T>)
    requires WellFormed(terms, mles, 2 * half)
    ensures |r| == maxDegree + 1 && forall i :: 0 <= i < |r| ==> r[i] == RoundSum(K, terms, mles, half, K.Num(i))
  {
    seq(maxDegree + 1, i requires 0 <= i => RoundSum(K, terms, mles, half, K.Num(i)))
  }

  /** In every round of the first phase the summed message equals the message of the single prover. */
  lemma SystemMessageExact<T(!new)>(K: Field<T>, job: Job<T>, arities: seq<nat>, left: nat, workers: seq<seq<seq<T>>>)
    requires Lawful(K) && System(job, arities, left, workers) && left > 0 && CharacteristicAbove(K, job.maxDegree)
    ensures WellFormed(job.terms, WholeTables(job, arities, left, workers), 2 * Pow2(left + job.phase2NumVars - 1))
    ensures SystemMessage(K, job, arities, left, workers)
         == HonestMessage(K, job.terms, WholeTables(job, arities, left, workers), Pow2(left + job.phase2NumVars - 1),
                          job.maxDegree)
  {
    hide WholeTables, RoundSum, MessageUpTo, Pow2;
    WholeTablesWellFormed(job, arities, left, workers);
    var whole, half := WholeTables(job, arities, left, workers), Pow2(left + job.phase2NumVars - 1);
    var msgs := Messages(K, job, arities, left, workers, |job.terms|);
    assert job.terms[..|job.terms|] == job.terms;
    forall i | 0 <= i <= job.maxDegree
      ensures SystemMessage(K, job, arities, left, workers)[i] == RoundSum(K, job.terms, whole, half, K.Num(i))
    {
      SumAllEntry(K, msgs, job.maxDegree + 1, i);
      PrefixExact(K, job, arities, left, workers, |job.terms|, i);
    }
  }
}

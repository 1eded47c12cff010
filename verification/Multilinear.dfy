/** Multilinear polynomials as tables of their values on the hypercube, variable 0 in the lowest bit:
    fixing variables, in a fresh table and in place, and evaluation. */
module Multilinear {
  import opened Fields
  import opened Sums

  /** Fixes the lowest variable at r. */
  function Fold<T>(K: Field<T>, f: seq<T>, r: T): (g: seq<T>)
    ensures |g| == |f| / 2 && forall i :: 0 <= i < |g| ==> g[i] == K.Line(f[2 * i], f[2 * i + 1], r)
  {
    seq(|f| / 2, i requires 0 <= i < |f| / 2 => K.Line(f[2 * i], f[2 * i + 1], r))
  }

  /** Fixes the lowest |point| variables, lowest first. */
  function FoldMany<T>(K: Field<T>, f: seq<T>, point: seq<T>): (g: seq<T>)
    decreases |point|
  {
    if point == [] then f else FoldMany(K, Fold(K, f, point[0]), point[1..])
  }

  lemma {:induction false} FoldManySize<T>(K: Field<T>, f: seq<T>, point: seq<T>, n: nat)
    requires |f| == Pow2(n) && |point| <= n
    ensures |FoldMany(K, f, point)| == Pow2(n - |point|)
    decreases |point|
  {
    if point != [] {
      FoldManySize(K, Fold(K, f, point[0]), point[1..], n - 1);
    }
  }

  lemma {:induction false} FoldManySnoc<T>(K: Field<T>, f: seq<T>, point: seq<T>, r: T)
    ensures FoldMany(K, f, point + [r]) == Fold(K, FoldMany(K, f, point), r)
    decreases |point|
  {
    if point == [] {
      assert FoldMany(K, f, [r]) == FoldMany(K, Fold(K, f, r), [r][1..]);
    } else {
      assert (point + [r])[1..] == point[1..] + [r];
      FoldManySnoc(K, Fold(K, f, point[0]), point[1..], r);
    }
  }

  /** The weight of hypercube index b at a point: r_i where bit i is set and 1 - r_i where it is not. */
  function EqAt<T>(K: Field<T>, point: seq<T>, b: nat): T {
    if point == [] then K.one
    else K.Mul(if b % 2 == 1 then point[0] else K.Sub(K.one, point[0]), EqAt(K, point[1..], b / 2))
  }

  function EqTable<T>(K: Field<T>, point: seq<T>): (t: seq<T>)
    ensures |t| == Pow2(|point|) && forall b :: 0 <= b < |t| ==> t[b] == EqAt(K, point, b)
  {
    seq(Pow2(|point|), b requires 0 <= b => EqAt(K, point, b))
  }

  lemma EqTableHalves<T>(K: Field<T>, point: seq<T>)
    requires point != []
    ensures |EqTable(K, point)| % 2 == 0
    ensures Evens(EqTable(K, point)) == Scaled(K, K.Sub(K.one, point[0]), EqTable(K, point[1..]))
    ensures Odds(EqTable(K, point)) == Scaled(K, point[0], EqTable(K, point[1..]))
  {
    var t, u := EqTable(K, point), EqTable(K, point[1..]);
    assert |t| == 2 * |u|;
    forall i | 0 <= i < |u|
      ensures t[2 * i] == K.Mul(K.Sub(K.one, point[0]), u[i])
      ensures t[2 * i + 1] == K.Mul(point[0], u[i])
    {
      assert (2 * i) % 2 == 0 && (2 * i) / 2 == i && (2 * i + 1) % 2 == 1 && (2 * i + 1) / 2 == i;
    }
  }

  /** Fixing every variable of a table gives the sum of its values weighted by the point. */
  lemma {:induction false} EvaluationIsWeightedSum<T(!new)>(K: Field<T>, f: seq<T>, point: seq<T>)
    requires Lawful(K) && |f| == Pow2(|point|)
    ensures |FoldMany(K, f, point)| == 1
    ensures FoldMany(K, f, point)[0] == K.Sum(Times(K, EqTable(K, point), f))
    decreases |point|
  {
    if point == [] {
      MulOne(K, f[0]);
      AddZero(K, f[0]);
      assert Times(K, EqTable(K, point), f) == [f[0]];
    } else {
      var r, g, u := point[0], Fold(K, f, point[0]), EqTable(K, point[1..]);
      EvaluationIsWeightedSum(K, g, point[1..]);
      EqTableHalves(K, point);
      var s := Times(K, EqTable(K, point), f);
      SumHalves(K, s);
      SumPlus(K, Evens(s), Odds(s));
      forall i | 0 <= i < |g| ensures Plus(K, Evens(s), Odds(s))[i] == Times(K, u, g)[i] {
        EqTableEntry(K, point, i);
        WeightedPair(K, r, u[i], f[2 * i], f[2 * i + 1]);
      }
      assert Plus(K, Evens(s), Odds(s)) == Times(K, u, g);
    }
  }

  lemma EqTableEntry<T>(K: Field<T>, point: seq<T>, i: nat)
    requires point != [] && i < Pow2(|point| - 1)
    ensures EqTable(K, point)[2 * i] == K.Mul(K.Sub(K.one, point[0]), EqTable(K, point[1..])[i])
    ensures EqTable(K, point)[2 * i + 1] == K.Mul(point[0], EqTable(K, point[1..])[i])
  {
    EqTableHalves(K, point);
    assert Evens(EqTable(K, point))[i] == EqTable(K, point)[2 * i];
    assert Odds(EqTable(K, point))[i] == EqTable(K, point)[2 * i + 1];
  }

  lemma WeightedPair<T(!new)>(K: Field<T>, r: T, u: T, a: T, b: T)
    requires Lawful(K)
    ensures K.Add(K.Mul(K.Mul(K.Sub(K.one, r), u), a), K.Mul(K.Mul(r, u), b)) == K.Mul(u, K.Line(a, b, r))
  {
    LineMix(K, a, b, r);
    Distrib(K, u, K.Mul(K.Sub(K.one, r), a), K.Mul(r, b));
    MulComm(K, K.Sub(K.one, r), u);
    MulComm(K, r, u);
    MulAssoc(K, u, K.Sub(K.one, r), a);
    MulAssoc(K, u, r, b);
  }

  // ---------- the mutable polynomial ----------

  /** One loop pass in terms of the folded prefix. */
  lemma PassStep<T>(K: Field<T>, was: seq<T>, point: seq<T>, i: nat, live: seq<T>)
    requires i < |point| && live == FoldMany(K, was, point[..i])
    ensures Fold(K, live, point[i]) == FoldMany(K, was, point[..i + 1])
  {
    FoldManySnoc(K, was, point[..i], point[i]);
    assert point[..i + 1] == point[..i] + [point[i]];
  }

  lemma FoldOne<T>(K: Field<T>, f: seq<T>, r: T)
    ensures FoldMany(K, f, [r]) == Fold(K, f, r)
  {
    assert [r][1..] == [];
  }

  lemma FoldNone<T>(K: Field<T>, f: seq<T>, point: seq<T>)
    ensures FoldMany(K, f, point[..0]) == f
  {
  }

  lemma Pow2Even(n: nat)
    ensures n > 0 ==> Pow2(n) == 2 * Pow2(n - 1)
  {
  }

  lemma {:induction false} Pow2Mono(m: nat, n: nat)
    requires m <= n
    ensures Pow2(m) <= Pow2(n)
  {
    if m < n { Pow2Mono(m, n - 1); }
  }

  /** A multilinear polynomial that owns its buffer; only the first `len` entries are visible. */
  class MultilinearExtension<T(==, !new)> {
    const K: Field<T>
    var buf: array<T>
    var len: nat
    var numVars: nat

    ghost predicate Valid()
      reads this
    {
      Lawful(K) && len <= buf.Length && len == Pow2(numVars)
    }

    function Evaluations(): (s: seq<T>)
      requires len <= buf.Length
      reads this, buf
    {
      buf[..len]
    }

    constructor FromEvaluations(K: Field<T>, numVars: nat, evaluations: seq<T>)
      requires Lawful(K) && |evaluations| == Pow2(numVars)
      ensures Valid() && fresh(buf) && this.K == K
      ensures this.numVars == numVars && Evaluations() == evaluations
    {
      this.K, this.numVars, len := K, numVars, |evaluations|;
      buf := new T[|evaluations|](i requires 0 <= i < |evaluations| => evaluations[i]);
    }

    /** One pass of the sequential loop over the whole visible slice, stale tail included; what it does
        to the first `live` entries does not depend on the others. */
    method FoldPass(r: T, ghost half: nat)
      requires Lawful(K) && 2 * half <= len <= buf.Length && len % 2 == 0
      modifies buf
      ensures buf[..half] == Fold(K, old(buf[..2 * half]), r)
    {
      ghost var was := buf[..2 * half];
      for k := 0 to len / 2
        invariant forall i :: 0 <= i < k && i < half ==> buf[i] == Fold(K, was, r)[i]
        invariant forall i :: 2 * k <= i < 2 * half ==> buf[i] == was[i]
      {
        MulComm(K, r, K.Sub(buf[2 * k + 1], buf[2 * k]));
        buf[k] := K.Add(buf[2 * k], K.Mul(K.Sub(buf[2 * k + 1], buf[2 * k]), r));
      }
    }

    /** One pass of the parallel form: every pair is folded into its first slot, then the first `half`
        results are moved to the front one after the other. */
    method FoldPassParallel(r: T, half: nat)
      requires Lawful(K) && 2 * half <= len <= buf.Length && len % 2 == 0
      modifies buf
      ensures buf[..half] == Fold(K, old(buf[..2 * half]), r)
    {
      ghost var was := buf[..2 * half];
      var b := 0;
      while b < len
        invariant 0 <= b <= len && b % 2 == 0
        invariant forall i :: 0 <= i < b / 2 && i < half ==> buf[2 * i] == Fold(K, was, r)[i]
        invariant forall i :: b <= i < 2 * half ==> buf[i] == was[i]
      {
        assert 2 * (b / 2) == b;
        MulComm(K, r, K.Sub(buf[b + 1], buf[b]));
        buf[b] := K.Add(buf[b], K.Mul(K.Sub(buf[b + 1], buf[b]), r));
        b := b + 2;
      }
      Compact(half);
    }

    /** The sequential move of every even slot to the front. */
    method Compact(half: nat)
      requires 2 * half <= buf.Length
      modifies buf
      ensures forall i :: 0 <= i < half ==> buf[i] == old(buf[2 * i])
    {
      for index := 0 to half
        invariant forall i :: 0 <= i < index ==> buf[i] == old(buf[2 * i])
        invariant forall i :: index <= i < buf.Length ==> buf[i] == old(buf[i])
      {
        buf[index] := buf[2 * index];
      }
    }

    /** `fix_variables_in_place` and `fix_variables_in_place_parallel`: all passes run over the full
        slice; it is truncated once, at the end. */
    method FixVariablesInPlace(point: seq<T>, parallel: bool)
      requires Valid() && |point| <= numVars
      modifies this`len, this`numVars, buf
      ensures Valid() && buf == old(buf)
      ensures numVars == old(numVars) - |point|
      ensures Evaluations() == FoldMany(K, old(Evaluations()), point)
    {
      hide FoldMany, Fold, Pow2, EqTable;
      ghost var was, now := Evaluations(), Evaluations();
      FoldNone(K, was, point);
      for i := 0 to |point|
        invariant len <= buf.Length && len == Pow2(numVars) && numVars == old(numVars)
        invariant Holds(now, numVars - i) && now == FoldMany(K, was, point[..i])
      {
        PassStep(K, was, point, i, now);
        OnePass(point[i], numVars - i, parallel, now);
        now := Fold(K, now, point[i]);
      }
      assert point[..|point|] == point;
      Pow2Mono(numVars - |point|, numVars);
      len := Pow2(numVars - |point|);
      numVars := numVars - |point|;
    }

    /** The first 2^left entries are the table `now`. */
    ghost predicate Holds(now: seq<T>, left: nat)
      reads this, buf
    {
      Pow2(left) <= buf.Length && buf[..Pow2(left)] == now
    }

    method OnePass(r: T, left: nat, parallel: bool, ghost now: seq<T>)
      requires Valid() && 0 < left <= numVars && Holds(now, left)
      modifies buf
      ensures Holds(Fold(K, now, r), left - 1)
    {
      var half := Pow2(left - 1);
      Pow2Mono(left, numVars);
      if parallel {
        FoldPassParallel(r, half);
      } else {
        FoldPass(r, half);
      }
    }

    /** `fix_variables` and `fix_variables_parallel`: the first point is applied into a fresh buffer,
        the others in place. */
    method FixVariables(point: seq<T>, parallel: bool) returns (m: MultilinearExtension<T>)
      requires Valid() && |point| <= numVars
      ensures m.Valid() && m.K == K && m.numVars == numVars - |point|
      ensures m.Evaluations() == FoldMany(K, Evaluations(), point)
      ensures (fresh(m) && fresh(m.buf)) || (m == this && point == [])
    {
      if point == [] {
        return this;
      }
      hide FoldMany, Pow2, EqTable;
      ghost var was := Evaluations();
      m := new MultilinearExtension<T>.FromEvaluations(K, numVars - 1, Fold(K, Evaluations(), point[0]));
      FoldOne(K, was, point[0]);
      assert point[..1] == [point[0]];
      for i := 1 to |point|
        invariant fresh(m) && fresh(m.buf) && m.Valid() && m.K == K && m.numVars == numVars - i
        invariant m.Evaluations() == FoldMany(K, was, point[..i])
      {
        ghost var live := m.Evaluations();
        m.FixVariablesInPlace([point[i]], parallel);
        PassStep(K, was, point, i, live);
        FoldOne(K, live, point[i]);
      }
      assert point[..|point|] == point;
    }

    /** `evaluate`: all variables are fixed, and the single remaining value is the weighted sum of the table. */
    method Evaluate(point: seq<T>) returns (v: T)
      requires Valid() && |point| == numVars
      ensures v == K.Sum(Times(K, EqTable(K, point), Evaluations()))
    {
      var m := FixVariables(point, true);
      EvaluationIsWeightedSum(K, Evaluations(), point);
      v := m.buf[0];
    }
  }
}

/** Finite sums of field elements, and the rearrangements of tables that keep them. */
module Sums {
  import opened Fields

  function {:tailrecursion false} Pow2(n: nat): (r: nat)
    ensures r >= 1
  {
    if n == 0 then 1 else 2 * Pow2(n - 1)
  }

  function Evens<T>(s: seq<T>): (r: seq<T>)
    requires |s| % 2 == 0
    ensures |r| == |s| / 2 && forall i :: 0 <= i < |r| ==> r[i] == s[2 * i]
  {
    seq(|s| / 2, i requires 0 <= i < |s| / 2 => s[2 * i])
  }

  function Odds<T>(s: seq<T>): (r: seq<T>)
    requires |s| % 2 == 0
    ensures |r| == |s| / 2 && forall i :: 0 <= i < |r| ==> r[i] == s[2 * i + 1]
  {
    seq(|s| / 2, i requires 0 <= i < |s| / 2 => s[2 * i + 1])
  }

  /** Every entry repeated m times in a row. */
  function Repeat<T>(s: seq<T>, m: nat): (r: seq<T>)
    ensures |r| == |s| * m
  {
    if s == [] then []
    else
      assert |s| * m == m + (|s| - 1) * m;
      seq(m, _ => s[0]) + Repeat(s[1..], m)
  }

  lemma {:induction false} RepeatAt<T>(s: seq<T>, m: nat, i: nat)
    requires m > 0 && i < |s| * m
    ensures 0 <= i / m < |s| && Repeat(s, m)[i] == s[i / m]
  {
    assert |s| * m == m + (|s| - 1) * m;
    if i < m {
      assert i / m == 0;
    } else {
      RepeatAt(s[1..], m, i - m);
      DivShift(i, m);
    }
  }

  lemma DivUnique(i: nat, m: nat, q: nat)
    requires m > 0 && q * m <= i < q * m + m
    ensures i / m == q
  {
    var p, r := i / m, i % m;
    assert i == p * m + r && 0 <= r < m;
    if p < q {
      MulOrder(p + 1, q, m);
    } else if q < p {
      MulOrder(q + 1, p, m);
    }
  }

  lemma MulOrder(a: nat, b: nat, m: nat)
    requires a <= b
    ensures a * m <= b * m
  {
  }

  lemma DivShift(i: nat, m: nat)
    requires 0 < m <= i
    ensures i / m == (i - m) / m + 1
  {
    var p, r := (i - m) / m, (i - m) % m;
    assert i - m == p * m + r && 0 <= r < m;
    assert (p + 1) * m == p * m + m;
    DivUnique(i, m, p + 1);
  }

  function Scaled<T>(K: Field<T>, c: T, s: seq<T>): (r: seq<T>)
    ensures |r| == |s| && forall i :: 0 <= i < |s| ==> r[i] == K.Mul(c, s[i])
  {
    seq(|s|, i requires 0 <= i < |s| => K.Mul(c, s[i]))
  }

  function Plus<T>(K: Field<T>, s: seq<T>, t: seq<T>): (r: seq<T>)
    requires |s| == |t|
    ensures |r| == |s| && forall i :: 0 <= i < |s| ==> r[i] == K.Add(s[i], t[i])
  {
    seq(|s|, i requires 0 <= i < |s| => K.Add(s[i], t[i]))
  }

  function Times<T>(K: Field<T>, s: seq<T>, t: seq<T>): (r: seq<T>)
    requires |s| == |t|
    ensures |r| == |s| && forall i :: 0 <= i < |s| ==> r[i] == K.Mul(s[i], t[i])
  {
    seq(|s|, i requires 0 <= i < |s| => K.Mul(s[i], t[i]))
  }

  function Zeros<T>(K: Field<T>, n: nat): (r: seq<T>)
    ensures |r| == n && forall i :: 0 <= i < n ==> r[i] == K.zero
  {
    seq(n, _ => K.zero)
  }

  lemma SumEmpty<T>(K: Field<T>)
    ensures K.Sum([]) == K.zero && K.Product([]) == K.one
  {
  }

  lemma SumOne<T(!new)>(K: Field<T>, x: T)
    requires Lawful(K)
    ensures K.Sum([x]) == x
  {
    AddZero(K, x);
  }

  lemma {:induction false} SumConcat<T(!new)>(K: Field<T>, s: seq<T>, t: seq<T>)
    requires Lawful(K)
    ensures K.Sum(s + t) == K.Add(K.Sum(s), K.Sum(t))
  {
    if s == [] {
      assert s + t == t;
      AddZero(K, K.Sum(t));
    } else {
      assert (s + t)[1..] == s[1..] + t;
      SumConcat(K, s[1..], t);
      AddAssoc(K, s[0], K.Sum(s[1..]), K.Sum(t));
    }
  }

  lemma SumSnoc<T(!new)>(K: Field<T>, s: seq<T>, x: T)
    requires Lawful(K)
    ensures K.Sum(s + [x]) == K.Add(K.Sum(s), x)
  {
    SumConcat(K, s, [x]);
    AddZero(K, x);
  }

  lemma SumPrefix<T(!new)>(K: Field<T>, s: seq<T>, k: nat)
    requires Lawful(K) && k < |s|
    ensures K.Sum(s[..k + 1]) == K.Add(K.Sum(s[..k]), s[k])
  {
    SumSnoc(K, s[..k], s[k]);
    assert s[..k + 1] == s[..k] + [s[k]];
  }

  lemma {:induction false} SumPlus<T(!new)>(K: Field<T>, s: seq<T>, t: seq<T>)
    requires Lawful(K) && |s| == |t|
    ensures K.Sum(Plus(K, s, t)) == K.Add(K.Sum(s), K.Sum(t))
  {
    if s == [] {
      AddZero(K, K.zero);
    } else {
      assert Plus(K, s, t)[1..] == Plus(K, s[1..], t[1..]);
      SumPlus(K, s[1..], t[1..]);
      AddSwap(K, s[0], t[0], K.Sum(s[1..]), K.Sum(t[1..]));
    }
  }

  lemma {:induction false} SumScaled<T(!new)>(K: Field<T>, c: T, s: seq<T>)
    requires Lawful(K)
    ensures K.Sum(Scaled(K, c, s)) == K.Mul(c, K.Sum(s))
  {
    if s == [] {
      MulZero(K, c);
    } else {
      assert Scaled(K, c, s)[1..] == Scaled(K, c, s[1..]);
      SumScaled(K, c, s[1..]);
      Distrib(K, c, s[0], K.Sum(s[1..]));
    }
  }

  lemma {:induction false} SumZeros<T(!new)>(K: Field<T>, s: seq<T>)
    requires Lawful(K) && forall i :: 0 <= i < |s| ==> s[i] == K.zero
    ensures K.Sum(s) == K.zero
  {
    if s != [] {
      SumZeros(K, s[1..]);
      AddZero(K, K.zero);
    }
  }

  /** A sum splits into its even and its odd entries. */
  lemma {:induction false} SumHalves<T(!new)>(K: Field<T>, s: seq<T>)
    requires Lawful(K) && |s| % 2 == 0
    ensures K.Sum(s) == K.Add(K.Sum(Evens(s)), K.Sum(Odds(s)))
  {
    if s == [] {
      AddZero(K, K.zero);
    } else {
      assert s[1..][1..] == s[2..];
      assert Evens(s)[1..] == Evens(s[2..]);
      assert Odds(s)[1..] == Odds(s[2..]);
      SumHalves(K, s[2..]);
      AddAssoc(K, s[0], s[1], K.Sum(s[2..]));
      AddSwap(K, s[0], s[1], K.Sum(Evens(s[2..])), K.Sum(Odds(s[2..])));
    }
  }

  lemma {:induction false} SumConstant<T(!new)>(K: Field<T>, s: seq<T>, x: T)
    requires Lawful(K) && forall i :: 0 <= i < |s| ==> s[i] == x
    ensures K.Sum(s) == K.Mul(K.Num(|s|), x)
  {
    if s == [] {
      MulZero(K, x);
    } else {
      SumConstant(K, s[1..], x);
      Distrib(K, x, K.Num(|s| - 1), K.one);
      MulOne(K, x);
      AddComm(K, x, K.Mul(K.Num(|s| - 1), x));
    }
  }

  /** Repeating every entry m times multiplies the sum by m. */
  lemma {:induction false} SumRepeat<T(!new)>(K: Field<T>, s: seq<T>, m: nat)
    requires Lawful(K) && m > 0
    ensures K.Sum(Repeat(s, m)) == K.Mul(K.Num(m), K.Sum(s))
  {
    if s == [] {
      MulZero(K, K.Num(m));
    } else {
      var block := seq(m, _ => s[0]);
      SumConcat(K, block, Repeat(s[1..], m));
      SumConstant(K, block, s[0]);
      SumRepeat(K, s[1..], m);
      Distrib(K, K.Num(m), s[0], K.Sum(s[1..]));
    }
  }
}

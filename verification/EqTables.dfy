/** The table of the equality polynomial: built backwards in place, built in chunks, and its inner product with
    another such table. */
module EqTables {
  import opened Fields
  import opened Sums
  import opened Multilinear
  import opened MixedArity

  // ---------- the equality polynomial ----------

  /** x*y + (1 - x)*(1 - y): one when two bits agree and zero when they differ. */
  function EqPair<T>(K: Field<T>, x: T, y: T): T {
    K.Add(K.Mul(x, y), K.Mul(K.Sub(K.one, x), K.Sub(K.one, y)))
  }

  function EqProduct<T>(K: Field<T>, xs: seq<T>, ys: seq<T>): T
    requires |xs| == |ys|
  {
    if xs == [] then K.one else K.Mul(EqPair(K, xs[0], ys[0]), EqProduct(K, xs[1..], ys[1..]))
  }

  lemma {:induction false} EqProductSnoc<T(!new)>(K: Field<T>, xs: seq<T>, ys: seq<T>, x: T, y: T)
    requires Lawful(K) && |xs| == |ys|
    ensures EqProduct(K, xs + [x], ys + [y]) == K.Mul(EqProduct(K, xs, ys), EqPair(K, x, y))
  {
    if xs == [] {
      MulOne(K, EqPair(K, x, y));
      assert ([x] + [])[1..] == [] && ([] + [x])[1..] == [] && ([] + [y])[1..] == [];
    } else {
      assert (xs + [x])[1..] == xs[1..] + [x] && (ys + [y])[1..] == ys[1..] + [y];
      EqProductSnoc(K, xs[1..], ys[1..], x, y);
      MulAssoc(K, EqPair(K, xs[0], ys[0]), EqProduct(K, xs[1..], ys[1..]), EqPair(K, x, y));
    }
  }

  /** The code computes 2*x*y - x - y + 1. */
  lemma EqPairIs<T(!new)>(K: Field<T>, x: T, y: T)
    requires Lawful(K)
    ensures K.Add(K.Sub(K.Sub(K.Add(K.Mul(x, y), K.Mul(x, y)), x), y), K.one) == EqPair(K, x, y)
  {
    var p := K.Mul(x, y);
    MulSub(K, K.Sub(K.one, x), K.one, y);
    MulOne(K, K.Sub(K.one, x));
    MulSub(K, y, K.one, x);
    MulOne(K, y);
    // (1 - x)(1 - y) = (1 - x) - (y - x y)
    NegSub(K, y, p);
    AddCommAll(K);
    AddAssocAll(K);
  }

  /** `eq_eval` */
  method EqEval<T(!new)>(K: Field<T>, x: seq<T>, y: seq<T>) returns (res: T)
    requires Lawful(K) && |x| == |y|
    ensures res == EqProduct(K, x, y)
  {
    res := K.one;
    for i := 0 to |x|
      invariant res == EqProduct(K, x[..i], y[..i])
    {
      hide Field<T>.Sub, EqProduct, EqPair;
      var xiyi := K.Mul(x[i], y[i]);
      EqPairIs(K, x[i], y[i]);
      EqProductSnoc(K, x[..i], y[..i], x[i], y[i]);
      assert x[..i + 1] == x[..i] + [x[i]] && y[..i + 1] == y[..i] + [y[i]];
      res := K.Mul(res, K.Add(K.Sub(K.Sub(K.Add(xiyi, xiyi), x[i]), y[i]), K.one));
    }
    assert x[..|x|] == x && y[..|y|] == y;
  }

  /** The inner product of two equality tables is the equality polynomial at both points. */
  lemma {:induction false} TablesInnerProduct<T(!new)>(K: Field<T>, xs: seq<T>, ys: seq<T>)
    requires Lawful(K) && |xs| == |ys|
    ensures K.Sum(Times(K, EqTable(K, xs), EqTable(K, ys))) == EqProduct(K, xs, ys)
  {
    if xs == [] {
      assert Times(K, EqTable(K, xs), EqTable(K, ys)) == [K.Mul(K.one, K.one)];
      MulOne(K, K.one);
      AddZero(K, K.one);
    } else {
      hide EqTable;
      var u, v := EqTable(K, xs[1..]), EqTable(K, ys[1..]);
      var s, t := Times(K, EqTable(K, xs), EqTable(K, ys)), Times(K, u, v);
      TablesInnerProduct(K, xs[1..], ys[1..]);
      var lo, hi := K.Mul(K.Sub(K.one, xs[0]), K.Sub(K.one, ys[0])), K.Mul(xs[0], ys[0]);
      forall i: nat | i < |t|
        ensures Evens(s)[i] == K.Mul(lo, t[i]) && Odds(s)[i] == K.Mul(hi, t[i])
      {
        EqTableEntry(K, xs, i);
        EqTableEntry(K, ys, i);
        MulSwap(K, K.Sub(K.one, xs[0]), u[i], K.Sub(K.one, ys[0]), v[i]);
        MulSwap(K, xs[0], u[i], ys[0], v[i]);
      }
      assert Evens(s) == Scaled(K, lo, t) && Odds(s) == Scaled(K, hi, t);
      SumHalves(K, s);
      SumScaled(K, lo, t);
      SumScaled(K, hi, t);
      Distrib(K, K.Sum(t), hi, lo);
      AddComm(K, K.Mul(lo, K.Sum(t)), K.Mul(hi, K.Sum(t)));
    }
  }

  // ---------- the backwards builder ----------

  /** One entry pair of the next table from one entry of the last. */
  lemma NextEntries<T(!new)>(K: Field<T>, point: seq<T>, j: nat, init: T, prev: T)
    requires Lawful(K) && point != [] && j < Pow2(|point| - 1)
    requires prev == K.Mul(init, EqTable(K, point[1..])[j])
    ensures K.Mul(init, EqTable(K, point)[2 * j + 1]) == K.Mul(point[0], prev)
    ensures K.Mul(init, EqTable(K, point)[2 * j]) == K.Sub(prev, K.Mul(point[0], prev))
  {
    var e, r := EqTable(K, point[1..])[j], point[0];
    EqTableEntry(K, point, j);
    MulAssoc(K, init, r, e);
    MulComm(K, init, r);
    MulAssoc(K, r, init, e);
    MulAssoc(K, init, K.Sub(K.one, r), e);
    MulComm(K, init, K.Sub(K.one, r));
    MulAssoc(K, K.Sub(K.one, r), init, e);
    MulSub(K, prev, K.one, r);
    MulOne(K, prev);
  }

  /** Every entry of a table gives two entries of the next one. */
  ghost predicate Doubles<T>(K: Field<T>, r: T, was: seq<T>, next: seq<T>) {
    |next| == 2 * |was| &&
    forall j :: 0 <= j < |was| ==> next[2 * j + 1] == K.Mul(r, was[j]) && next[2 * j] == K.Sub(was[j], K.Mul(r, was[j]))
  }

  lemma TableDoubles<T(!new)>(K: Field<T>, point: seq<T>, init: T)
    requires Lawful(K) && point != []
    ensures Doubles(K, point[0], Scaled(K, init, EqTable(K, point[1..])), Scaled(K, init, EqTable(K, point)))
  {
    hide EqTable, Field<T>.Sub;
    var was, next := Scaled(K, init, EqTable(K, point[1..])), Scaled(K, init, EqTable(K, point));
    assert |EqTable(K, point)| == 2 * |EqTable(K, point[1..])|;
    forall j | 0 <= j < |was|
        ensures next[2 * j + 1] == K.Mul(point[0], was[j]) && next[2 * j] == K.Sub(was[j], K.Mul(point[0], was[j])) {
      NextEntries(K, point, j, init, was[j]);
    }
  }

  /** One stage: the table in buf[lo..lo + size] grows to twice its size.  The loop runs backwards, so that every entry
      is read before it is overwritten. */
  method DoubleInPlace<T(!new)>(K: Field<T>, buf: array<T>, lo: nat, size: nat, r: T, ghost was: seq<T>,
                                ghost next: seq<T>)
    requires lo + 2 * size <= buf.Length && |was| == size && Doubles(K, r, was, next) && buf[lo..lo + size] == was
    modifies buf
    ensures buf[lo..lo + 2 * size] == next
    ensures forall k :: 0 <= k < buf.Length && !(lo <= k < lo + 2 * size) ==> buf[k] == old(buf[k])
  {
    hide Field<T>.Sub;
    var j := size;
    while j > 0
      invariant 0 <= j <= size
      invariant forall k :: lo <= k < lo + j ==> buf[k] == was[k - lo]
      invariant forall k :: lo + 2 * j <= k < lo + 2 * size ==> buf[k] == next[k - lo]
      invariant forall k :: 0 <= k < buf.Length && !(lo <= k < lo + 2 * size) ==> buf[k] == old(buf[k])
    {
      j := j - 1;
      var prev := buf[lo + j];
      var tmp := K.Mul(r, prev);
      buf[lo + 2 * j + 1] := tmp;
      buf[lo + 2 * j] := K.Sub(prev, tmp);
    }
  }

  /** `build_eq_x_r_helper_sequential` on a part of a buffer. */
  method BuildEqHelper<T(!new)>(K: Field<T>, r: seq<T>, buf: array<T>, lo: nat, init: T)
    requires Lawful(K) && lo + Pow2(|r|) <= buf.Length
    modifies buf
    ensures buf[lo..lo + Pow2(|r|)] == Scaled(K, init, EqTable(K, r))
    ensures forall k :: 0 <= k < buf.Length && !(lo <= k < lo + Pow2(|r|)) ==> buf[k] == old(buf[k])
  {
    hide EqTable, Pow2;
    Pow2Positive(|r|);
    buf[lo] := init;
    EmptyTable(K, r, init);
    assert buf[lo..lo + Pow2(0)] == [init];
    for i := 0 to |r|
      invariant Pow2(i) <= Pow2(|r|)
      invariant buf[lo..lo + Pow2(i)] == Scaled(K, init, EqTable(K, r[|r| - i..]))
      invariant forall k :: 0 <= k < buf.Length && !(lo <= k < lo + Pow2(|r|)) ==> buf[k] == old(buf[k])
    {
      NextSize(i, |r|);
      ghost var point := r[|r| - (i + 1)..];
      assert point[1..] == r[|r| - i..];
      TableDoubles(K, point, init);
      DoubleInPlace(K, buf, lo, Pow2(i), r[|r| - 1 - i], Scaled(K, init, EqTable(K, point[1..])),
                    Scaled(K, init, EqTable(K, point)));
    }
    assert r[|r| - |r|..] == r;
  }

  lemma Pow2Positive(n: nat)
    ensures Pow2(n) > 0 && Pow2(0) == 1
  {
  }

  lemma NextSize(i: nat, n: nat)
    requires i < n
    ensures Pow2(i + 1) == 2 * Pow2(i) <= Pow2(n)
  {
    Pow2Mono(i + 1, n);
  }

  lemma EmptyTable<T(!new)>(K: Field<T>, r: seq<T>, init: T)
    requires Lawful(K)
    ensures Scaled(K, init, EqTable(K, r[|r| - 0..])) == [init]
  {
    MulOne(K, init);
  }

  // ---------- the chunked builder ----------

  lemma HalfIndex(t: nat, h: nat, b: nat)
    ensures (t * (2 * h) + b) / 2 == t * h + b / 2 && (t * (2 * h) + b) % 2 == b % 2
  {
    assert t * (2 * h) == 2 * (t * h);
  }

  /** A table over two groups of variables is the product of the tables of the groups. */
  lemma {:induction false} SplitTable<T(!new)>(K: Field<T>, lo: seq<T>, hi: seq<T>, b: nat, t: nat)
    requires Lawful(K) && b < Pow2(|lo|)
    ensures EqAt(K, lo + hi, t * Pow2(|lo|) + b) == K.Mul(EqAt(K, hi, t), EqAt(K, lo, b))
    decreases |lo|
  {
    if lo == [] {
      assert lo + hi == hi;
      MulOne(K, EqAt(K, hi, t));
    } else {
      hide Field<T>.Sub;
      assert (lo + hi)[1..] == lo[1..] + hi;
      HalfIndex(t, Pow2(|lo| - 1), b);
      SplitTable(K, lo[1..], hi, b / 2, t);
      var w, eh, el := if b % 2 == 1 then lo[0] else K.Sub(K.one, lo[0]), EqAt(K, hi, t), EqAt(K, lo[1..], b / 2);
      MulAssoc(K, w, eh, el);
      MulComm(K, w, eh);
      MulAssoc(K, eh, w, el);
    }
  }

  lemma ChunkFits(n: nat, nbits: nat, t: nat)
    requires nbits <= n && t < Pow2(nbits)
    ensures 0 <= t * Pow2(n - nbits) && (t + 1) * Pow2(n - nbits) == t * Pow2(n - nbits) + Pow2(n - nbits) <= Pow2(n)
    ensures Pow2(nbits) * Pow2(n - nbits) == Pow2(n)
  {
    Pow2Add(nbits, n - nbits);
    MulOrder(t + 1, Pow2(nbits), Pow2(n - nbits));
  }

  /** Chunk t of the table: the table of the low variables, scaled by entry t of the table of the high ones. */
  lemma Chunk<T(!new)>(K: Field<T>, r: seq<T>, nbits: nat, t: nat)
    requires Lawful(K) && nbits <= |r| && t < Pow2(nbits)
    ensures var s := Pow2(|r| - nbits);
            0 <= t * s <= t * s + s <= |EqTable(K, r)| &&
            EqTable(K, r)[t * s..t * s + s] == Scaled(K, EqTable(K, r[|r| - nbits..])[t], EqTable(K, r[..|r| - nbits]))
  {
    hide Pow2, EqAt;
    var lo, hi, s := r[..|r| - nbits], r[|r| - nbits..], Pow2(|r| - nbits);
    assert r == lo + hi;
    ChunkFits(|r|, nbits, t);
    forall b | 0 <= b < s
        ensures EqAt(K, r, t * s + b) == K.Mul(EqAt(K, hi, t), EqAt(K, lo, b)) { SplitTable(K, lo, hi, b, t); }
  }

  /** Every thread fills its own chunk, starting from its entry of the table of the highest variables. */
  method FillChunks<T(!new)>(K: Field<T>, r: seq<T>, nbits: nat, eqTs: seq<T>, ret: array<T>)
    requires Lawful(K) && nbits <= |r| && eqTs == EqTable(K, r[|r| - nbits..]) && ret.Length == Pow2(|r|)
    modifies ret
    ensures ret[..] == EqTable(K, r)
  {
    hide EqTable, Pow2;
    var s := Pow2(|r| - nbits);
    Pow2Positive(nbits);
    ChunkFits(|r|, nbits, 0);
    for tid := 0 to Pow2(nbits)
      invariant 0 <= tid * s <= Pow2(|r|)
      invariant ret[..tid * s] == EqTable(K, r)[..tid * s]
    {
      ChunkFits(|r|, nbits, tid);
      Chunk(K, r, nbits, tid);
      ghost var was := ret[..tid * s];
      BuildEqHelper(K, r[..|r| - nbits], ret, tid * s, eqTs[tid]);
      assert ret[..tid * s] == was;
      assert ret[..tid * s + s] == was + ret[tid * s..tid * s + s];
      assert EqTable(K, r)[..tid * s + s] == EqTable(K, r)[..tid * s] + EqTable(K, r)[tid * s..tid * s + s];
    }
  }

  /** `build_eq_x_r_vec` with 2^nbits threads. */
  method BuildEqVec<T(!new)>(K: Field<T>, r: seq<T>, nbits: nat) returns (ret: array<T>)
    requires Lawful(K)
    ensures fresh(ret) && ret[..] == EqTable(K, r)
  {
    hide EqTable, Pow2;
    var n := |r|;
    ret := new T[Pow2(n)](_ => K.zero);
    if n < nbits || r == [] {
      BuildEqHelper(K, r, ret, 0, K.one);
      OneTimes(K, EqTable(K, r));
      assert ret[..] == ret[0..0 + Pow2(n)];
    } else {
      var eqTs := new T[Pow2(nbits)](_ => K.zero);
      BuildEqHelper(K, r[n - nbits..], eqTs, 0, K.one);
      OneTimes(K, EqTable(K, r[n - nbits..]));
      assert eqTs[..] == eqTs[0..0 + Pow2(nbits)];
      FillChunks(K, r, nbits, eqTs[..], ret);
    }
  }

  lemma OneTimes<T(!new)>(K: Field<T>, s: seq<T>)
    requires Lawful(K)
    ensures Scaled(K, K.one, s) == s
  {
    forall i | 0 <= i < |s| ensures Scaled(K, K.one, s)[i] == s[i] { MulOne(K, s[i]); }
  }
}

/** The in-place transforms between the values of a multilinear polynomial on the hypercube and its coefficients, and
    the evaluations from either form. */
module Hypercube {
  import opened Fields
  import opened Sums
  import opened Polynomials
  import opened Multilinear
  import opened RoundEvaluator

  // ---------- one stage ----------

  function Combine<T>(K: Field<T>, add: bool, x: T, y: T): T { if add then K.Add(x, y) else K.Sub(x, y) }

  /** The upper half of a chunk is increased or decreased by the lower half. */
  function ChunkStep<T>(K: Field<T>, add: bool, c: seq<T>, h: nat): (r: seq<T>)
    requires |c| == 2 * h
    ensures |r| == |c| && forall j :: 0 <= j < |c| ==> r[j] == if j < h then c[j] else Combine(K, add, c[j], c[j - h])
  {
    seq(|c|, j requires 0 <= j < |c| => if j < h then c[j] else Combine(K, add, c[j], c[j - h]))
  }

  /** One stage: every chunk of 2*h entries on its own. */
  function Stage<T>(K: Field<T>, add: bool, f: seq<T>, h: nat): (r: seq<T>)
    requires h > 0
    ensures |r| == |f|
    decreases |f|
  {
    if |f| < 2 * h then f else ChunkStep(K, add, f[..2 * h], h) + Stage(K, add, f[2 * h..], h)
  }

  lemma ChunkUndo<T(!new)>(K: Field<T>, add: bool, c: seq<T>, h: nat)
    requires Lawful(K) && |c| == 2 * h
    ensures ChunkStep(K, !add, ChunkStep(K, add, c, h), h) == c
  {
    forall j | h <= j < 2 * h ensures Combine(K, !add, Combine(K, add, c[j], c[j - h]), c[j - h]) == c[j] {
      AddSub(K, c[j - h], c[j]);
    }
  }

  /** A stage and the opposite stage undo each other. */
  lemma {:induction false} StageUndo<T(!new)>(K: Field<T>, add: bool, f: seq<T>, h: nat)
    requires Lawful(K) && h > 0
    ensures Stage(K, !add, Stage(K, add, f, h), h) == f
    decreases |f|
  {
    hide ChunkStep;
    if |f| >= 2 * h {
      var c, rest := f[..2 * h], f[2 * h..];
      ChunkUndo(K, add, c, h);
      StageUndo(K, add, rest, h);
      var g := Stage(K, add, f, h);
      assert g[..2 * h] == ChunkStep(K, add, c, h) && g[2 * h..] == Stage(K, add, rest, h);
      assert f == c + rest;
    }
  }

  // ---------- all stages ----------

  /** `interpolate_over_boolean_hypercube`: stages i, i + 1, ..., n - 1 with subtraction. */
  function SubStages<T>(K: Field<T>, f: seq<T>, i: nat, n: nat): (r: seq<T>)
    ensures |r| == |f|
    decreases n - i
  {
    if i >= n then f else SubStages(K, Stage(K, false, f, Pow2(i)), i + 1, n)
  }

  /** `evaluate_over_hypercube`: stages n - 1, ..., 0 with addition. */
  function AddStages<T>(K: Field<T>, f: seq<T>, n: nat): (r: seq<T>)
    ensures |r| == |f|
    decreases n
  {
    if n == 0 then f else AddStages(K, Stage(K, true, f, Pow2(n - 1)), n - 1)
  }

  lemma {:induction false} SubStagesSnoc<T>(K: Field<T>, f: seq<T>, i: nat, n: nat)
    requires i <= n
    ensures SubStages(K, f, i, n + 1) == Stage(K, false, SubStages(K, f, i, n), Pow2(n))
    decreases n - i
  {
    hide Stage;
    if i < n {
      SubStagesSnoc(K, Stage(K, false, f, Pow2(i)), i + 1, n);
    } else {
      assert SubStages(K, Stage(K, false, f, Pow2(n)), n + 1, n + 1) == Stage(K, false, f, Pow2(n));
    }
  }

  /** The two transforms undo each other. */
  lemma {:induction false} TransformsUndo<T(!new)>(K: Field<T>, f: seq<T>, n: nat)
    requires Lawful(K)
    ensures AddStages(K, SubStages(K, f, 0, n), n) == f
    ensures SubStages(K, AddStages(K, f, n), 0, n) == f
    decreases n
  {
    hide Stage;
    if n > 0 {
      var h := Pow2(n - 1);
      SubStagesSnoc(K, f, 0, n - 1);
      StageUndo(K, false, SubStages(K, f, 0, n - 1), h);
      TransformsUndo(K, f, n - 1);
      var g := Stage(K, true, f, h);
      TransformsUndo(K, g, n - 1);
      SubStagesSnoc(K, AddStages(K, g, n - 1), 0, n - 1);
      StageUndo(K, true, f, h);
    }
  }

  // ---------- the transform and folding ----------

  /** The combination f + r*g, entry by entry. */
  function Mix<T>(K: Field<T>, f: seq<T>, g: seq<T>, r: T): (s: seq<T>)
    requires |f| == |g|
    ensures |s| == |f| && forall k :: 0 <= k < |f| ==> s[k] == K.Add(f[k], K.Mul(r, g[k]))
  {
    seq(|f|, k requires 0 <= k < |f| => K.Add(f[k], K.Mul(r, g[k])))
  }

  /** Folding coefficients: the lowest variable is set to r. */
  function FoldCoeffs<T>(K: Field<T>, c: seq<T>, r: T): (g: seq<T>)
    ensures |g| == |c| / 2 && forall k :: 0 <= k < |g| ==> g[k] == K.Add(c[2 * k], K.Mul(c[2 * k + 1], r))
  {
    seq(|c| / 2, k requires 0 <= k < |c| / 2 => K.Add(c[2 * k], K.Mul(c[2 * k + 1], r)))
  }

  function FoldCoeffsMany<T>(K: Field<T>, c: seq<T>, point: seq<T>): (g: seq<T>)
    decreases |point|
  {
    if point == [] then c else FoldCoeffsMany(K, FoldCoeffs(K, c, point[0]), point[1..])
  }

  lemma MixStep<T(!new)>(K: Field<T>, x: T, y: T, a: T, b: T, r: T)
    requires Lawful(K)
    ensures K.Sub(K.Add(x, K.Mul(r, a)), K.Add(y, K.Mul(r, b))) == K.Add(K.Sub(x, y), K.Mul(r, K.Sub(a, b)))
  {
    SubAdd(K, x, K.Mul(r, a), y, K.Mul(r, b));
    MulSub(K, r, a, b);
  }

  lemma ChunkMix<T(!new)>(K: Field<T>, f: seq<T>, g: seq<T>, r: T, h: nat)
    requires Lawful(K) && |f| == |g| == 2 * h
    ensures ChunkStep(K, false, Mix(K, f, g, r), h) == Mix(K, ChunkStep(K, false, f, h), ChunkStep(K, false, g, h), r)
  {
    hide Field<T>.Sub;
    forall j | h <= j < 2 * h
      ensures ChunkStep(K, false, Mix(K, f, g, r), h)[j]
                == Mix(K, ChunkStep(K, false, f, h), ChunkStep(K, false, g, h), r)[j]
    {
      MixStep(K, f[j], f[j - h], g[j], g[j - h], r);
    }
  }

  /** A stage is linear. */
  lemma {:induction false} StageMix<T(!new)>(K: Field<T>, f: seq<T>, g: seq<T>, r: T, h: nat)
    requires Lawful(K) && |f| == |g| && h > 0
    ensures Stage(K, false, Mix(K, f, g, r), h) == Mix(K, Stage(K, false, f, h), Stage(K, false, g, h), r)
    decreases |f|
  {
    hide ChunkStep;
    if |f| >= 2 * h {
      var m := Mix(K, f, g, r);
      ChunkMix(K, f[..2 * h], g[..2 * h], r, h);
      StageMix(K, f[2 * h..], g[2 * h..], r, h);
      assert m[..2 * h] == Mix(K, f[..2 * h], g[..2 * h], r);
      assert m[2 * h..] == Mix(K, f[2 * h..], g[2 * h..], r);
      MixConcat(K, ChunkStep(K, false, f[..2 * h], h), Stage(K, false, f[2 * h..], h),
                ChunkStep(K, false, g[..2 * h], h), Stage(K, false, g[2 * h..], h), r);
    }
  }

  lemma MixConcat<T>(K: Field<T>, a: seq<T>, b: seq<T>, c: seq<T>, d: seq<T>, r: T)
    requires |a| == |c| && |b| == |d|
    ensures Mix(K, a + b, c + d, r) == Mix(K, a, c, r) + Mix(K, b, d, r)
  {
  }

  lemma {:induction false} StagesMix<T(!new)>(K: Field<T>, f: seq<T>, g: seq<T>, r: T, i: nat, n: nat)
    requires Lawful(K) && |f| == |g|
    ensures SubStages(K, Mix(K, f, g, r), i, n) == Mix(K, SubStages(K, f, i, n), SubStages(K, g, i, n), r)
    decreases n - i
  {
    hide Stage;
    if i < n {
      StageMix(K, f, g, r, Pow2(i));
      StagesMix(K, Stage(K, false, f, Pow2(i)), Stage(K, false, g, Pow2(i)), r, i + 1, n);
    }
  }

  lemma HalvesConcat<T>(f: seq<T>, g: seq<T>)
    requires |f| % 2 == 0 && |g| % 2 == 0
    ensures |f + g| % 2 == 0 && Evens(f + g) == Evens(f) + Evens(g) && Odds(f + g) == Odds(f) + Odds(g)
  {
    assert |f| == 2 * (|f| / 2);
  }

  lemma ChunkHalves<T>(K: Field<T>, c: seq<T>, h: nat)
    requires |c| == 4 * h
    ensures Evens(ChunkStep(K, false, c, 2 * h)) == ChunkStep(K, false, Evens(c), h)
    ensures Odds(ChunkStep(K, false, c, 2 * h)) == ChunkStep(K, false, Odds(c), h)
  {
  }

  /** A later stage acts on the even and on the odd entries separately. */
  lemma {:induction false} StageHalves<T>(K: Field<T>, f: seq<T>, h: nat)
    requires |f| % 2 == 0 && h > 0
    ensures Evens(Stage(K, false, f, 2 * h)) == Stage(K, false, Evens(f), h)
    ensures Odds(Stage(K, false, f, 2 * h)) == Stage(K, false, Odds(f), h)
    decreases |f|
  {
    hide ChunkStep;
    if |f| >= 4 * h {
      var c, rest := f[..4 * h], f[4 * h..];
      assert f == c + rest && |c| % 2 == 0 && |rest| % 2 == 0;
      ChunkHalves(K, c, h);
      StageHalves(K, rest, h);
      HalvesConcat(c, rest);
      HalvesConcat(ChunkStep(K, false, c, 2 * h), Stage(K, false, rest, 2 * h));
      assert Evens(f)[..2 * h] == Evens(c) && Evens(f)[2 * h..] == Evens(rest);
      assert Odds(f)[..2 * h] == Odds(c) && Odds(f)[2 * h..] == Odds(rest);
    }
  }

  lemma {:induction false} StagesHalves<T>(K: Field<T>, f: seq<T>, i: nat, n: nat)
    requires |f| % 2 == 0 && 0 < i <= n
    ensures Evens(SubStages(K, f, i, n)) == SubStages(K, Evens(f), i - 1, n - 1)
    ensures Odds(SubStages(K, f, i, n)) == SubStages(K, Odds(f), i - 1, n - 1)
    decreases n - i
  {
    hide Stage;
    if i < n {
      StageHalves(K, f, Pow2(i - 1));
      StagesHalves(K, Stage(K, false, f, Pow2(i)), i + 1, n);
    }
  }

  /** The first stage keeps the even entries and turns the odd ones into differences. */
  lemma {:induction false} FirstStage<T>(K: Field<T>, f: seq<T>)
    requires |f| % 2 == 0
    ensures Evens(Stage(K, false, f, 1)) == Evens(f)
    ensures forall k :: 0 <= k < |f| / 2 ==> Odds(Stage(K, false, f, 1))[k] == K.Sub(f[2 * k + 1], f[2 * k])
    decreases |f|
  {
    if |f| >= 2 {
      FirstStage(K, f[2..]);
      var c, s := ChunkStep(K, false, f[..2], 1), Stage(K, false, f[2..], 1);
      HalvesConcat(c, s);
      HalvesConcat(f[..2], f[2..]);
      assert f == f[..2] + f[2..];
      assert Evens(c) == [f[0]] && Odds(c) == [K.Sub(f[1], f[0])];
      assert Evens(f[..2]) == [f[0]];
      forall k | 0 <= k < |f| / 2 ensures Odds(Stage(K, false, f, 1))[k] == K.Sub(f[2 * k + 1], f[2 * k]) {
        if k > 0 { assert Odds(s)[k - 1] == K.Sub(f[2..][2 * (k - 1) + 1], f[2..][2 * (k - 1)]); }
      }
    }
  }

  /** Folding the coefficients is transforming the folded values. */
  lemma FoldTransform<T(!new)>(K: Field<T>, f: seq<T>, r: T, n: nat)
    requires Lawful(K) && |f| % 2 == 0 && n > 0
    ensures FoldCoeffs(K, SubStages(K, f, 0, n), r) == SubStages(K, Fold(K, f, r), 0, n - 1)
  {
    hide Stage, Field<T>.Sub;
    var s := Stage(K, false, f, 1);
    var c := SubStages(K, s, 1, n);
    assert SubStages(K, f, 0, n) == c;
    FirstStage(K, f);
    StagesHalves(K, s, 1, n);
    StagesMix(K, Evens(s), Odds(s), r, 0, n - 1);
    forall k | 0 <= k < |f| / 2 ensures Mix(K, Evens(s), Odds(s), r)[k] == Fold(K, f, r)[k] {}
    assert Mix(K, Evens(s), Odds(s), r) == Fold(K, f, r);
    forall k | 0 <= k < |c| / 2 ensures FoldCoeffs(K, c, r)[k] == Mix(K, Evens(c), Odds(c), r)[k] {
      MulComm(K, c[2 * k + 1], r);
    }
    assert FoldCoeffs(K, c, r) == Mix(K, Evens(c), Odds(c), r);
  }

  /** Evaluating from the values is evaluating from the transformed coefficients. */
  lemma {:induction false} EvaluationsAgree<T(!new)>(K: Field<T>, f: seq<T>, point: seq<T>)
    requires Lawful(K) && |f| == Pow2(|point|)
    ensures FoldCoeffsMany(K, SubStages(K, f, 0, |point|), point) == FoldMany(K, f, point)
    decreases |point|
  {
    hide SubStages, Fold, FoldCoeffs;
    if point == [] {
      assert SubStages(K, f, 0, 0) == f by { NoStages(K, f); }
    } else {
      FoldTransform(K, f, point[0], |point|);
      EvaluationsAgree(K, Fold(K, f, point[0]), point[1..]);
    }
  }

  lemma NoStages<T>(K: Field<T>, f: seq<T>)
    ensures SubStages(K, f, 0, 0) == f
  {
  }

  // ---------- univariate evaluation ----------

  /** (x, x^2, x^4, ...) */
  function Squares<T>(K: Field<T>, x: T, n: nat): (p: seq<T>)
    ensures |p| == n
  {
    if n == 0 then [] else [x] + Squares(K, K.Mul(x, x), n - 1)
  }

  /** Folding the coefficients at x leaves a polynomial in x squared. */
  lemma {:induction false} FoldAtSquare<T(!new)>(K: Field<T>, c: seq<T>, x: T)
    requires Lawful(K) && |c| % 2 == 0
    ensures Eval(K, c, x) == Eval(K, FoldCoeffs(K, c, x), K.Mul(x, x))
    decreases |c|
  {
    if c != [] {
      var rest := c[2..];
      FoldAtSquare(K, rest, x);
      assert c[1..][1..] == rest;
      assert FoldCoeffs(K, c, x)[1..] == FoldCoeffs(K, rest, x);
      var e := Eval(K, rest, x);
      Distrib(K, x, c[1], K.Mul(x, e));
      MulAssoc(K, x, x, e);
      MulComm(K, x, c[1]);
      AddAssoc(K, c[0], K.Mul(c[1], x), K.Mul(K.Mul(x, x), e));
    }
  }

  /** The univariate value at x is the multilinear value at (x, x^2, x^4, ...). */
  lemma {:induction false} UnivariateIsMultilinear<T(!new)>(K: Field<T>, c: seq<T>, x: T, n: nat)
    requires Lawful(K) && |c| == Pow2(n)
    ensures |FoldCoeffsMany(K, c, Squares(K, x, n))| == 1
    ensures FoldCoeffsMany(K, c, Squares(K, x, n))[0] == Eval(K, c, x)
    decreases n
  {
    if n == 0 {
      assert c[1..] == [];
      MulZero(K, x);
      AddZero(K, c[0]);
    } else {
      FoldAtSquare(K, c, x);
      UnivariateIsMultilinear(K, FoldCoeffs(K, c, x), K.Mul(x, x), n - 1);
      assert Squares(K, x, n)[1..] == Squares(K, K.Mul(x, x), n - 1);
    }
  }

  // ---------- the loops ----------

  method ChunkInPlace<T(!new)>(K: Field<T>, add: bool, a: array<T>, c: nat, h: nat)
    requires c + 2 * h <= a.Length
    modifies a
    ensures a[c..c + 2 * h] == ChunkStep(K, add, old(a[c..c + 2 * h]), h)
    ensures a[..c] == old(a[..c]) && a[c + 2 * h..] == old(a[c + 2 * h..])
  {
    hide Combine;
    ghost var was := a[c..c + 2 * h];
    ghost var next := ChunkStep(K, add, was, h);
    for j := h to 2 * h
      invariant forall k :: 0 <= k < a.Length && !(c <= k < c + 2 * h) ==> a[k] == old(a[k])
      invariant forall k :: c <= k < c + j ==> a[k] == next[k - c]
      invariant forall k :: c + j <= k < c + 2 * h ==> a[k] == was[k - c]
    {
      a[c + j] := Combine(K, add, a[c + j], a[c + j - h]);
    }
  }

  lemma StageAdvance<T>(K: Field<T>, add: bool, done: seq<T>, f: seq<T>, h: nat)
    requires h > 0
    ensures |f| >= 2 * h ==>
              done + Stage(K, add, f, h) == (done + ChunkStep(K, add, f[..2 * h], h)) + Stage(K, add, f[2 * h..], h)
    ensures |f| < 2 * h ==> Stage(K, add, f, h) == f
  {
    hide ChunkStep;
  }

  /** One stage over all chunks of the array. */
  method StageInPlace<T(!new)>(K: Field<T>, add: bool, a: array<T>, h: nat)
    requires h > 0
    modifies a
    ensures a[..] == Stage(K, add, old(a[..]), h)
  {
    hide ChunkStep, Stage;
    var c := 0;
    assert a[..0] + Stage(K, add, a[0..], h) == Stage(K, add, a[..], h) by { assert a[0..] == a[..]; }
    while c + 2 * h <= a.Length
      invariant c <= a.Length
      invariant a[..c] + Stage(K, add, a[c..], h) == Stage(K, add, old(a[..]), h)
    {
      ghost var done, f := a[..c], a[c..];
      StageAdvance(K, add, done, f, h);
      assert f[..2 * h] == a[c..c + 2 * h] && f[2 * h..] == a[c + 2 * h..];
      ChunkInPlace(K, add, a, c, h);
      assert a[..c + 2 * h] == done + ChunkStep(K, add, f[..2 * h], h);
      c := c + 2 * h;
    }
    StageAdvance(K, add, a[..c], a[c..], h);
    assert a[..c] + a[c..] == a[..];
  }

  /** `interpolate_over_boolean_hypercube`: an array of one entry is refused, its only chunk has no second entry. */
  method InterpolateOverBooleanHypercube<T(!new)>(K: Field<T>, evals: array<T>, ghost n: nat)
    requires n > 0 && evals.Length == Pow2(n)
    modifies evals
    ensures evals[..] == SubStages(K, old(evals[..]), 0, n)
  {
    hide Stage, SubStages;
    CeilLog2Exact(n);
    var m := CeilLog2(evals.Length);
    FirstSubStage(K, evals[..], n);
    StageInPlace(K, false, evals, 1);
    for i := 2 to m + 1
      invariant SubStages(K, evals[..], i - 1, n) == SubStages(K, old(evals[..]), 0, n)
    {
      NextSubStage(K, evals[..], i - 1, n);
      StageInPlace(K, false, evals, Pow2(i - 1));
    }
    NoSubStage(K, evals[..], n);
  }

  lemma FirstSubStage<T>(K: Field<T>, f: seq<T>, n: nat)
    requires n > 0
    ensures SubStages(K, f, 0, n) == SubStages(K, Stage(K, false, f, 1), 1, n)
  {
    hide Stage;
  }

  lemma NextSubStage<T>(K: Field<T>, f: seq<T>, i: nat, n: nat)
    requires i < n
    ensures SubStages(K, f, i, n) == SubStages(K, Stage(K, false, f, Pow2(i)), i + 1, n)
  {
    hide Stage;
  }

  lemma NoSubStage<T>(K: Field<T>, f: seq<T>, n: nat)
    ensures SubStages(K, f, n, n) == f
  {
  }

  /** `evaluate_over_hypercube` */
  method EvaluateOverHypercube<T(!new)>(K: Field<T>, coeffs: array<T>, ghost n: nat)
    requires n > 0 && coeffs.Length == Pow2(n)
    modifies coeffs
    ensures coeffs[..] == AddStages(K, old(coeffs[..]), n)
  {
    hide Stage, AddStages;
    CeilLog2Exact(n);
    var i := CeilLog2(coeffs.Length);
    while i >= 2
      invariant 1 <= i <= n
      invariant AddStages(K, coeffs[..], i) == AddStages(K, old(coeffs[..]), n)
    {
      NextAddStage(K, coeffs[..], i);
      StageInPlace(K, true, coeffs, Pow2(i - 1));
      i := i - 1;
    }
    NextAddStage(K, coeffs[..], 1);
    StageInPlace(K, true, coeffs, 1);
    NoAddStage(K, coeffs[..]);
  }

  lemma NextAddStage<T>(K: Field<T>, f: seq<T>, i: nat)
    requires i > 0
    ensures AddStages(K, f, i) == AddStages(K, Stage(K, true, f, Pow2(i - 1)), i - 1) && Pow2(0) == 1
  {
    hide Stage;
  }

  lemma NoAddStage<T>(K: Field<T>, f: seq<T>)
    ensures AddStages(K, f, 0) == f
  {
  }

  /** `evaluate_as_multilinear_coeffs`; a single coefficient is a constant for any point. */
  method EvaluateAsMultilinearCoeffs<T(!new)>(K: Field<T>, coeffs: seq<T>, point: seq<T>) returns (v: T)
    requires |coeffs| == 1 || |coeffs| == Pow2(|point|)
    ensures [v] == if |coeffs| == 1 then coeffs else FoldCoeffsMany(K, coeffs, point)
  {
    hide FoldCoeffsMany, FoldCoeffs, Pow2;
    if |coeffs| == 1 {
      return coeffs[0];
    }
    var result, index := coeffs, 0;
    FoldCoeffsSteps(K, coeffs, point);
    while |result| > 1
      invariant index <= |point| && |result| == Pow2(|point| - index)
      invariant FoldCoeffsMany(K, result, point[index..]) == FoldCoeffsMany(K, coeffs, point)
      decreases |result|
    {
      FoldCoeffsSteps(K, result, point[index..]);
      assert point[index..][1..] == point[index + 1..];
      result := FoldCoeffs(K, result, point[index]);
      index := index + 1;
    }
    FoldCoeffsSteps(K, result, point[index..]);
    v := result[0];
  }

  lemma FoldCoeffsSteps<T>(K: Field<T>, c: seq<T>, point: seq<T>)
    requires |c| == Pow2(|point|)
    ensures point != [] ==> |c| % 2 == 0 && |FoldCoeffs(K, c, point[0])| == Pow2(|point| - 1)
    ensures point != [] ==> FoldCoeffsMany(K, c, point) == FoldCoeffsMany(K, FoldCoeffs(K, c, point[0]), point[1..])
    ensures (|c| > 1 <==> point != []) && (point == [] ==> FoldCoeffsMany(K, c, point) == c)
    ensures point[0..] == point
  {
    hide FoldCoeffs;
    if point != [] { Pow2Mono(0, |point| - 1); }
  }

  /** `evaluate_as_multilinear_evals`: each pair is mixed as (1 - p)*a + b*p; a single value is a constant. */
  method EvaluateAsMultilinearEvals<T(!new)>(K: Field<T>, evals: seq<T>, point: seq<T>) returns (v: T)
    requires Lawful(K) && (|evals| == 1 || |evals| == Pow2(|point|))
    ensures [v] == if |evals| == 1 then evals else FoldMany(K, evals, point)
  {
    hide FoldMany, Fold, Pow2;
    if |evals| == 1 {
      return evals[0];
    }
    var result, index := evals, 0;
    FoldSteps(K, evals, point);
    while |result| > 1
      invariant index <= |point| && |result| == Pow2(|point| - index)
      invariant FoldMany(K, result, point[index..]) == FoldMany(K, evals, point)
      decreases |result|
    {
      FoldSteps(K, result, point[index..]);
      assert point[index..][1..] == point[index + 1..];
      result := MixPairs(K, result, point[index]);
      index := index + 1;
    }
    FoldSteps(K, result, point[index..]);
    v := result[0];
  }

  method MixPairs<T(!new)>(K: Field<T>, f: seq<T>, r: T) returns (g: seq<T>)
    requires Lawful(K) && |f| % 2 == 0
    ensures g == Fold(K, f, r)
  {
    hide Field<T>.Line, Field<T>.Sub;
    g := [];
    for k := 0 to |f| / 2
      invariant g == Fold(K, f, r)[..k]
    {
      LineMix(K, f[2 * k], f[2 * k + 1], r);
      MulComm(K, r, f[2 * k + 1]);
      g := g + [K.Add(K.Mul(K.Sub(K.one, r), f[2 * k]), K.Mul(f[2 * k + 1], r))];
    }
  }

  lemma FoldSteps<T>(K: Field<T>, f: seq<T>, point: seq<T>)
    requires |f| == Pow2(|point|)
    ensures point != [] ==> |f| % 2 == 0 && |Fold(K, f, point[0])| == Pow2(|point| - 1)
    ensures point != [] ==> FoldMany(K, f, point) == FoldMany(K, Fold(K, f, point[0]), point[1..])
    ensures (|f| > 1 <==> point != []) && (point == [] ==> FoldMany(K, f, point) == f)
    ensures point[0..] == point
  {
    hide Fold;
    if point != [] { Pow2Mono(0, |point| - 1); }
  }

  /** `evaluate_as_univariate` at one point: the values become coefficients, and Horner's rule runs from the highest
      coefficient down. */
  method EvaluateAsUnivariate<T(!new)>(K: Field<T>, evals: seq<T>, x: T, ghost n: nat) returns (v: T)
    requires Lawful(K) && |evals| == Pow2(n)
    ensures v == Eval(K, SubStages(K, evals, 0, n), x)
    ensures [v] == FoldMany(K, evals, Squares(K, x, n))
  {
    hide SubStages, FoldMany, FoldCoeffsMany, Squares;
    UnivariateOfEvals(K, evals, x, n);
    if |evals| == 1 {
      return evals[0];
    }
    var coeffs := new T[|evals|](i requires 0 <= i < |evals| => evals[i]);
    assert coeffs[..] == evals;
    InterpolateOverBooleanHypercube(K, coeffs, n);
    ghost var c := coeffs[..];
    v := K.zero;
    var i := coeffs.Length;
    while i > 0
      invariant 0 <= i <= coeffs.Length && coeffs[..] == c
      invariant v == Eval(K, c[i..], x)
    {
      i := i - 1;
      MulComm(K, v, x);
      AddComm(K, K.Mul(v, x), coeffs[i]);
      assert c[i..][1..] == c[i + 1..];
      v := K.Add(K.Mul(v, x), coeffs[i]);
    }
    assert c[0..] == c;
  }

  lemma UnivariateOfEvals<T(!new)>(K: Field<T>, evals: seq<T>, x: T, n: nat)
    requires Lawful(K) && |evals| == Pow2(n)
    ensures [Eval(K, SubStages(K, evals, 0, n), x)] == FoldMany(K, evals, Squares(K, x, n))
    ensures |evals| == 1 <==> n == 0
    ensures n == 0 ==> Eval(K, SubStages(K, evals, 0, n), x) == evals[0]
  {
    EvaluationsAgree(K, evals, Squares(K, x, n));
    UnivariateIsMultilinear(K, SubStages(K, evals, 0, n), x, n);
    if n == 0 {
      assert evals[1..] == [];
      MulZero(K, x);
      AddZero(K, evals[0]);
    } else {
      Pow2Mono(0, n - 1);
    }
  }
}

/** The field laws have models: the real numbers, with every characteristic bound, and the field of two
    elements, where interpolation through three nodes is out of reach. */
module FieldInstances {
  import opened Fields
  import opened Interpolation

  function Plus(a: real, b: real): real { a + b }

  function Times(a: real, b: real): real { a * b }

  function Minus(a: real): real { 0.0 - a }

  function Reciprocal(a: real): real { if a == 0.0 then 0.0 else 1.0 / a }

  function Reals(): Field<real> {
    Field(0.0, 1.0, (a: real, b: real) => Plus(a, b), (a: real, b: real) => Times(a, b), (a: real) => Minus(a),
          (a: real) => Reciprocal(a))
  }

  lemma RealLaws(a: real, b: real, c: real)
    ensures Plus(a, b) == Plus(b, a) && Plus(Plus(a, b), c) == Plus(a, Plus(b, c)) && Plus(a, 0.0) == a &&
              Plus(a, Minus(a)) == 0.0
    ensures Times(a, b) == Times(b, a) && Times(Times(a, b), c) == Times(a, Times(b, c)) && Times(a, 1.0) == a
    ensures Times(a, Plus(b, c)) == Plus(Times(a, b), Times(a, c))
    ensures a != 0.0 ==> Times(a, Reciprocal(a)) == 1.0
  {
  }

  lemma RealsLawful()
    ensures Lawful(Reals())
  {
    hide Plus, Times, Minus, Reciprocal;
    var K := Reals();
    forall a: real, b: real, c: real {:trigger Cue(a, b, c)} | Cue(a, b, c)
      ensures K.Add(a, b) == K.Add(b, a) && K.Add(K.Add(a, b), c) == K.Add(a, K.Add(b, c)) && K.Add(a, K.zero) == a &&
                K.Add(a, K.Neg(a)) == K.zero
      ensures K.Mul(a, b) == K.Mul(b, a) && K.Mul(K.Mul(a, b), c) == K.Mul(a, K.Mul(b, c)) && K.Mul(a, K.one) == a
      ensures K.Mul(a, K.Add(b, c)) == K.Add(K.Mul(a, b), K.Mul(a, c))
      ensures a != K.zero ==> K.Mul(a, K.Inv(a)) == K.one
    {
      RealLaws(a, b, c);
    }
  }

  lemma {:induction false} RealNumerals(n: nat)
    ensures Reals().Num(n) == n as real
  {
    if n > 0 { RealNumerals(n - 1); }
  }

  lemma RealsCharacteristic(d: nat)
    ensures CharacteristicAbove(Reals(), d)
  {
    forall k: nat | 1 <= k <= d ensures NumeralNonZero(Reals(), k) { RealNumerals(k); }
  }

  function Bits(): Field<bool> {
    Field(false, true, (a: bool, b: bool) => a != b, (a: bool, b: bool) => a && b, (a: bool) => a, (a: bool) => a)
  }

  /** Two elements satisfy the laws, but 1 + 1 is zero, so only one node besides 0 is available. */
  lemma BitsLawful()
    ensures Lawful(Bits()) && CharacteristicAbove(Bits(), 1) && !CharacteristicAbove(Bits(), 2)
  {
    NumOne(Bits());
    assert Bits().Num(2) == Bits().Add(Bits().Num(1), Bits().one);
    assert !NumeralNonZero(Bits(), 2);
  }
}

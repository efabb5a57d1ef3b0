/**
 Floating-point values without rounding: every finite value is an exact real, and the
 infinities and NaN follow the IEEE 754 rules that the kernels rely on. The exponential and
 the logarithm are parameters; `Lawful` collects the laws that proofs may use about them.
 */
module Floats {
  datatype F = NaN | NegInf | Fin(r: real) | PosInf

  function Neg(x: F): F {
    match x
    case Fin(a) => Fin(-a)
    case NegInf => PosInf
    case PosInf => NegInf
    case NaN => NaN
  }

  function Add(x: F, y: F): F {
    if x.NaN? || y.NaN? then NaN
    else if x.Fin? && y.Fin? then Fin(x.r + y.r)
    else if x.Fin? then y
    else if y.Fin? || x == y then x
    else NaN
  }

  function Sub(x: F, y: F): F {
    Add(x, Neg(y))
  }

  predicate Positive(x: F) {
    x.PosInf? || (x.Fin? && x.r > 0.0)
  }

  /** The product; an infinity times zero is NaN. */
  function Mul(x: F, y: F): F {
    if x.NaN? || y.NaN? then NaN
    else if x.Fin? && y.Fin? then Fin(x.r * y.r)
    else if x == Fin(0.0) || y == Fin(0.0) then NaN
    else if Positive(x) == Positive(y) then PosInf
    else NegInf
  }

  /** CUDA's `max` on floats, which drops a NaN operand. */
  function Max(x: F, y: F): F {
    match (x, y)
    case (NaN, _) => y
    case (_, NaN) => x
    case (NegInf, _) => y
    case (_, NegInf) => x
    case (PosInf, _) => PosInf
    case (_, PosInf) => PosInf
    case (Fin(a), Fin(b)) => if a < b then y else x
  }

  /** `1 / x` for an `x` that is neither zero nor NaN. */
  function Recip(x: F): F
    requires !x.NaN? && x != Fin(0.0)
  {
    if x.Fin? then Fin(1.0 / x.r) else Fin(0.0)
  }

  lemma NeutralIsOne(p: real, x: real)
    requires x > 0.0 && p * x == x
    ensures p == 1.0
  {
    assert (p - 1.0) * x == 0.0;
  }

  /** The functions of the device math library. */
  datatype Transcendental = Transcendental(exp2: real -> real, log: real -> real, log2e: real) {

    function Exp2(x: real): real {
      exp2(x)
    }

    function ToBase2(x: real): real {
      x * log2e
    }

    /** `exp(x)`, by way of base 2 as the kernels compute it. */
    function Exp(x: real): real {
      Exp2(ToBase2(x))
    }

    function Log(y: real): real {
      log(y)
    }

    ghost predicate ExpAdds(x: real, y: real) {
      Exp2(x + y) == Exp2(x) * Exp2(y)
    }

    ghost predicate ExpPositive(x: real) {
      Exp2(x) > 0.0
    }

    ghost predicate LogUndoesExp(x: real) {
      Log(Exp(x)) == x
    }

    ghost predicate ExpUndoesLog(y: real) {
      y > 0.0 ==> Exp(Log(y)) == y
    }

    ghost predicate Lawful() {
      && log2e > 0.0
      && (forall x: real, y: real :: ExpAdds(x, y))
      && (forall x: real :: ExpPositive(x))
      && (forall x: real :: LogUndoesExp(x))
      && (forall y: real :: ExpUndoesLog(y))
    }

    function Exp2F(x: F): F {
      match x
      case Fin(a) => Fin(Exp2(a))
      case NegInf => Fin(0.0)
      case PosInf => PosInf
      case NaN => NaN
    }

    function ExpF(x: F): F {
      match x
      case Fin(a) => Fin(Exp(a))
      case NegInf => Fin(0.0)
      case PosInf => PosInf
      case NaN => NaN
    }

    function LogF(x: F): F {
      match x
      case Fin(a) => if a > 0.0 then Fin(Log(a)) else if a == 0.0 then NegInf else NaN
      case PosInf => PosInf
      case NegInf => NaN
      case NaN => NaN
    }

    lemma ToBase2Adds(x: real, y: real)
      ensures ToBase2(x + y) == ToBase2(x) + ToBase2(y)
    {
    }

    lemma ExpSum(x: real, y: real)
      requires Lawful()
      ensures Exp(x + y) == Exp(x) * Exp(y)
    {
      ToBase2Adds(x, y);
      assert ExpAdds(ToBase2(x), ToBase2(y));
    }

    lemma ExpIsPositive(x: real)
      requires Lawful()
      ensures Exp(x) > 0.0
    {
      assert ExpPositive(ToBase2(x));
    }

    lemma ExpInverse(x: real)
      requires Lawful()
      ensures Exp(x) * Exp(-x) == 1.0
    {
      var z := x + -x;
      ExpSum(x, -x);
      ExpSum(z, x);
      ExpIsPositive(x);
      assert z + x == x;
      assert Exp(z + x) == Exp(x);
      NeutralIsOne(Exp(z), Exp(x));
    }

    /** The logarithm turns a product with an exponential into a sum. */
    lemma LogOfScaled(x: real, y: real, z: real)
      requires Lawful() && y > 0.0 && z == Exp(x) * y
      ensures z > 0.0 && Log(z) == x + Log(y)
    {
      ExpIsPositive(x);
      assert ExpUndoesLog(y);
      ExpSum(x, Log(y));
      assert z == Exp(x + Log(y));
      assert LogUndoesExp(x + Log(y));
    }
  }
}

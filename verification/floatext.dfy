/**
  * The float64 special values the script relies on, over exact reals: a value is
  * finite, +inf, -inf or NaN. Only the operations the script applies are given,
  * each with the IEEE 754 outcome for the special operands (rounding is not modelled).
  */
module FloatExt {

  datatype Ext = Fin(v: real) | PosInf | NegInf | NaN

  /**
    * IEEE division of a finite numerator by a finite denominator. A zero
    * denominator is taken to be +0 (the sign an exact cancellation produces):
    * a positive numerator gives +inf, a negative one -inf and zero gives NaN.
    */
  function Div(a: real, d: real): (q: Ext)
    ensures q.Fin? <==> d != 0.0
    ensures q.Fin? ==> q.v * d == a
    ensures q == NaN <==> d == 0.0 && a == 0.0
    ensures q == PosInf <==> d == 0.0 && a > 0.0
  {
    if d != 0.0 then Fin(a / d)
    else if a > 0.0 then PosInf
    else if a < 0.0 then NegInf
    else NaN
  }

  /** `k * e + c` for finite constants `k` and `c` (0 * inf is NaN). */
  function MulAdd(k: real, e: Ext, c: real): (r: Ext)
    ensures r.Fin? <==> e.Fin?
    ensures e.Fin? ==> r.v == k * e.v + c
    ensures r == NaN <==> e == NaN || (k == 0.0 && !e.Fin?)
    ensures k < 0.0 && e == PosInf ==> r == NegInf
    ensures k < 0.0 && e == NegInf ==> r == PosInf
    ensures k > 0.0 && (e == PosInf || e == NegInf) ==> r == e
  {
    match e
    case Fin(v) => Fin(k * v + c)
    case PosInf => if k > 0.0 then PosInf else if k < 0.0 then NegInf else NaN
    case NegInf => if k > 0.0 then NegInf else if k < 0.0 then PosInf else NaN
    case NaN => NaN
  }

  /** IEEE `a > b`: false whenever either operand is NaN. */
  predicate Gt(a: Ext, b: Ext)
    ensures Gt(a, b) ==> a != NaN && b != NaN && a != NegInf && b != PosInf
  {
    match (a, b)
    case (NaN, _) => false
    case (_, NaN) => false
    case (PosInf, PosInf) => false
    case (PosInf, _) => true
    case (NegInf, _) => false
    case (Fin(_), PosInf) => false
    case (Fin(_), NegInf) => true
    case (Fin(x), Fin(y)) => x > y
  }

  /** `>` is a strict order on the non-NaN values: irreflexive and transitive, with -inf below and +inf above every finite value. */
  lemma GtStrictOrder(a: Ext, b: Ext, c: Ext)
    ensures !Gt(a, a)
    ensures Gt(a, b) && Gt(b, c) ==> Gt(a, c)
    ensures Gt(a, b) ==> !Gt(b, a)
    ensures a.Fin? ==> Gt(PosInf, a) && Gt(a, NegInf)
  {
  }

  /** IEEE `a <= b`: neither operand is NaN and `a > b` does not hold. */
  predicate Le(a: Ext, b: Ext)
    ensures Le(a, b) ==> a != NaN && b != NaN
    ensures a.Fin? && b.Fin? ==> (Le(a, b) <==> a.v <= b.v)
  {
    a != NaN && b != NaN && !Gt(a, b)
  }

  /** IEEE `a >= b`. */
  predicate Ge(a: Ext, b: Ext)
    ensures Ge(a, b) ==> a != NaN && b != NaN
    ensures a.Fin? && b.Fin? ==> (Ge(a, b) <==> a.v >= b.v)
  {
    Le(b, a)
  }

  /** Every comparison with NaN is false, which is what lets the script use NaN to exempt a pixel. */
  lemma NaNComparesFalse(e: Ext)
    ensures !Gt(e, NaN) && !Gt(NaN, e) && !Le(e, NaN) && !Le(NaN, e) && !Ge(e, NaN) && !Ge(NaN, e)
  {
  }

  /** On finite operands the comparisons are those of the reals. */
  lemma FiniteComparisons(x: real, y: real)
    ensures Gt(Fin(x), Fin(y)) <==> x > y
    ensures Le(Fin(x), Fin(y)) <==> x <= y
    ensures Ge(Fin(x), Fin(y)) <==> x >= y
  {
  }
}

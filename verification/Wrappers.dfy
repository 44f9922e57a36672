/** Optional values, outcomes, and JavaScript numbers. */
module Wrappers {

  /** A value that may be absent: the source's `null` and `undefined`. */
  datatype Option<+T> = None | Some(value: T) {
    function GetOr(default: T): T {
      match this
      case Some(v) => v
      case None => default
    }
  }

  /** A value, or the error a validation step throws. */
  datatype Result<+T, +E> = Success(value: T) | Failure(error: E)

  /** A JavaScript number, its finite values exact. */
  datatype Number = NaN | NegInf | Num(value: real) | PosInf {

    /** `this - that`. */
    function Minus(that: Number): Number {
      match (this, that)
      case (NaN, _) => NaN
      case (_, NaN) => NaN
      case (Num(a), Num(b)) => Num(a - b)
      case (PosInf, PosInf) => NaN
      case (NegInf, NegInf) => NaN
      case (PosInf, _) => PosInf
      case (NegInf, _) => NegInf
      case (_, PosInf) => NegInf
      case (_, NegInf) => PosInf
    }

    /** `this || that`. */
    function Or(that: Number): Number {
      if NaN? || this == Num(0.0) then that else this
    }

    /** `this < that`. */
    predicate Less(that: Number) {
      match (this, that)
      case (NaN, _) => false
      case (_, NaN) => false
      case (Num(a), Num(b)) => a < b
      case (NegInf, _) => !that.NegInf?
      case (_, PosInf) => !PosInf?
      case _ => false
    }
  }

  /** The sign of a difference is the order, except that it cannot tell equal infinities apart from no numbers. */
  lemma MinusOrders(x: Number, y: Number)
    ensures x.Less(y) <==> x.Minus(y).NegInf? || (x.Minus(y).Num? && x.Minus(y).value < 0.0)
    ensures x.Minus(y).Or(NaN).NaN? <==> x.NaN? || y.NaN? || x == y
  {
  }

  /** `Number` on text, left abstract. */
  type Reader = string -> Number
}

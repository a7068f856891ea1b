/**
 * Integers extended with the two infinities. The search uses Python's
 * `float('-inf')` and `float('inf')` only as sentinels: as the initial
 * best value of a node and as the root window of alpha-beta. Every other
 * value it compares is an integer disk differential.
 */
module ExtendedInt {

  datatype ExtInt = NegInf | Fin(n: int) | PosInf {

    /** Strict order: -inf < every integer < +inf. */
    predicate Lt(other: ExtInt) {
      match this
      case NegInf => !other.NegInf?
      case Fin(a) => other.PosInf? || (other.Fin? && a < other.n)
      case PosInf => false
    }

    predicate Le(other: ExtInt) {
      this == other || Lt(other)
    }

    function Max(other: ExtInt): (r: ExtInt)
      ensures Le(r) && other.Le(r)
      ensures r == this || r == other
    {
      if Lt(other) then other else this
    }

    function Min(other: ExtInt): (r: ExtInt)
      ensures r.Le(this) && r.Le(other)
      ensures r == this || r == other
    {
      if Lt(other) then this else other
    }
  }

  lemma LeTrans(x: ExtInt, y: ExtInt, z: ExtInt)
    requires x.Le(y) && y.Le(z)
    ensures x.Le(z)
  {
  }

  lemma LtLeTrans(x: ExtInt, y: ExtInt, z: ExtInt)
    requires (x.Lt(y) && y.Le(z)) || (x.Le(y) && y.Lt(z))
    ensures x.Lt(z)
  {
  }

  /** The order is total: of two values one is at most the other. */
  lemma NotLtIsLe(x: ExtInt, y: ExtInt)
    ensures !x.Lt(y) <==> y.Le(x)
  {
  }
}

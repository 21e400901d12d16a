/** Weights and distances of a topology: a finite real, or infinity. */
module Weights {

  datatype Dist = Fin(v: real) | Inf {
    function Plus(o: Dist): Dist {
      if Fin? && o.Fin? then Fin(v + o.v) else Inf
    }

    predicate Less(o: Dist) {
      Fin? && (o.Inf? || v < o.v)
    }

    predicate AtMost(o: Dist) {
      o.Inf? || (Fin? && v <= o.v)
    }
  }

  const ZERO := Fin(0.0)
}

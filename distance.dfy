/** A distance between two points, kept in kilometres (Distance.ts). */
module Distance {

  /** An immutable distance; the only unit so far is the kilometre. */
  datatype Distance = Distance(distanceInKm: real) {

    /** The `km` getter. */
    function Km(): real {
      distanceInKm
    }

    /** `lessThan`: this distance is strictly shorter than `other`. */
    predicate LessThan(other: Distance) {
      Km() < other.Km()
    }
  }

  /** `Distance.newKm`: a distance of `distance` kilometres. */
  function NewKm(distance: real): (r: Distance)
    ensures r.Km() == distance
  {
    Distance(distance)
  }

  /** Distances built by `NewKm` compare as their kilometre values do. */
  lemma NewKmLessThan(x: real, y: real)
    ensures NewKm(x).LessThan(NewKm(y)) <==> x < y
  {
  }

  /** `lessThan` is a strict order: irreflexive, asymmetric, transitive. */
  lemma LessThanIrreflexive(a: Distance)
    ensures !a.LessThan(a)
  {
  }

  lemma LessThanAsymmetric(a: Distance, b: Distance)
    ensures !(a.LessThan(b) && b.LessThan(a))
  {
  }

  lemma LessThanTransitive(a: Distance, b: Distance, c: Distance)
    requires a.LessThan(b) && b.LessThan(c)
    ensures a.LessThan(c)
  {
  }

  /** Any two distances are comparable: one is shorter or they are equal. */
  lemma LessThanTotal(a: Distance, b: Distance)
    ensures a.LessThan(b) || b.LessThan(a) || a == b
  {
  }
}

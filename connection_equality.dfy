/** The equality of both connection structs (FTerrainGraphConnection and
    FTerrainMapConnection): two connections are equal when their endpoints match
    position by position or crosswise, so a connection is an unordered pair. */
module ConnectionEquality {

  /** operator== on connections (a1, a2) and (b1, b2). */
  predicate SameEndpoints(a1: int, a2: int, b1: int, b2: int) {
    (a1 == b1 && a2 == b2) || (a1 == b2 && a2 == b1)
  }

  /** Two connections compare equal exactly when they have the same set of endpoints. */
  lemma SameEndpointsIsSetEquality(a1: int, a2: int, b1: int, b2: int)
    ensures SameEndpoints(a1, a2, b1, b2) <==> {a1, a2} == {b1, b2}
  {
    if {a1, a2} == {b1, b2} {
      assert a1 in {b1, b2} && a2 in {b1, b2};
      assert b1 in {a1, a2} && b2 in {a1, a2};
    }
  }

  lemma SameEndpointsIgnoresOrder(e1: int, e2: int)
    ensures SameEndpoints(e1, e2, e2, e1)
  {
  }

  lemma SameEndpointsReflexive(e1: int, e2: int)
    ensures SameEndpoints(e1, e2, e1, e2)
  {
  }

  lemma SameEndpointsSymmetric(a1: int, a2: int, b1: int, b2: int)
    ensures SameEndpoints(a1, a2, b1, b2) <==> SameEndpoints(b1, b2, a1, a2)
  {
  }

  lemma SameEndpointsTransitive(a1: int, a2: int, b1: int, b2: int, c1: int, c2: int)
    requires SameEndpoints(a1, a2, b1, b2) && SameEndpoints(b1, b2, c1, c2)
    ensures SameEndpoints(a1, a2, c1, c2)
  {
  }
}

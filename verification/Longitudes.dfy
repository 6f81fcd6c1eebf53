/** Longitudes in degrees: equal up to whole turns, and arcs of them. */
module Longitudes {

  /** From `start` eastwards to `end`. */
  datatype Arc = Arc(start: real, end: real)

  function Turns(k: int): real {
    360.0 * (k as real)
  }

  /** The same longitude. */
  ghost predicate Congruent(x: real, y: real) {
    exists k: int :: x == y + Turns(k)
  }

  lemma CongruentSelf(x: real)
    ensures Congruent(x, x)
  {
    assert x == x + Turns(0);
  }

  lemma CongruentAdd(x: real, y: real, d: real, e: real)
    requires Congruent(x, y) && Congruent(d, e)
    ensures Congruent(x + d, y + e)
  {
    var j: int :| x == y + Turns(j);
    var k: int :| d == e + Turns(k);
    assert x + d == (y + e) + Turns(j + k);
  }

  lemma CongruentTurns(x: real, y: real, k: int)
    requires Congruent(x, y)
    ensures Congruent(x + Turns(k), y)
  {
    var j: int :| x == y + Turns(j);
    assert x + Turns(k) == y + Turns(j + k);
  }

  lemma WholeTurnOrNone(k: int)
    ensures k == 0 <==> Turns(k) == 0.0
    ensures k > 0 ==> Turns(k) >= 360.0
    ensures k < 0 ==> Turns(k) <= -360.0
  {
  }

  /** The remainder of a division by a whole turn, in [0, 360). */
  function RemEuclid(d: real): real {
    d - Turns((d / 360.0).Floor)
  }

  lemma RemEuclidFacts(d: real)
    ensures 0.0 <= RemEuclid(d) < 360.0
    ensures Congruent(RemEuclid(d), d)
  {
    var k := (d / 360.0).Floor;
    assert RemEuclid(d) == d + Turns(-k);
  }

  /** A longitude difference in (-180, 180]. */
  function Wrap(d: real): real {
    var w := RemEuclid(d);
    if w > 180.0 then w - 360.0 else w
  }

  /** Wrapping keeps the difference up to whole turns, and is the only value in
      its range that does. */
  lemma WrapFacts(d: real)
    ensures -180.0 < Wrap(d) <= 180.0
    ensures Congruent(Wrap(d), d)
    ensures forall w: real :: -180.0 < w <= 180.0 && Congruent(w, d) ==> w == Wrap(d)
  {
    RemEuclidFacts(d);
    var k: int :| RemEuclid(d) == d + Turns(k);
    assert RemEuclid(d) - 360.0 == d + Turns(k - 1);
    var l: int :| Wrap(d) == d + Turns(l);
    forall w: real | -180.0 < w <= 180.0 && Congruent(w, d) ensures w == Wrap(d) {
      var m: int :| w == d + Turns(m);
      assert w - Wrap(d) == Turns(m - l);
      WholeTurnOrNone(m - l);
    }
  }
}

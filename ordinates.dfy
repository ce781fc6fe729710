/** The envelope algebra on the flat ordinate layout that `GeneralEnvelope`
    keeps in its `ordinates` array and that the R-tree helpers pass around as
    `double[]`: for an envelope of dimension `d` the first `d` values are the
    minima and the last `d` values the maxima.  Ordinates are `real`, so the
    NaN and infinity cases of the Java code do not arise. */
module Ordinates {

  /** The exceptions thrown by the envelope code. */
  datatype EnvelopeError =
    | MismatchedDimension(expected: int, found: int)  // MismatchedDimensionException
    | IllegalOrdinate(axis: nat)                      // a minimum above its maximum
    | IndexOutOfBounds(index: int)                    // IndexOutOfBoundsException
    | OddArrayLength(length: nat)                     // setEnvelope with an odd count
    | BoundOutOfRange(argument: string, value: int)   // IndexOutOfBoundsException of getSubEnvelope
    | UnbalancedParenthesis(missing: char)            // WKT parenthesis or bracket
    | NumberFormat(text: string)                      // NumberFormatException

  /** The dimension of an ordinate array, `ordinates.length / 2`. */
  function Dim(o: seq<real>): nat { |o| / 2 }

  predicate Even(o: seq<real>) { |o| % 2 == 0 }

  /** The minimum along axis `i`. */
  function Lo(o: seq<real>, i: nat): real
    requires i < Dim(o)
  {
    o[i]
  }

  /** The maximum along axis `i`. */
  function Hi(o: seq<real>, i: nat): real
    requires i < Dim(o)
  {
    o[i + Dim(o)]
  }

  /** The ordinate array of the envelope with corners `lows` and `highs`. */
  function Box(lows: seq<real>, highs: seq<real>): (o: seq<real>)
    requires |lows| == |highs|
    ensures Even(o) && Dim(o) == |lows|
    ensures forall i :: 0 <= i < |lows| ==> Lo(o, i) == lows[i] && Hi(o, i) == highs[i]
  {
    lows + highs
  }

  /** What `checkCoordinates` accepts: no minimum above its maximum. */
  predicate Ordered(o: seq<real>) {
    forall i :: 0 <= i < Dim(o) ==> Lo(o, i) <= Hi(o, i)
  }

  /** The class invariant of a legal envelope. */
  predicate Legal(o: seq<real>) { Even(o) && Ordered(o) }

  /** `i` is the first axis whose minimum exceeds its maximum, the one
      `checkCoordinates` reports. */
  predicate FirstDisordered(o: seq<real>, i: nat) {
    && i < Dim(o)
    && Lo(o, i) > Hi(o, i)
    && forall j :: 0 <= j < i ==> Lo(o, j) <= Hi(o, j)
  }

  function Min(x: real, y: real): real { if y < x then y else x }
  function Max(x: real, y: real): real { if y > x then y else x }

  /** `a` is below `b`, inclusively or strictly. */
  predicate Below(a: real, b: real, inclusive: bool) {
    if inclusive then a <= b else a < b
  }

  function Span(o: seq<real>, i: nat): real
    requires i < Dim(o)
  {
    Hi(o, i) - Lo(o, i)
  }

  function Median(o: seq<real>, i: nat): real
    requires i < Dim(o)
  {
    0.5 * (Lo(o, i) + Hi(o, i))
  }

  /** An envelope is empty when it has no dimension or no positive span
      along some axis. */
  predicate IsEmpty(o: seq<real>) {
    Dim(o) == 0 || exists i :: 0 <= i < Dim(o) && !(Lo(o, i) < Hi(o, i))
  }

  /** The point `p` lies in the envelope `o`, edges included. */
  predicate ContainsPoint(o: seq<real>, p: seq<real>)
    requires |p| == Dim(o)
  {
    forall i :: 0 <= i < Dim(o) ==> Lo(o, i) <= p[i] && p[i] <= Hi(o, i)
  }

  /** The envelope `o` encloses the envelope `e`. */
  predicate Contains(o: seq<real>, e: seq<real>, inclusive: bool)
    requires |e| == |o|
  {
    forall i :: 0 <= i < Dim(o) ==>
      Below(Lo(o, i), Lo(e, i), inclusive) && Below(Hi(e, i), Hi(o, i), inclusive)
  }

  /** The envelopes `o` and `e` overlap. */
  predicate Intersects(o: seq<real>, e: seq<real>, inclusive: bool)
    requires |e| == |o|
  {
    forall i :: 0 <= i < Dim(o) ==>
      Below(Lo(o, i), Hi(e, i), inclusive) && Below(Lo(e, i), Hi(o, i), inclusive)
  }

  /** The ordinates after adding the envelope `e`: each minimum lowered to
      `e`'s, each maximum raised to `e`'s. */
  function Union(o: seq<real>, e: seq<real>): (r: seq<real>)
    requires Even(o) && |e| == |o|
    ensures |r| == |o|
    ensures forall i :: 0 <= i < Dim(o) ==>
      Lo(r, i) == Min(Lo(o, i), Lo(e, i)) && Hi(r, i) == Max(Hi(o, i), Hi(e, i))
  {
    Box(seq(Dim(o), i requires 0 <= i < Dim(o) => Min(Lo(o, i), Lo(e, i))),
        seq(Dim(o), i requires 0 <= i < Dim(o) => Max(Hi(o, i), Hi(e, i))))
  }

  /** The ordinates after adding the point `p`. */
  function AddPoint(o: seq<real>, p: seq<real>): (r: seq<real>)
    requires Even(o) && |p| == Dim(o)
    ensures |r| == |o|
    ensures forall i :: 0 <= i < Dim(o) ==> Lo(r, i) == Min(Lo(o, i), p[i]) && Hi(r, i) == Max(Hi(o, i), p[i])
  {
    Box(seq(Dim(o), i requires 0 <= i < Dim(o) => Min(Lo(o, i), p[i])),
        seq(Dim(o), i requires 0 <= i < Dim(o) => Max(Hi(o, i), p[i])))
  }

  /** The range stored for a requested `[lo, hi]`: an inverted range becomes
      the empty range at its midpoint. */
  function LegalRange(lo: real, hi: real): (r: (real, real))
    ensures r.0 <= r.1
    ensures lo <= hi ==> r == (lo, hi)
    ensures lo > hi ==> r.0 == r.1 && lo > r.0 > hi
  {
    if lo > hi then (0.5 * (lo + hi), 0.5 * (lo + hi)) else (lo, hi)
  }

  /** The ordinates with axis `d` set to `[lo, hi]`. */
  function WithAxis(o: seq<real>, d: nat, lo: real, hi: real): seq<real>
    requires Even(o) && d < Dim(o)
  {
    o[d := lo][d + Dim(o) := hi]
  }

  /** The range that `intersect` stores on axis `i`. */
  function MeetRange(o: seq<real>, e: seq<real>, i: nat): (real, real)
    requires |e| == |o| && i < Dim(o)
  {
    LegalRange(Max(Lo(o, i), Lo(e, i)), Min(Hi(o, i), Hi(e, i)))
  }

  /** The ordinates after intersecting with `e`, axis by axis. */
  function Intersection(o: seq<real>, e: seq<real>): (r: seq<real>)
    requires Even(o) && |e| == |o|
    ensures |r| == |o|
    ensures forall i :: 0 <= i < Dim(o) ==> Lo(r, i) == MeetRange(o, e, i).0 && Hi(r, i) == MeetRange(o, e, i).1
  {
    Box(seq(Dim(o), i requires 0 <= i < Dim(o) => MeetRange(o, e, i).0),
        seq(Dim(o), i requires 0 <= i < Dim(o) => MeetRange(o, e, i).1))
  }

  /** The ordinates of the axes `lower` up to `upper - 1`. */
  function SubOrdinates(o: seq<real>, lower: nat, upper: nat): seq<real>
    requires Even(o) && lower <= upper <= Dim(o)
  {
    o[lower..upper] + o[lower + Dim(o)..upper + Dim(o)]
  }

  // ---------------------------------------------------------------------
  // Properties

  /** Adding an envelope only lowers minima and raises maxima, keeps the
      envelope legal, and yields the smallest envelope enclosing both. */
  lemma UnionIsLeastEnclosing(o: seq<real>, e: seq<real>)
    requires Even(o) && |e| == |o|
    ensures Dim(Union(o, e)) == Dim(o)
    ensures forall i :: 0 <= i < Dim(o) ==>
      Lo(Union(o, e), i) <= Lo(o, i) && Hi(Union(o, e), i) >= Hi(o, i)
    ensures Legal(o) ==> Legal(Union(o, e))
    ensures Contains(Union(o, e), o, true) && Contains(Union(o, e), e, true)
    ensures forall b :: |b| == |o| && Contains(b, o, true) && Contains(b, e, true) ==>
      Contains(b, Union(o, e), true)
  {
  }

  /** Adding a point yields the smallest envelope enclosing the old envelope
      and the point. */
  lemma AddPointIsLeastEnclosing(o: seq<real>, p: seq<real>)
    requires Even(o) && |p| == Dim(o)
    ensures Dim(AddPoint(o, p)) == Dim(o)
    ensures forall i :: 0 <= i < Dim(o) ==>
      Lo(AddPoint(o, p), i) <= Lo(o, i) && Hi(AddPoint(o, p), i) >= Hi(o, i)
    ensures Legal(o) ==> Legal(AddPoint(o, p))
    ensures ContainsPoint(AddPoint(o, p), p) && Contains(AddPoint(o, p), o, true)
    ensures forall b :: |b| == |o| && Contains(b, o, true) && ContainsPoint(b, p) ==>
      Contains(b, AddPoint(o, p), true)
  {
  }

  /** The union does not depend on the order of its operands. */
  lemma UnionCommutes(a: seq<real>, b: seq<real>)
    requires Even(a) && |b| == |a|
    ensures Union(a, b) == Union(b, a)
  {
    var ab, ba := Union(a, b), Union(b, a);
    forall i | 0 <= i < Dim(a) ensures Lo(ab, i) == Lo(ba, i) && Hi(ab, i) == Hi(ba, i) { }
    SameOrdinatesIffSameAxes(ab, ba);
  }

  /** Adding an envelope that is already enclosed changes nothing; in
      particular adding an envelope twice, or to itself, is the same as once. */
  lemma UnionAbsorbsEnclosed(a: seq<real>, b: seq<real>)
    requires Even(a) && |b| == |a|
    ensures Contains(a, b, true) ==> Union(a, b) == a
    ensures Union(Union(a, b), b) == Union(a, b)
  {
    var ab := Union(a, b);
    if Contains(a, b, true) {
      forall i | 0 <= i < Dim(a) ensures Lo(ab, i) == Lo(a, i) && Hi(ab, i) == Hi(a, i) { }
      SameOrdinatesIffSameAxes(ab, a);
    }
    UnionIsLeastEnclosing(a, b);
    var abb := Union(ab, b);
    forall i | 0 <= i < Dim(a) ensures Lo(abb, i) == Lo(ab, i) && Hi(abb, i) == Hi(ab, i) { }
    SameOrdinatesIffSameAxes(abb, ab);
  }

  /** A legal envelope enclosed by `o` also intersects it, with the same
      edge rule. */
  lemma ContainsImpliesIntersects(o: seq<real>, e: seq<real>, inclusive: bool)
    requires Even(o) && |e| == |o| && Ordered(e)
    ensures Contains(o, e, inclusive) ==> Intersects(o, e, inclusive)
  {
  }

  /** Strict containment implies inclusive containment, and likewise for
      intersection. */
  lemma StrictImpliesInclusive(o: seq<real>, e: seq<real>)
    requires |e| == |o|
    ensures Contains(o, e, false) ==> Contains(o, e, true)
    ensures Intersects(o, e, false) ==> Intersects(o, e, true)
  {
  }

  /** The intersection is always legal; for two legal overlapping envelopes
      it is the largest envelope enclosed by both, and a point lies in it
      exactly when it lies in both. */
  lemma IntersectionIsGreatestEnclosed(o: seq<real>, e: seq<real>)
    requires Even(o) && |e| == |o|
    ensures Legal(Intersection(o, e))
    ensures Legal(o) && Legal(e) && Intersects(o, e, true) ==>
      && Contains(o, Intersection(o, e), true)
      && Contains(e, Intersection(o, e), true)
      && (forall b :: |b| == |o| && Contains(o, b, true) && Contains(e, b, true) ==>
            Contains(Intersection(o, e), b, true))
      && (forall p :: |p| == Dim(o) ==>
            (ContainsPoint(Intersection(o, e), p) <==> ContainsPoint(o, p) && ContainsPoint(e, p)))
  {
    var r := Intersection(o, e);
    if Legal(o) && Legal(e) && Intersects(o, e, true) {
      forall i | 0 <= i < Dim(o)
        ensures Lo(r, i) == Max(Lo(o, i), Lo(e, i)) && Hi(r, i) == Min(Hi(o, i), Hi(e, i))
      {
        assert Max(Lo(o, i), Lo(e, i)) <= Min(Hi(o, i), Hi(e, i));
      }
    }
  }

  /** `WithAxis` changes axis `d` alone. */
  lemma WithAxisAxes(o: seq<real>, d: nat, lo: real, hi: real)
    requires Even(o) && d < Dim(o)
    ensures Even(WithAxis(o, d, lo, hi)) && Dim(WithAxis(o, d, lo, hi)) == Dim(o)
    ensures forall i :: 0 <= i < Dim(o) ==>
      && Lo(WithAxis(o, d, lo, hi), i) == (if i == d then lo else Lo(o, i))
      && Hi(WithAxis(o, d, lo, hi), i) == (if i == d then hi else Hi(o, i))
  {
    var r := WithAxis(o, d, lo, hi);
    assert Dim(r) == Dim(o);
    forall i | 0 <= i < Dim(o)
      ensures Lo(r, i) == (if i == d then lo else Lo(o, i))
      ensures Hi(r, i) == (if i == d then hi else Hi(o, i))
    {
    }
  }

  /** Setting a range keeps the envelope legal, stores a legal range on that
      axis and leaves every other axis as it was. */
  lemma WithRangeKeepsOtherAxes(o: seq<real>, d: nat, lo: real, hi: real)
    requires Legal(o) && d < Dim(o)
    ensures var r := WithAxis(o, d, LegalRange(lo, hi).0, LegalRange(lo, hi).1);
      && Legal(r) && Dim(r) == Dim(o)
      && Lo(r, d) <= Hi(r, d)
      && (lo <= hi ==> Lo(r, d) == lo && Hi(r, d) == hi)
      && (lo > hi ==> Lo(r, d) == Hi(r, d) == 0.5 * (lo + hi))
      && (forall i :: 0 <= i < Dim(o) && i != d ==> Lo(r, i) == Lo(o, i) && Hi(r, i) == Hi(o, i))
  {
    var r := WithAxis(o, d, LegalRange(lo, hi).0, LegalRange(lo, hi).1);
    assert Dim(r) == Dim(o);
    forall i | 0 <= i < Dim(o) && i != d
      ensures Lo(r, i) == Lo(o, i) && Hi(r, i) == Hi(o, i)
    {
    }
  }

  /** A sub-envelope has dimension `upper - lower`, its axis `i` is axis
      `lower + i` of the original, and it is legal when the original is. */
  lemma SubOrdinatesAxes(o: seq<real>, lower: nat, upper: nat)
    requires Even(o) && lower <= upper <= Dim(o)
    ensures Even(SubOrdinates(o, lower, upper))
    ensures Dim(SubOrdinates(o, lower, upper)) == upper - lower
    ensures forall i :: 0 <= i < upper - lower ==>
      && Lo(SubOrdinates(o, lower, upper), i) == Lo(o, lower + i)
      && Hi(SubOrdinates(o, lower, upper), i) == Hi(o, lower + i)
    ensures Ordered(o) ==> Ordered(SubOrdinates(o, lower, upper))
  {
    var s := SubOrdinates(o, lower, upper);
    var n := upper - lower;
    assert |s| == 2 * n;
    forall i | 0 <= i < n
      ensures Lo(s, i) == Lo(o, lower + i) && Hi(s, i) == Hi(o, lower + i)
    {
      assert s[i + n] == o[lower + Dim(o)..upper + Dim(o)][i];
    }
  }

  /** In a legal envelope spans are never negative, the median lies halfway
      between the bounds, and emptiness means a zero span somewhere. */
  lemma SpanAndMedian(o: seq<real>, i: nat)
    requires Legal(o) && i < Dim(o)
    ensures Span(o, i) >= 0.0
    ensures Lo(o, i) + Span(o, i) == Hi(o, i)
    ensures Lo(o, i) <= Median(o, i) <= Hi(o, i)
    ensures Median(o, i) - Lo(o, i) == Hi(o, i) - Median(o, i)
  {
  }

  lemma IsEmptyMeansZeroSpan(o: seq<real>)
    requires Legal(o)
    ensures IsEmpty(o) <==> Dim(o) == 0 || exists i :: 0 <= i < Dim(o) && Span(o, i) == 0.0
  {
    if Dim(o) > 0 && IsEmpty(o) {
      var i :| 0 <= i < Dim(o) && !(Lo(o, i) < Hi(o, i));
      assert Span(o, i) == 0.0;
    }
  }

  /** Two ordinate arrays are equal exactly when they have the same
      dimension and the same bounds on every axis. */
  lemma SameOrdinatesIffSameAxes(a: seq<real>, b: seq<real>)
    requires Even(a) && Even(b)
    ensures a == b <==>
      && Dim(a) == Dim(b)
      && forall i :: 0 <= i < Dim(a) ==> Lo(a, i) == Lo(b, i) && Hi(a, i) == Hi(b, i)
  {
    if Dim(a) == Dim(b) && forall i :: 0 <= i < Dim(a) ==> Lo(a, i) == Lo(b, i) && Hi(a, i) == Hi(b, i) {
      forall k | 0 <= k < |a| ensures a[k] == b[k] {
        if k >= Dim(a) {
          assert Hi(a, k - Dim(a)) == Hi(b, k - Dim(a));
        } else {
          assert Lo(a, k) == Lo(b, k);
        }
      }
    }
  }
}

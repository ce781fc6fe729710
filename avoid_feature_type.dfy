/** The route-avoidance feature of an OpenLS 1.2.1 route request: an
    enumeration coded as the XML strings "Highway" and "Tollway". */
module AvoidFeatureTypes {
  import opened Outcomes

  datatype AvoidFeatureType = Highway | Tollway

  /** The `IllegalArgumentException` of `fromValue`, carrying the string
      that was refused. */
  datatype CodecError = IllegalArgument(v: string)

  /** `values()`: the constants in declaration order. */
  const Values: seq<AvoidFeatureType> := [Highway, Tollway]

  /** `value()`: the XML string of a constant. */
  function Value(c: AvoidFeatureType): (s: string)
    ensures s == "Highway" || s == "Tollway"
    ensures c.Highway? <==> s == "Highway"
  {
    match c
    case Highway => "Highway"
    case Tollway => "Tollway"
  }

  /** `fromValue`: the constant whose string equals `v` exactly, or the
      error naming `v` when there is none. */
  method FromValue(v: string) returns (r: Result<AvoidFeatureType, CodecError>)
    ensures r.Success? ==> Value(r.value) == v
    ensures forall c :: Value(c) == v ==> r == Success(c)
    ensures r.Failure? <==> v != "Highway" && v != "Tollway"
    ensures r.Failure? ==> r.error == IllegalArgument(v)
  {
    var i := 0;
    while i < |Values|
      invariant 0 <= i <= |Values|
      invariant forall k :: 0 <= k < i ==> Value(Values[k]) != v
    {
      var c := Values[i];
      if Value(c) == v {
        ValueIsInjective(c);
        return Success(c);
      }
      i := i + 1;
    }
    assert Value(Values[0]) != v && Value(Values[1]) != v;
    return Failure(IllegalArgument(v));
  }

  // ---------------------------------------------------------------------
  // Properties

  /** Each constant is listed by `values()`, once. */
  lemma EveryConstantIsListed()
    ensures forall c :: c in Values
    ensures forall i, j :: 0 <= i < j < |Values| ==> Values[i] != Values[j]
  {
    forall c ensures c in Values {
      if c.Highway? { assert Values[0] == c; } else { assert Values[1] == c; }
    }
  }

  /** No two constants share a string, so decoding a constant's string
      gives that constant back. */
  lemma ValueIsInjective(c: AvoidFeatureType)
    ensures forall d :: Value(d) == Value(c) ==> d == c
  {
  }
}

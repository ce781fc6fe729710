/** `GeneralEnvelope`: an axis-aligned box of any dimension, kept in one flat
    array whose first half holds the minima and second half the maxima.
    Every constructor yields `min <= max` along each axis (the one from
    corners checks it, the others hold equal or scanned bounds) and every
    mutator keeps it, so `Valid()` is the class invariant.

    Double-valued ordinates are modelled as `real`; NaN and the infinities
    are not part of this model.  Arguments of Java type `double[]` stay
    arrays; `DirectPosition` and `Envelope` arguments are given as the
    sequence of their ordinates, in the same minima-then-maxima layout. */
module Geometry {
  import opened Outcomes
  import opened Ordinates
  import opened Wkt

  class GeneralEnvelope {
    /** The minima followed by the maxima.  The reference itself never
        changes once the envelope is built. */
    var ordinates: array<real>

    ghost predicate Valid()
      reads this, ordinates
    {
      Legal(ordinates[..])
    }

    /** `getDimension`. */
    function Dimension(): (r: nat)
      reads this
      ensures ordinates.Length == 2 * r || ordinates.Length == 2 * r + 1
    {
      ordinates.Length / 2
    }

    /** `GeneralEnvelope(int)`: all ordinates zero. */
    constructor (dimension: nat)
      ensures fresh(ordinates) && ordinates.Length == 2 * dimension
      ensures forall k :: 0 <= k < ordinates.Length ==> ordinates[k] == 0.0
      ensures Valid() && Dimension() == dimension
    {
      ordinates := new real[2 * dimension](_ => 0.0);
    }

    // -------------------------------------------------------------------
    // Construction with checks

    /** `checkCoordinates`: reports the first axis whose minimum exceeds its
        maximum. */
    static method CheckCoordinates(o: array<real>) returns (r: Outcome<EnvelopeError>)
      ensures r.Pass? <==> Ordered(o[..])
      ensures r.Fail? ==> r.error.IllegalOrdinate? && FirstDisordered(o[..], r.error.axis)
    {
      var dimension := o.Length / 2;
      var i := 0;
      while i < dimension
        invariant 0 <= i <= dimension
        invariant forall j :: 0 <= j < i ==> Lo(o[..], j) <= Hi(o[..], j)
      {
        if o[i] > o[dimension + i] {
          assert Lo(o[..], i) > Hi(o[..], i);
          return Fail(IllegalOrdinate(i));
        }
        i := i + 1;
      }
      return Pass;
    }

    /** `GeneralEnvelope(double[] minDP, double[] maxDP)`. */
    static method FromCorners(minDP: array<real>, maxDP: array<real>) returns (r: Result<GeneralEnvelope, EnvelopeError>)
      ensures minDP.Length != maxDP.Length ==> r == Failure(MismatchedDimension(minDP.Length, maxDP.Length))
      ensures minDP.Length == maxDP.Length ==>
        (r.Success? <==> forall i :: 0 <= i < minDP.Length ==> minDP[i] <= maxDP[i])
      ensures minDP.Length == maxDP.Length && r.Failure? ==>
        r.error.IllegalOrdinate? && FirstDisordered(minDP[..] + maxDP[..], r.error.axis)
      ensures r.Success? ==>
        && fresh(r.value) && fresh(r.value.ordinates)
        && r.value.ordinates[..] == minDP[..] + maxDP[..]
        && r.value.Valid()
    {
      if minDP.Length != maxDP.Length {
        return Failure(MismatchedDimension(minDP.Length, maxDP.Length));
      }
      var envelope := new GeneralEnvelope(minDP.Length);
      forall k | 0 <= k < minDP.Length {
        envelope.ordinates[k] := minDP[k];
      }
      forall k | 0 <= k < maxDP.Length {
        envelope.ordinates[minDP.Length + k] := maxDP[k];
      }
      assert envelope.ordinates[..] == minDP[..] + maxDP[..];
      var check := CheckCoordinates(envelope.ordinates);
      assert minDP[..] + maxDP[..] == Box(minDP[..], maxDP[..]);
      if check.Fail? {
        return Failure(check.error);
      }
      return Success(envelope);
    }

    /** `Arrays.copyOf`: a fresh array of length `n` that starts with the
        elements of `a` and is padded with zeros. */
    static method CopyOf(a: array<real>, n: nat) returns (b: array<real>)
      requires a.Length <= n
      ensures fresh(b) && b.Length == n && b[..a.Length] == a[..]
      ensures forall k :: a.Length <= k < n ==> b[k] == 0.0
    {
      b := new real[n](_ => 0.0);
      forall k | 0 <= k < a.Length {
        b[k] := a[k];
      }
    }

    /** `System.arraycopy` between two distinct arrays: `length` elements of
        `src` from `srcPos` replace those of `dest` from `destPos`. */
    static method ArrayCopy(src: array<real>, srcPos: nat, dest: array<real>, destPos: nat, length: nat)
      requires src != dest
      requires srcPos + length <= src.Length && destPos + length <= dest.Length
      modifies dest
      ensures dest[..] == old(dest[..destPos]) + src[srcPos..srcPos + length] + old(dest[destPos + length..])
    {
      ghost var before := dest[..];
      forall k | 0 <= k < length {
        dest[destPos + k] := src[srcPos + k];
      }
      assert dest[..] == before[..destPos] + src[srcPos..srcPos + length] + before[destPos + length..];
    }

    /** Records the number `value`, read at tuple position `dimension`, in
        the scanner's per-position extremes; a new position is appended,
        doubling the arrays when they are full. */
    static method Record(ghost st: ScanState, minimum: array<real>, maximum: array<real>, maxDimension: nat, dimension: nat, value: real)
        returns (minimum': array<real>, maximum': array<real>, maxDimension': nat)
      requires minimum != maximum && 0 < minimum.Length == maximum.Length
      requires dimension <= maxDimension <= minimum.Length
      requires st.dimension == dimension && st.lows == minimum[..maxDimension] && st.highs == maximum[..maxDimension]
      modifies minimum, maximum
      ensures minimum' != maximum' && 0 < minimum'.Length == maximum'.Length
      ensures dimension < maxDimension' <= minimum'.Length
      ensures (minimum' == minimum || fresh(minimum')) && (maximum' == maximum || fresh(maximum'))
      ensures Place(st, value) == st.(dimension := dimension + 1, lows := minimum'[..maxDimension'], highs := maximum'[..maxDimension'])
    {
      minimum', maximum', maxDimension' := minimum, maximum, maxDimension;
      if dimension == maxDimension {
        var dimLimit := minimum.Length;
        if dimension == dimLimit {
          dimLimit := dimLimit * 2;
          minimum' := CopyOf(minimum, dimLimit);
          maximum' := CopyOf(maximum, dimLimit);
        }
        minimum'[dimension] := value;
        maximum'[dimension] := value;
        maxDimension' := dimension + 1;
        assert minimum'[..maxDimension'] == old(minimum[..maxDimension]) + [value];
        assert maximum'[..maxDimension'] == old(maximum[..maxDimension]) + [value];
      } else {
        if value < minimum[dimension] { minimum[dimension] := value; }
        if value > maximum[dimension] { maximum[dimension] := value; }
      }
    }

    /** The index of the first character at or after `i` that cannot be
        part of a Java identifier. */
    static method SkipIdentifierPart(wkt: string, i: nat) returns (j: nat)
      requires i <= |wkt|
      ensures j == SkipIdentifier(wkt, i)
      ensures i <= j <= |wkt| && (j == |wkt| || !IsIdentifierPart(wkt[j]))
      ensures forall k :: i <= k < j ==> IsIdentifierPart(wkt[k])
    {
      j := i;
      while j < |wkt| && IsIdentifierPart(wkt[j])
        invariant i <= j <= |wkt| && SkipIdentifier(wkt, j) == SkipIdentifier(wkt, i)
        invariant forall k :: i <= k < j ==> IsIdentifierPart(wkt[k])
        decreases |wkt| - j
      {
        j := j + 1;
      }
    }

    /** The index of the first character at or after `i` that ends a
        number: a space, a comma or a closing parenthesis or bracket. */
    static method SkipNumber(wkt: string, i: nat) returns (j: nat)
      requires i <= |wkt|
      ensures j == NumberEnd(wkt, i)
      ensures i <= j <= |wkt| && (j == |wkt| || EndsNumber(wkt[j]))
      ensures forall k :: i <= k < j ==> !EndsNumber(wkt[k])
    {
      j := i;
      while j < |wkt| && !EndsNumber(wkt[j])
        invariant i <= j <= |wkt| && NumberEnd(wkt, j) == NumberEnd(wkt, i)
        invariant forall k :: i <= k < j ==> !EndsNumber(wkt[k])
        decreases |wkt| - j
      {
        j := j + 1;
      }
    }

    /** The branch of the scanning loop that meets a space, a comma or a
        parenthesis or bracket at `i`: opening one raises its level,
        closing one lowers it and fails when it falls below zero, and every
        symbol other than a space starts a new tuple. */
    static method ScanSymbol(wkt: string, parse: string -> Option<real>,
                             levelParenth: int, levelBracket: int, dimension: nat,
                             ghost lows: seq<real>, ghost highs: seq<real>, i: nat)
        returns (r: Outcome<EnvelopeError>, levelParenth': int, levelBracket': int, dimension': nat)
      requires i < |wkt| && !IsIdentifierStart(wkt[i])
      requires IsWhitespace(wkt[i]) || wkt[i] in {',', '(', '[', ')', ']'}
      requires dimension <= |lows| == |highs|
      requires Resumes(wkt, parse, ScanState(levelParenth, levelBracket, dimension, lows, highs), i)
      ensures r.Fail? ==> ParseBox(wkt, parse) == Failure(r.error)
      ensures r.Pass? ==>
        && dimension' <= dimension
        && Resumes(wkt, parse, ScanState(levelParenth', levelBracket', dimension', lows, highs), i + 1)
    {
      ghost var st := ScanState(levelParenth, levelBracket, dimension, lows, highs);
      ResumesAfterSymbol(wkt, parse, st, i);
      levelParenth', levelBracket', dimension' := levelParenth, levelBracket, dimension;
      r := Pass;
      var c := wkt[i];
      if IsWhitespace(c) {
        return;
      }
      if c == ',' {
        assert Step(st, Comma, parse) == Success(st.(dimension := 0));
      } else if c == '(' {
        assert Step(st, Open(Paren), parse) == Success(st.(parens := st.parens + 1, dimension := 0));
        levelParenth' := levelParenth + 1;
      } else if c == '[' {
        assert Step(st, Open(Square), parse) == Success(st.(brackets := st.brackets + 1, dimension := 0));
        levelBracket' := levelBracket + 1;
      } else if c == ')' {
        levelParenth' := levelParenth - 1;
        if levelParenth' < 0 {
          assert Step(st, Close(Paren), parse) == Failure(UnbalancedParenthesis('('));
          return Fail(UnbalancedParenthesis('(')), levelParenth', levelBracket', dimension';
        }
        assert Step(st, Close(Paren), parse) == Success(st.(parens := levelParenth', dimension := 0));
      } else {
        levelBracket' := levelBracket - 1;
        if levelBracket' < 0 {
          assert Step(st, Close(Square), parse) == Failure(UnbalancedParenthesis('['));
          return Fail(UnbalancedParenthesis('[')), levelParenth', levelBracket', dimension';
        }
        assert Step(st, Close(Square), parse) == Success(st.(brackets := levelBracket', dimension := 0));
      }
      dimension' := 0;
    }

    /** The character at `i` that ended a number: a closing parenthesis or
        bracket lowers its level, and fails when it falls below zero, and
        it or a comma ends the tuple. */
    static method CloseNumber(wkt: string, ghost st: ScanState, levelParenth: int, levelBracket: int, i: nat)
        returns (r: Outcome<EnvelopeError>, levelParenth': int, levelBracket': int, flush: bool)
      requires i <= |wkt| && st.parens == levelParenth && st.brackets == levelBracket
      ensures var stop := if i == |wkt| then AtEnd else StopAt(wkt[i]);
        var closed := if stop.AtClose? then CloseLevel(st, stop.kind) else Success(st);
        && (r.Fail? <==> closed.Failure?)
        && (r.Fail? ==> r.error == closed.error)
        && (r.Pass? ==> closed.value == st.(parens := levelParenth', brackets := levelBracket'))
        && flush == EndsTuple(stop)
    {
      r, levelParenth', levelBracket', flush := Pass, levelParenth, levelBracket, false;
      if i < |wkt| {
        var c := wkt[i];
        if c == ',' {
          flush := true;
        } else if c == ')' {
          levelParenth' := levelParenth - 1;
          if levelParenth' < 0 {
            r := Fail(UnbalancedParenthesis('('));
          }
          flush := true;
        } else if c == ']' {
          levelBracket' := levelBracket - 1;
          if levelBracket' < 0 {
            r := Fail(UnbalancedParenthesis('['));
          }
          flush := true;
        }
      }
    }

    /** The branch of the scanning loop that reads the number starting at
        `start`, with the scanner's variables passed in and returned: it finds
        the character that ends the number, closes a parenthesis or bracket
        that ends it, parses it and records it at the current tuple
        position. */
    static method ScanNumber(wkt: string, parse: string -> Option<real>,
                             levelParenth: int, levelBracket: int, dimension: nat,
                             minimum: array<real>, maximum: array<real>, maxDimension: nat, start: nat)
        returns (r: Outcome<EnvelopeError>, levelParenth': int, levelBracket': int, dimension': nat,
                 minimum': array<real>, maximum': array<real>, maxDimension': nat, i: nat)
      requires start < |wkt| && !IsIdentifierStart(wkt[start])
      requires !IsWhitespace(wkt[start]) && wkt[start] !in {',', '(', '[', ')', ']'}
      requires minimum != maximum && 0 < minimum.Length == maximum.Length
      requires dimension <= maxDimension <= minimum.Length
      requires Resumes(wkt, parse, ScanState(levelParenth, levelBracket, dimension,
                                             minimum[..maxDimension], maximum[..maxDimension]), start)
      modifies minimum, maximum
      ensures r.Fail? ==> ParseBox(wkt, parse) == Failure(r.error)
      ensures r.Pass? ==>
        && minimum' != maximum' && 0 < minimum'.Length == maximum'.Length
        && (minimum' == minimum || fresh(minimum')) && (maximum' == maximum || fresh(maximum'))
        && dimension' <= maxDimension' <= minimum'.Length
        && start < i <= |wkt| + 1
        && Resumes(wkt, parse, ScanState(levelParenth', levelBracket', dimension',
                                         minimum'[..maxDimension'], maximum'[..maxDimension']), i)
    {
      ghost var st := ScanState(levelParenth, levelBracket, dimension, minimum[..maxDimension], maximum[..maxDimension]);
      levelParenth', levelBracket', dimension' := levelParenth, levelBracket, dimension;
      minimum', maximum', maxDimension' := minimum, maximum, maxDimension;
      i := SkipNumber(wkt, start + 1);
      assert minimum[..maxDimension] == st.lows && maximum[..maxDimension] == st.highs;
      var outcome, flush;
      outcome, levelParenth', levelBracket', flush := CloseNumber(wkt, st, levelParenth, levelBracket, i);
      ResumesAfterNumber(wkt, parse, st, start, i);
      if outcome.Fail? {
        return outcome, levelParenth', levelBracket', dimension', minimum', maximum', maxDimension', i;
      }
      var text := wkt[start..i];
      if parse(text).None? {
        return Fail(NumberFormat(text)), levelParenth', levelBracket', dimension', minimum', maximum', maxDimension', i;
      }
      var value := parse(text).value;
      ghost var token := Number(text, if i == |wkt| then AtEnd else StopAt(wkt[i]));
      ghost var closed := ScanState(levelParenth', levelBracket', dimension, st.lows, st.highs);
      NumberStep(st, text, token.stop, parse, closed, value);
      ghost var next := if flush then Place(closed, value).(dimension := 0) else Place(closed, value);
      assert Resumes(wkt, parse, next, i + 1);
      minimum', maximum', maxDimension' := Record(closed, minimum, maximum, maxDimension, dimension, value);
      dimension' := dimension + 1;
      if flush {
        dimension' := 0;
      }
      assert next == ScanState(levelParenth', levelBracket', dimension', minimum'[..maxDimension'], maximum'[..maxDimension']);
      i := i + 1;
      r := Pass;
    }

    /** One pass of the scanning loop of `GeneralEnvelope(String)`, from
        index `i`: skips a keyword, then handles the symbol or reads the
        number found there.  A keyword running to the end of the text
        ends the scan, which shows as `i' == |wkt|`. */
    static method ScanStep(wkt: string, parse: string -> Option<real>,
                           levelParenth: int, levelBracket: int, dimension: nat,
                           minimum: array<real>, maximum: array<real>, maxDimension: nat, i: nat)
        returns (r: Outcome<EnvelopeError>, levelParenth': int, levelBracket': int, dimension': nat,
                 minimum': array<real>, maximum': array<real>, maxDimension': nat, i': nat)
      requires i < |wkt|
      requires minimum != maximum && 0 < minimum.Length == maximum.Length
      requires dimension <= maxDimension <= minimum.Length
      requires Resumes(wkt, parse, ScanState(levelParenth, levelBracket, dimension,
                                             minimum[..maxDimension], maximum[..maxDimension]), i)
      modifies minimum, maximum
      ensures r.Fail? ==> ParseBox(wkt, parse) == Failure(r.error)
      ensures r.Pass? ==>
        && minimum' != maximum' && 0 < minimum'.Length == maximum'.Length
        && (minimum' == minimum || fresh(minimum')) && (maximum' == maximum || fresh(maximum'))
        && dimension' <= maxDimension' <= minimum'.Length
        && i < i' <= |wkt| + 1
        && Resumes(wkt, parse, ScanState(levelParenth', levelBracket', dimension',
                                         minimum'[..maxDimension'], maximum'[..maxDimension']), i')
    {
      levelParenth', levelBracket', dimension' := levelParenth, levelBracket, dimension;
      minimum', maximum', maxDimension' := minimum, maximum, maxDimension;
      r, i' := Pass, i;
      ghost var lows, highs := minimum[..maxDimension], maximum[..maxDimension];
      if IsIdentifierStart(wkt[i]) {
        ResumesAfterIdentifier(wkt, parse, ScanState(levelParenth, levelBracket, dimension, lows, highs), i);
        i' := SkipIdentifierPart(wkt, i + 1);
        assert minimum[..maxDimension] == lows && maximum[..maxDimension] == highs;
        if i' >= |wkt| {
          return;
        }
      }
      var c := wkt[i'];
      if IsWhitespace(c) || c in {',', '(', '[', ')', ']'} {
        r, levelParenth', levelBracket', dimension' :=
          ScanSymbol(wkt, parse, levelParenth, levelBracket, dimension, lows, highs, i');
        i' := i' + 1;
      } else {
        r, levelParenth', levelBracket', dimension', minimum', maximum', maxDimension', i' :=
          ScanNumber(wkt, parse, levelParenth, levelBracket, dimension, minimum, maximum, maxDimension, i');
      }
    }

    /** The scanning loop of `GeneralEnvelope(String)`: the ordinates of the
        envelope that `wkt` describes, or the exception it throws. */
    static method ScanWkt(wkt: string, parse: string -> Option<real>) returns (r: Result<seq<real>, EnvelopeError>)
      ensures r == ParseBox(wkt, parse)
    {
      var levelParenth := 0;
      var levelBracket := 0;
      var maxDimension: nat := 0;
      var minimum := new real[4];
      var maximum := new real[4];
      var dimension: nat := 0;
      var i: nat := 0;
      while i < |wkt|
        invariant i <= |wkt| + 1
        invariant 0 < minimum.Length == maximum.Length
        invariant fresh(minimum) && fresh(maximum) && minimum != maximum
        invariant dimension <= maxDimension <= minimum.Length
        invariant Resumes(wkt, parse, ScanState(levelParenth, levelBracket, dimension,
                                                minimum[..maxDimension], maximum[..maxDimension]), i)
        decreases |wkt| + 1 - i
      {
        var outcome;
        outcome, levelParenth, levelBracket, dimension, minimum, maximum, maxDimension, i :=
          ScanStep(wkt, parse, levelParenth, levelBracket, dimension, minimum, maximum, maxDimension, i);
        if outcome.Fail? {
          return Failure(outcome.error);
        }
      }
      if levelParenth != 0 {
        return Failure(UnbalancedParenthesis(')'));
      }
      if levelBracket != 0 {
        return Failure(UnbalancedParenthesis(']'));
      }
      return Success(minimum[..maxDimension] + maximum[..maxDimension]);
    }

    /** `GeneralEnvelope(String)`: the envelope of every tuple written in
        `wkt`, or the exception the scan throws.  `parse` stands for
        `Double.parseDouble`. */
    static method FromWkt(wkt: string, parse: string -> Option<real>) returns (r: Result<GeneralEnvelope, EnvelopeError>)
      ensures r.Failure? <==> ParseBox(wkt, parse).Failure?
      ensures r.Failure? ==> r.error == ParseBox(wkt, parse).error
      ensures r.Success? ==>
        && fresh(r.value) && fresh(r.value.ordinates)
        && r.value.ordinates[..] == ParseBox(wkt, parse).value
        && r.value.Valid()
    {
      var scanned := ScanWkt(wkt, parse);
      if scanned.Failure? {
        return Failure(scanned.error);
      }
      var o := scanned.value;
      ParseBoxIsTightEnvelope(wkt, parse);
      var envelope := new GeneralEnvelope(|o| / 2);
      forall k | 0 <= k < |o| {
        envelope.ordinates[k] := o[k];
      }
      assert envelope.ordinates[..] == o;
      return Success(envelope);
    }

    // -------------------------------------------------------------------
    // Accessors

    /** `getMinimum`: the minimum along axis `d`.  An axis at or past the
        dimension is refused by the explicit check, a negative one by the
        array access; both are `IndexOutOfBoundsException`s. */
    function GetMinimum(d: int): (r: Result<real, EnvelopeError>)
      reads this, ordinates
      ensures r.Success? <==> 0 <= d < Dimension()
      ensures r.Failure? ==> r.error == IndexOutOfBounds(d)
      ensures r.Success? && Valid() ==> r.value <= Hi(ordinates[..], d)
    {
      if d < ordinates.Length / 2 then
        if d < 0 then Failure(IndexOutOfBounds(d)) else Success(Lo(ordinates[..], d))
      else Failure(IndexOutOfBounds(d))
    }

    /** `getMaximum`: the maximum along axis `d`.  A negative axis is
        refused by the explicit check, one at or past the dimension by the
        array access. */
    function GetMaximum(d: int): (r: Result<real, EnvelopeError>)
      reads this, ordinates
      ensures r.Success? <==> 0 <= d < Dimension()
      ensures r.Failure? ==> r.error == IndexOutOfBounds(d)
      ensures r.Success? && Valid() ==> Lo(ordinates[..], d) <= r.value
    {
      if d >= 0 then
        if d >= ordinates.Length / 2 then Failure(IndexOutOfBounds(d)) else Success(Hi(ordinates[..], d))
      else Failure(IndexOutOfBounds(d))
    }

    /** `getSpan`: the extent along axis `d`; an axis outside the envelope
        fails in the array access. */
    function GetSpan(d: int): (r: Result<real, EnvelopeError>)
      reads this, ordinates
      ensures r.Success? <==> 0 <= d < Dimension()
      ensures r.Failure? ==> r.error == IndexOutOfBounds(d)
      ensures r.Success? ==> GetMinimum(d).value + r.value == GetMaximum(d).value
      ensures r.Success? && Valid() ==> r.value >= 0.0
    {
      if 0 <= d < ordinates.Length / 2 then Success(Span(ordinates[..], d))
      else Failure(IndexOutOfBounds(d))
    }

    /** `getMedian`: the centre of the extent along axis `d`; an axis
        outside the envelope fails in the array access. */
    function GetMedian(d: int): (r: Result<real, EnvelopeError>)
      reads this, ordinates
      ensures r.Success? <==> 0 <= d < Dimension()
      ensures r.Failure? ==> r.error == IndexOutOfBounds(d)
      ensures r.Success? ==> r.value - GetMinimum(d).value == GetMaximum(d).value - r.value
      ensures r.Success? && Valid() ==> GetMinimum(d).value <= r.value <= GetMaximum(d).value
    {
      if 0 <= d < ordinates.Length / 2 then Success(Median(ordinates[..], d))
      else Failure(IndexOutOfBounds(d))
    }

    // -------------------------------------------------------------------
    // Mutators

    /** `setRange`: sets axis `dimension` to `[minimum, maximum]`, or to the
        midpoint of an inverted range. */
    method SetRange(dimension: int, minimum: real, maximum: real) returns (r: Outcome<EnvelopeError>)
      requires Valid()
      modifies ordinates
      ensures Valid()
      ensures !(0 <= dimension < Dimension()) ==>
        r == Fail(IndexOutOfBounds(dimension)) && ordinates[..] == old(ordinates[..])
      ensures 0 <= dimension < Dimension() ==>
        && r == Pass
        && ordinates[..] == WithAxis(old(ordinates[..]), dimension,
                                     LegalRange(minimum, maximum).0, LegalRange(minimum, maximum).1)
    {
      var lo, hi := minimum, maximum;
      if lo > hi {
        lo := 0.5 * (lo + hi);
        hi := lo;
      }
      if dimension >= 0 {
        if dimension + ordinates.Length / 2 >= ordinates.Length {
          return Fail(IndexOutOfBounds(dimension));
        }
        ordinates[dimension + ordinates.Length / 2] := hi;
        ordinates[dimension] := lo;
        assert (lo, hi) == LegalRange(minimum, maximum);
        assert ordinates[..] == WithAxis(old(ordinates[..]), dimension, lo, hi);
        WithRangeKeepsOtherAxes(old(ordinates[..]), dimension, minimum, maximum);
        return Pass;
      } else {
        return Fail(IndexOutOfBounds(dimension));
      }
    }

    /** `setEnvelope(double...)`: replaces every ordinate at once. */
    method SetEnvelope(o: array<real>) returns (r: Outcome<EnvelopeError>)
      requires Valid()
      modifies ordinates
      ensures Valid()
      ensures o.Length % 2 != 0 ==> r == Fail(OddArrayLength(o.Length))
      ensures o.Length % 2 == 0 && o.Length / 2 != Dimension() ==>
        r == Fail(MismatchedDimension(Dimension(), o.Length / 2))
      ensures o.Length == ordinates.Length ==>
        (r.Pass? <==> Ordered(old(o[..])))
      ensures o.Length == ordinates.Length && r.Fail? ==>
        r.error.IllegalOrdinate? && FirstDisordered(old(o[..]), r.error.axis)
      ensures r.Pass? ==> ordinates[..] == old(o[..])
      ensures r.Fail? ==> ordinates[..] == old(ordinates[..])
    {
      if o.Length % 2 != 0 {
        return Fail(OddArrayLength(o.Length));
      }
      var dimension := o.Length / 2;
      var check := ordinates.Length / 2;
      if dimension != check {
        return Fail(MismatchedDimension(check, dimension));
      }
      r := CheckCoordinates(o);
      if r.Fail? {
        return;
      }
      ghost var source := o[..];
      forall k | 0 <= k < o.Length {
        ordinates[k] := o[k];
      }
      assert ordinates[..] == source;
    }

    /** `setEnvelope(GeneralEnvelope)`: copies the ordinates of `envelope`,
        which may be this very envelope. */
    method SetEnvelopeFrom(envelope: GeneralEnvelope) returns (r: Outcome<EnvelopeError>)
      requires Valid() && envelope.Valid()
      modifies ordinates
      ensures Valid()
      ensures envelope.Dimension() != Dimension() ==>
        r == Fail(MismatchedDimension(Dimension(), envelope.Dimension())) && ordinates[..] == old(ordinates[..])
      ensures envelope.Dimension() == Dimension() ==>
        r == Pass && ordinates[..] == old(envelope.ordinates[..])
    {
      if envelope.Dimension() != Dimension() {
        return Fail(MismatchedDimension(Dimension(), envelope.Dimension()));
      }
      ghost var source := envelope.ordinates[..];
      forall k | 0 <= k < ordinates.Length {
        ordinates[k] := envelope.ordinates[k];
      }
      assert ordinates[..] == source;
      return Pass;
    }

    /** `add(DirectPosition)`: grows the envelope just enough to hold
        `position`. */
    method Add(position: seq<real>) returns (r: Outcome<EnvelopeError>)
      requires Valid()
      modifies ordinates
      ensures Valid()
      ensures |position| != Dimension() ==>
        r == Fail(MismatchedDimension(Dimension(), |position|)) && ordinates[..] == old(ordinates[..])
      ensures |position| == Dimension() ==>
        r == Pass && ordinates[..] == AddPoint(old(ordinates[..]), position)
    {
      var dim := ordinates.Length / 2;
      if |position| != dim {
        return Fail(MismatchedDimension(dim, |position|));
      }
      ghost var o := ordinates[..];
      var i := 0;
      while i < dim
        invariant 0 <= i <= dim && |ordinates[..]| == |o|
        invariant forall k :: 0 <= k < dim ==>
          Lo(ordinates[..], k) == (if k < i then Min(Lo(o, k), position[k]) else Lo(o, k))
        invariant forall k :: 0 <= k < dim ==>
          Hi(ordinates[..], k) == (if k < i then Max(Hi(o, k), position[k]) else Hi(o, k))
      {
        ghost var before := ordinates[..];
        var value := position[i];
        if value < ordinates[i] { ordinates[i] := value; }
        if value > ordinates[i + dim] { ordinates[i + dim] := value; }
        assert ordinates[..] == WithAxis(before, i, Min(Lo(before, i), value), Max(Hi(before, i), value));
        WithAxisAxes(before, i, Min(Lo(before, i), value), Max(Hi(before, i), value));
        i := i + 1;
      }
      AddPointIsLeastEnclosing(o, position);
      SameOrdinatesIffSameAxes(ordinates[..], AddPoint(o, position));
      return Pass;
    }

    /** `add(Envelope)`: grows the envelope just enough to hold `envelope`. */
    method AddEnvelope(envelope: seq<real>) returns (r: Outcome<EnvelopeError>)
      requires Valid() && Even(envelope)
      modifies ordinates
      ensures Valid()
      ensures Dim(envelope) != Dimension() ==>
        r == Fail(MismatchedDimension(Dimension(), Dim(envelope))) && ordinates[..] == old(ordinates[..])
      ensures Dim(envelope) == Dimension() ==>
        r == Pass && ordinates[..] == Union(old(ordinates[..]), envelope)
    {
      var dim := ordinates.Length / 2;
      if |envelope| / 2 != dim {
        return Fail(MismatchedDimension(dim, |envelope| / 2));
      }
      ghost var o := ordinates[..];
      var i := 0;
      while i < dim
        invariant 0 <= i <= dim && |ordinates[..]| == |o|
        invariant forall k :: 0 <= k < dim ==>
          Lo(ordinates[..], k) == (if k < i then Min(Lo(o, k), Lo(envelope, k)) else Lo(o, k))
        invariant forall k :: 0 <= k < dim ==>
          Hi(ordinates[..], k) == (if k < i then Max(Hi(o, k), Hi(envelope, k)) else Hi(o, k))
      {
        ghost var before := ordinates[..];
        var min := envelope[i];
        var max := envelope[i + dim];
        if min < ordinates[i] { ordinates[i] := min; }
        if max > ordinates[i + dim] { ordinates[i + dim] := max; }
        assert ordinates[..] == WithAxis(before, i, Min(Lo(before, i), min), Max(Hi(before, i), max));
        WithAxisAxes(before, i, Min(Lo(before, i), min), Max(Hi(before, i), max));
        i := i + 1;
      }
      UnionIsLeastEnclosing(o, envelope);
      SameOrdinatesIffSameAxes(ordinates[..], Union(o, envelope));
      return Pass;
    }

    /** `intersect(Envelope)`: shrinks the envelope to its intersection with
        `envelope`, collapsing an axis where they do not meet. */
    method Intersect(envelope: seq<real>) returns (r: Outcome<EnvelopeError>)
      requires Valid() && Even(envelope)
      modifies ordinates
      ensures Valid()
      ensures Dim(envelope) != Dimension() ==>
        r == Fail(MismatchedDimension(Dimension(), Dim(envelope))) && ordinates[..] == old(ordinates[..])
      ensures Dim(envelope) == Dimension() ==>
        r == Pass && ordinates[..] == Intersection(old(ordinates[..]), envelope)
    {
      var dim := ordinates.Length / 2;
      if |envelope| / 2 != dim {
        return Fail(MismatchedDimension(dim, |envelope| / 2));
      }
      ghost var o := ordinates[..];
      var i := 0;
      while i < dim
        invariant 0 <= i <= dim && |ordinates[..]| == |o|
        invariant forall k :: 0 <= k < dim ==>
          Lo(ordinates[..], k) == (if k < i then MeetRange(o, envelope, k).0 else Lo(o, k))
        invariant forall k :: 0 <= k < dim ==>
          Hi(ordinates[..], k) == (if k < i then MeetRange(o, envelope, k).1 else Hi(o, k))
      {
        ghost var before := ordinates[..];
        var min := Max(ordinates[i], envelope[i]);
        var max := Min(ordinates[i + dim], envelope[i + dim]);
        if min > max {
          min := 0.5 * (min + max);
          max := min;
        }
        ordinates[i] := min;
        ordinates[i + dim] := max;
        assert (min, max) == MeetRange(o, envelope, i);
        assert ordinates[..] == WithAxis(before, i, min, max);
        WithAxisAxes(before, i, min, max);
        i := i + 1;
      }
      IntersectionIsGreatestEnclosed(o, envelope);
      SameOrdinatesIffSameAxes(ordinates[..], Intersection(o, envelope));
      return Pass;
    }

    // -------------------------------------------------------------------
    // Queries

    /** `isEmpty`: no axis, or an axis of zero extent. */
    method IsEmpty() returns (r: bool)
      requires Valid()
      ensures r == Ordinates.IsEmpty(ordinates[..])
    {
      var dimension := ordinates.Length / 2;
      if dimension == 0 {
        return true;
      }
      var i := 0;
      while i < dimension
        invariant 0 <= i <= dimension
        invariant forall k :: 0 <= k < i ==> Lo(ordinates[..], k) < Hi(ordinates[..], k)
      {
        if !(ordinates[i] < ordinates[i + dimension]) {
          assert !(Lo(ordinates[..], i) < Hi(ordinates[..], i));
          return true;
        }
        i := i + 1;
      }
      return false;
    }

    /** `contains(DirectPosition)`. */
    method ContainsPosition(position: seq<real>) returns (r: Result<bool, EnvelopeError>)
      requires Valid()
      ensures |position| != Dimension() ==> r == Failure(MismatchedDimension(Dimension(), |position|))
      ensures |position| == Dimension() ==> r == Success(ContainsPoint(ordinates[..], position))
    {
      var dim := ordinates.Length / 2;
      if |position| != dim {
        return Failure(MismatchedDimension(dim, |position|));
      }
      var i := 0;
      while i < dim
        invariant 0 <= i <= dim
        invariant forall k :: 0 <= k < i ==> Lo(ordinates[..], k) <= position[k] <= Hi(ordinates[..], k)
      {
        var value := position[i];
        if !(value >= ordinates[i]) { return Success(false); }
        if !(value <= ordinates[i + dim]) { return Success(false); }
        i := i + 1;
      }
      return Success(true);
    }

    /** `contains(Envelope, boolean)`: whether `envelope` lies inside, its
        edges allowed on this envelope's edges when `edgesInclusive`. */
    method ContainsEnvelope(envelope: seq<real>, edgesInclusive: bool) returns (r: Result<bool, EnvelopeError>)
      requires Valid() && Even(envelope)
      ensures Dim(envelope) != Dimension() ==> r == Failure(MismatchedDimension(Dimension(), Dim(envelope)))
      ensures Dim(envelope) == Dimension() ==> r == Success(Contains(ordinates[..], envelope, edgesInclusive))
    {
      var dim := ordinates.Length / 2;
      if |envelope| / 2 != dim {
        return Failure(MismatchedDimension(dim, |envelope| / 2));
      }
      var i := 0;
      while i < dim
        invariant 0 <= i <= dim
        invariant forall k :: 0 <= k < i ==>
          Below(Lo(ordinates[..], k), Lo(envelope, k), edgesInclusive) &&
          Below(Hi(envelope, k), Hi(ordinates[..], k), edgesInclusive)
      {
        var inner := envelope[i];
        var outer := ordinates[i];
        if !(if edgesInclusive then inner >= outer else inner > outer) {
          assert !Below(Lo(ordinates[..], i), Lo(envelope, i), edgesInclusive);
          return Success(false);
        }
        inner := envelope[i + dim];
        outer := ordinates[i + dim];
        if !(if edgesInclusive then inner <= outer else inner < outer) {
          assert !Below(Hi(envelope, i), Hi(ordinates[..], i), edgesInclusive);
          return Success(false);
        }
        i := i + 1;
      }
      return Success(true);
    }

    /** `intersects(Envelope, boolean)`: whether `envelope` meets this one,
        touching edges counting when `edgesInclusive`. */
    method IntersectsEnvelope(envelope: seq<real>, edgesInclusive: bool) returns (r: Result<bool, EnvelopeError>)
      requires Valid() && Even(envelope)
      ensures Dim(envelope) != Dimension() ==> r == Failure(MismatchedDimension(Dimension(), Dim(envelope)))
      ensures Dim(envelope) == Dimension() ==> r == Success(Intersects(ordinates[..], envelope, edgesInclusive))
    {
      var dim := ordinates.Length / 2;
      if |envelope| / 2 != dim {
        return Failure(MismatchedDimension(dim, |envelope| / 2));
      }
      var i := 0;
      while i < dim
        invariant 0 <= i <= dim
        invariant forall k :: 0 <= k < i ==>
          Below(Lo(ordinates[..], k), Hi(envelope, k), edgesInclusive) &&
          Below(Lo(envelope, k), Hi(ordinates[..], k), edgesInclusive)
      {
        var inner := envelope[i + dim];
        var outer := ordinates[i];
        if !(if edgesInclusive then inner >= outer else inner > outer) {
          assert !Below(Lo(ordinates[..], i), Hi(envelope, i), edgesInclusive);
          return Success(false);
        }
        inner := envelope[i];
        outer := ordinates[i + dim];
        if !(if edgesInclusive then inner <= outer else inner < outer) {
          assert !Below(Lo(envelope, i), Hi(ordinates[..], i), edgesInclusive);
          return Success(false);
        }
        i := i + 1;
      }
      return Success(true);
    }

    /** `getSubEnvelope(lower, upper)`: the axes `lower` (inclusive) to
        `upper` (exclusive). */
    method GetSubEnvelope(lower: int, upper: int) returns (r: Result<GeneralEnvelope, EnvelopeError>)
      requires Valid()
      ensures !(0 <= lower <= Dimension()) ==> r == Failure(BoundOutOfRange("lower", lower))
      ensures 0 <= lower <= Dimension() && !(lower <= upper <= Dimension()) ==>
        r == Failure(BoundOutOfRange("upper", upper))
      ensures 0 <= lower <= upper <= Dimension() ==>
        && r.Success? && fresh(r.value) && fresh(r.value.ordinates)
        && r.value.ordinates[..] == SubOrdinates(ordinates[..], lower, upper)
        && r.value.Valid() && r.value.Dimension() == upper - lower
    {
      var curDim := ordinates.Length / 2;
      var newDim := upper - lower;
      if lower < 0 || lower > curDim {
        return Failure(BoundOutOfRange("lower", lower));
      }
      if newDim < 0 || upper > curDim {
        return Failure(BoundOutOfRange("upper", upper));
      }
      ghost var source := ordinates[..];
      var envelope := new GeneralEnvelope(newDim);
      ArrayCopy(ordinates, lower, envelope.ordinates, 0, newDim);
      ArrayCopy(ordinates, lower + curDim, envelope.ordinates, newDim, newDim);
      assert envelope.ordinates[..] == SubOrdinates(source, lower, upper);
      SubOrdinatesAxes(source, lower, upper);
      assert envelope.Valid();
      return Success(envelope);
    }

    /** `equals(Object)`: another `GeneralEnvelope` with the same ordinates. */
    method Equals(that: GeneralEnvelope?) returns (r: bool)
      requires Valid() && (that != null ==> that.Valid())
      ensures r <==>
        && that != null
        && that.Dimension() == Dimension()
        && forall i :: 0 <= i < Dimension() ==>
             Lo(ordinates[..], i) == Lo(that.ordinates[..], i) && Hi(ordinates[..], i) == Hi(that.ordinates[..], i)
    {
      if that == null {
        return false;
      }
      r := ordinates[..] == that.ordinates[..];
      SameOrdinatesIffSameAxes(ordinates[..], that.ordinates[..]);
    }

    /** `clone`: a copy with its own ordinate array. */
    method Clone() returns (e: GeneralEnvelope)
      requires Valid()
      ensures fresh(e) && fresh(e.ordinates)
      ensures e.ordinates[..] == ordinates[..] && e.Valid()
    {
      ghost var source := ordinates[..];
      e := new GeneralEnvelope(ordinates.Length / 2);
      forall k | 0 <= k < ordinates.Length {
        e.ordinates[k] := ordinates[k];
      }
      assert e.ordinates[..] == source;
    }
  }
}

/** The specification of the Well Known Text scanner behind the
    `GeneralEnvelope(String)` constructor.  The scanner skips identifiers
    (`BOX`, `POLYGON`, ...), checks that parentheses and brackets balance,
    and computes, for every position within a coordinate tuple, the smallest
    and largest number found at that position.

    It is specified in two layers: `Lex` cuts the text into the tokens the
    scanner reacts to, and `Finish` folds the scanner's state over them.
    `Placements`, an independent syntactic reading that only says at which
    tuple position each number stands, is what the lemmas relate the result
    to. */
module Wkt {
  import opened Outcomes
  import opened Ordinates

  // ---------------------------------------------------------------------
  // Character classes (the ASCII and Unicode-space part of Java's tables)

  /** `Character.isWhitespace`. */
  predicate IsWhitespace(c: char) {
    var n := c as int;
    || 9 <= n <= 13 || 28 <= n <= 32
    || n == 0x1680 || 0x2000 <= n <= 0x2006 || 0x2008 <= n <= 0x200A
    || n == 0x2028 || n == 0x2029 || n == 0x205F || n == 0x3000
  }

  /** `Character.isJavaIdentifierStart`, restricted to ASCII. */
  predicate IsIdentifierStart(c: char) {
    'a' <= c <= 'z' || 'A' <= c <= 'Z' || c == '_' || c == '$'
  }

  /** `Character.isJavaIdentifierPart`, restricted to ASCII and the
      identifier-ignorable control characters. */
  predicate IsIdentifierPart(c: char) {
    var n := c as int;
    || IsIdentifierStart(c) || '0' <= c <= '9'
    || 0 <= n <= 8 || 14 <= n <= 27 || 0x7F <= n <= 0x9F
  }

  /** The characters that end a number. */
  predicate EndsNumber(c: char) {
    IsWhitespace(c) || c == ',' || c == ')' || c == ']'
  }

  // ---------------------------------------------------------------------
  // Tokens

  datatype Bracket = Paren | Square

  /** What ended a number: a space, the end of the text, a comma or a
      closing parenthesis or bracket. */
  datatype Stop = AtSpace | AtEnd | AtComma | AtClose(kind: Bracket)

  datatype Token =
    | Comma
    | Open(kind: Bracket)
    | Close(kind: Bracket)
    | Number(text: string, stop: Stop)

  function OpenChar(k: Bracket): char { if k == Paren then '(' else '[' }

  function StopAt(c: char): Stop {
    if c == ',' then AtComma
    else if c == ')' then AtClose(Paren)
    else if c == ']' then AtClose(Square)
    else AtSpace
  }

  /** A comma or a closing character ends the current coordinate tuple. */
  predicate EndsTuple(stop: Stop) { stop == AtComma || stop.AtClose? }

  /** The index of the first character at or after `i` that is not part of
      an identifier. */
  function SkipIdentifier(s: string, i: nat): (j: nat)
    requires i <= |s|
    ensures i <= j <= |s|
    decreases |s| - i
  {
    if i < |s| && IsIdentifierPart(s[i]) then SkipIdentifier(s, i + 1) else i
  }

  /** The index of the first character at or after `i` that ends a number. */
  function NumberEnd(s: string, i: nat): (j: nat)
    requires i <= |s|
    ensures i <= j <= |s|
    decreases |s| - i
  {
    if i < |s| && !EndsNumber(s[i]) then NumberEnd(s, i + 1) else i
  }

  /** The tokens of `s[i..]`, in the order the scanner meets them.  An
      identifier that runs to the end of the text ends the scan. */
  function Lex(s: string, i: nat): seq<Token>
    requires i <= |s|
    decreases |s| - i
  {
    if i == |s| then []
    else if IsIdentifierStart(s[i]) then
      var j := SkipIdentifier(s, i + 1);
      if j == |s| then [] else Lex(s, j)
    else if IsWhitespace(s[i]) then Lex(s, i + 1)
    else if s[i] == ',' then [Comma] + Lex(s, i + 1)
    else if s[i] == '(' then [Open(Paren)] + Lex(s, i + 1)
    else if s[i] == '[' then [Open(Square)] + Lex(s, i + 1)
    else if s[i] == ')' then [Close(Paren)] + Lex(s, i + 1)
    else if s[i] == ']' then [Close(Square)] + Lex(s, i + 1)
    else
      var j := NumberEnd(s, i + 1);
      if j == |s| then [Number(s[i..j], AtEnd)]
      else [Number(s[i..j], StopAt(s[j]))] + Lex(s, j + 1)
  }

  // ---------------------------------------------------------------------
  // The scanner's state and its fold over the tokens

  /** `parens` and `brackets` are the open levels, `dimension` the position
      of the next number in its tuple, and `lows`/`highs` the per-position
      extremes found so far (their length is `maxDimension`). */
  datatype ScanState = ScanState(parens: int, brackets: int, dimension: nat,
                                 lows: seq<real>, highs: seq<real>)

  const Initial := ScanState(0, 0, 0, [], [])

  predicate Shaped(st: ScanState) {
    st.dimension <= |st.lows| == |st.highs|
  }

  predicate Good(st: ScanState) {
    && Shaped(st)
    && st.parens >= 0 && st.brackets >= 0
    && forall k :: 0 <= k < |st.lows| ==> st.lows[k] <= st.highs[k]
  }

  function Level(st: ScanState, k: Bracket): int {
    if k == Paren then st.parens else st.brackets
  }

  function WithLevel(st: ScanState, k: Bracket, n: int): ScanState {
    if k == Paren then st.(parens := n) else st.(brackets := n)
  }

  /** Closing a parenthesis or bracket that was never opened fails. */
  function CloseLevel(st: ScanState, k: Bracket): Result<ScanState, EnvelopeError> {
    if Level(st, k) - 1 < 0 then Failure(UnbalancedParenthesis(OpenChar(k)))
    else Success(WithLevel(st, k, Level(st, k) - 1))
  }

  /** Records the number `v` at the current tuple position, growing the
      arrays when the position is new. */
  function Place(st: ScanState, v: real): ScanState
    requires Shaped(st)
  {
    var d := st.dimension;
    if d == |st.lows| then
      st.(dimension := d + 1, lows := st.lows + [v], highs := st.highs + [v])
    else
      st.(dimension := d + 1,
          lows := st.lows[d := Min(st.lows[d], v)],
          highs := st.highs[d := Max(st.highs[d], v)])
  }

  function Step(st: ScanState, t: Token, parse: string -> Option<real>): (r: Result<ScanState, EnvelopeError>)
    requires Shaped(st)
    ensures r.Success? ==> Shaped(r.value) && |r.value.lows| >= |st.lows|
  {
    match t
    case Comma => Success(st.(dimension := 0))
    case Open(k) => Success(WithLevel(st, k, Level(st, k) + 1).(dimension := 0))
    case Close(k) =>
      (match CloseLevel(st, k)
       case Failure(e) => Failure(e)
       case Success(c) => Success(c.(dimension := 0)))
    case Number(text, stop) =>
      var closed := if stop.AtClose? then CloseLevel(st, stop.kind) else Success(st);
      if closed.Failure? then Failure(closed.error)
      else
        match parse(text)
        case None => Failure(NumberFormat(text))
        case Some(v) =>
          var placed := Place(closed.value, v);
          Success(if EndsTuple(stop) then placed.(dimension := 0) else placed)
  }

  /** The ordinates the scanner builds from the remaining tokens `toks`. */
  function Finish(st: ScanState, toks: seq<Token>, parse: string -> Option<real>): Result<seq<real>, EnvelopeError>
    requires Shaped(st)
    decreases |toks|
  {
    if toks == [] then
      if st.parens != 0 then Failure(UnbalancedParenthesis(')'))
      else if st.brackets != 0 then Failure(UnbalancedParenthesis(']'))
      else Success(Box(st.lows, st.highs))
    else
      match Step(st, toks[0], parse)
      case Failure(e) => Failure(e)
      case Success(next) => Finish(next, toks[1..], parse)
  }

  /** The ordinates of the envelope parsed from `wkt`, or the exception. */
  function ParseBox(wkt: string, parse: string -> Option<real>): Result<seq<real>, EnvelopeError> {
    Finish(Initial, Lex(wkt, 0), parse)
  }

  /** The tokens still ahead of a scan standing at index `i`; the scan may
      step one past the end of the text. */
  function Remaining(s: string, i: nat): seq<Token> {
    if i <= |s| then Lex(s, i) else []
  }

  /** A scan of `wkt` standing at index `i` in state `st` will end as the
      scan of the whole text does. */
  predicate Resumes(wkt: string, parse: string -> Option<real>, st: ScanState, i: nat)
    requires Shaped(st)
  {
    Finish(st, Remaining(wkt, i), parse) == ParseBox(wkt, parse)
  }

  /** Reading the token `t` ahead of `rest`. */
  lemma FinishCons(st: ScanState, t: Token, rest: seq<Token>, parse: string -> Option<real>)
    requires Shaped(st)
    ensures Step(st, t, parse).Failure? ==>
      Finish(st, [t] + rest, parse) == Failure(Step(st, t, parse).error)
    ensures Step(st, t, parse).Success? ==>
      Finish(st, [t] + rest, parse) == Finish(Step(st, t, parse).value, rest, parse)
  {
    assert ([t] + rest)[0] == t && ([t] + rest)[1..] == rest;
  }

  /** The number that starts at `i` and the tokens after it. */
  lemma LexNumber(s: string, i: nat, j: nat)
    requires i < |s| && !IsIdentifierStart(s[i]) && !IsWhitespace(s[i])
    requires s[i] !in {',', '(', '[', ')', ']'}
    requires i < j <= |s| && NumberEnd(s, j) == NumberEnd(s, i + 1)
    requires j == |s| || EndsNumber(s[j])
    ensures Lex(s, i) ==
      [Number(s[i..j], if j == |s| then AtEnd else StopAt(s[j]))] + Remaining(s, j + 1)
  {
  }

  /** Skipping an identifier leaves the scan's outcome alone. */
  lemma ResumesAfterIdentifier(wkt: string, parse: string -> Option<real>, st: ScanState, i: nat)
    requires Shaped(st) && i < |wkt| && IsIdentifierStart(wkt[i]) && Resumes(wkt, parse, st, i)
    ensures Resumes(wkt, parse, st, SkipIdentifier(wkt, i + 1))
  {
  }

  /** The token a single character stands for. */
  function Symbol(c: char): Token
    requires c in {',', '(', '[', ')', ']'}
  {
    match c
    case ',' => Comma
    case '(' => Open(Paren)
    case '[' => Open(Square)
    case ')' => Close(Paren)
    case ']' => Close(Square)
  }

  /** Reading a space, a comma, or an opening or closing character. */
  lemma ResumesAfterSymbol(wkt: string, parse: string -> Option<real>, st: ScanState, i: nat)
    requires Shaped(st) && i < |wkt| && !IsIdentifierStart(wkt[i]) && Resumes(wkt, parse, st, i)
    ensures IsWhitespace(wkt[i]) ==> Resumes(wkt, parse, st, i + 1)
    ensures !IsWhitespace(wkt[i]) && wkt[i] in {',', '(', '[', ')', ']'} ==>
      var step := Step(st, Symbol(wkt[i]), parse);
      && (step.Failure? ==> ParseBox(wkt, parse) == Failure(step.error))
      && (step.Success? ==> Resumes(wkt, parse, step.value, i + 1))
  {
    if !IsWhitespace(wkt[i]) && wkt[i] in {',', '(', '[', ')', ']'} {
      FinishCons(st, Symbol(wkt[i]), Lex(wkt, i + 1), parse);
    }
  }

  /** Reading the number that starts at `i` and ends at `j`. */
  lemma ResumesAfterNumber(wkt: string, parse: string -> Option<real>, st: ScanState, i: nat, j: nat)
    requires Shaped(st) && i < |wkt| && !IsIdentifierStart(wkt[i]) && Resumes(wkt, parse, st, i)
    requires !IsWhitespace(wkt[i]) && wkt[i] !in {',', '(', '[', ')', ']'}
    requires i < j <= |wkt| && NumberEnd(wkt, j) == NumberEnd(wkt, i + 1)
    requires j == |wkt| || EndsNumber(wkt[j])
    ensures var step := Step(st, Number(wkt[i..j], if j == |wkt| then AtEnd else StopAt(wkt[j])), parse);
      && (step.Failure? ==> ParseBox(wkt, parse) == Failure(step.error))
      && (step.Success? ==> Resumes(wkt, parse, step.value, j + 1))
  {
    LexNumber(wkt, i, j);
    FinishCons(st, Number(wkt[i..j], if j == |wkt| then AtEnd else StopAt(wkt[j])), Remaining(wkt, j + 1), parse);
  }

  /** A number that parses to `v`, after its stop character has left the
      state `closed`, is recorded there. */
  lemma NumberStep(st: ScanState, text: string, stop: Stop, parse: string -> Option<real>, closed: ScanState, v: real)
    requires Shaped(st) && parse(text) == Some(v)
    requires (if stop.AtClose? then CloseLevel(st, stop.kind) else Success(st)) == Success(closed)
    ensures Shaped(closed)
    ensures Step(st, Number(text, stop), parse) ==
      Success(if EndsTuple(stop) then Place(closed, v).(dimension := 0) else Place(closed, v))
  {
  }

  // ---------------------------------------------------------------------
  // Independent readings of the tokens

  /** A number and its position within its coordinate tuple. */
  datatype Placement = Placement(axis: nat, text: string)

  function Placements(toks: seq<Token>, d: nat): seq<Placement>
    decreases |toks|
  {
    if toks == [] then []
    else match toks[0]
      case Number(text, stop) =>
        [Placement(d, text)] + Placements(toks[1..], if EndsTuple(stop) then 0 else d + 1)
      case _ => Placements(toks[1..], 0)
  }

  /** The change a token makes to the nesting level of `k`. */
  function Delta(t: Token, k: Bracket): int {
    match t
    case Open(k') => if k' == k then 1 else 0
    case Close(k') => if k' == k then -1 else 0
    case Number(_, stop) => if stop == AtClose(k) then -1 else 0
    case Comma => 0
  }

  function Depth(toks: seq<Token>, k: Bracket): int
    decreases |toks|
  {
    if toks == [] then 0 else Delta(toks[0], k) + Depth(toks[1..], k)
  }

  /** Starting at level `base`, no prefix of `toks` closes more than it
      opens, and the whole of `toks` closes everything. */
  predicate Balanced(toks: seq<Token>, base: int, k: Bracket) {
    && base + Depth(toks, k) == 0
    && forall n :: 0 <= n <= |toks| ==> base + Depth(toks[..n], k) >= 0
  }

  predicate AllParse(toks: seq<Token>, parse: string -> Option<real>) {
    forall n :: 0 <= n < |toks| && toks[n].Number? ==> parse(toks[n].text).Some?
  }

  // ---------------------------------------------------------------------
  // One step at a time

  /** A step fails exactly when it closes a level that is not open or meets
      a number that does not parse; otherwise it moves the levels by the
      token's `Delta`. */
  lemma StepLevels(st: ScanState, t: Token, parse: string -> Option<real>)
    requires Good(st)
    ensures Step(st, t, parse).Success? <==>
      && st.parens + Delta(t, Paren) >= 0
      && st.brackets + Delta(t, Square) >= 0
      && (t.Number? ==> parse(t.text).Some?)
    ensures Step(st, t, parse).Success? ==>
      && Step(st, t, parse).value.parens == st.parens + Delta(t, Paren)
      && Step(st, t, parse).value.brackets == st.brackets + Delta(t, Square)
      && Good(Step(st, t, parse).value)
  {
    if Step(st, t, parse).Success? && t.Number? {
      var closed := if t.stop.AtClose? then CloseLevel(st, t.stop.kind) else Success(st);
      var v := parse(t.text).value;
      var placed := Place(closed.value, v);
      assert forall k :: 0 <= k < |placed.lows| ==> placed.lows[k] <= placed.highs[k];
    }
  }

  lemma BalancedCons(toks: seq<Token>, base: int, k: Bracket)
    requires |toks| > 0 && base >= 0
    ensures Balanced(toks, base, k) <==>
      base + Delta(toks[0], k) >= 0 && Balanced(toks[1..], base + Delta(toks[0], k), k)
  {
    var b' := base + Delta(toks[0], k);
    forall n | 1 <= n <= |toks|
      ensures Depth(toks[..n], k) == Delta(toks[0], k) + Depth(toks[1..][..n - 1], k)
    {
      assert toks[..n][1..] == toks[1..][..n - 1];
    }
    assert toks[..0] == [] && toks[..1][1..] == [];
    if base + Delta(toks[0], k) >= 0 && Balanced(toks[1..], b', k) {
      forall n | 0 <= n <= |toks| ensures base + Depth(toks[..n], k) >= 0 {
        if n > 0 {
          assert b' + Depth(toks[1..][..n - 1], k) >= 0;
        }
      }
    }
    if Balanced(toks, base, k) {
      forall n | 0 <= n <= |toks[1..]| ensures b' + Depth(toks[1..][..n], k) >= 0 {
        assert base + Depth(toks[..n + 1], k) >= 0;
      }
    }
  }

  lemma AllParseCons(toks: seq<Token>, parse: string -> Option<real>)
    requires |toks| > 0
    ensures AllParse(toks, parse) <==>
      (toks[0].Number? ==> parse(toks[0].text).Some?) && AllParse(toks[1..], parse)
  {
    if (toks[0].Number? ==> parse(toks[0].text).Some?) && AllParse(toks[1..], parse) {
      forall n | 0 <= n < |toks| && toks[n].Number? ensures parse(toks[n].text).Some? {
        if n > 0 {
          assert toks[1..][n - 1] == toks[n];
        }
      }
    }
  }

  // ---------------------------------------------------------------------
  // When the scanner fails

  /** The scanner succeeds exactly when the parentheses and the brackets
      balance and every number parses; in every other case it throws. */
  lemma {:induction false} FinishSucceedsIff(st: ScanState, toks: seq<Token>, parse: string -> Option<real>)
    requires Good(st)
    ensures Finish(st, toks, parse).Success? <==>
      && Balanced(toks, st.parens, Paren)
      && Balanced(toks, st.brackets, Square)
      && AllParse(toks, parse)
    decreases |toks|
  {
    if toks == [] {
      assert toks[..0] == [];
    } else {
      StepLevels(st, toks[0], parse);
      BalancedCons(toks, st.parens, Paren);
      BalancedCons(toks, st.brackets, Square);
      AllParseCons(toks, parse);
      if Step(st, toks[0], parse).Success? {
        FinishSucceedsIff(Step(st, toks[0], parse).value, toks[1..], parse);
      }
    }
  }

  /** The constructor throws exactly when the text's parentheses or brackets
      do not balance or one of its numbers does not parse. */
  lemma ParseBoxSucceedsIff(wkt: string, parse: string -> Option<real>)
    ensures ParseBox(wkt, parse).Success? <==>
      && Balanced(Lex(wkt, 0), 0, Paren)
      && Balanced(Lex(wkt, 0), 0, Square)
      && AllParse(Lex(wkt, 0), parse)
  {
    FinishSucceedsIff(Initial, Lex(wkt, 0), parse);
  }

  // ---------------------------------------------------------------------
  // What the scanner computes

  /** `box` lies around the extremes already in `st`. */
  predicate Encloses(box: seq<real>, st: ScanState)
    requires Even(box) && Shaped(st)
  {
    && |st.lows| <= Dim(box)
    && forall k :: 0 <= k < |st.lows| ==> Lo(box, k) <= st.lows[k] && st.highs[k] <= Hi(box, k)
  }

  /** Every placed number parses, stands at an axis of `box`, and lies within
      `box` along that axis. */
  predicate Covers(box: seq<real>, ps: seq<Placement>, parse: string -> Option<real>)
    requires Even(box)
  {
    forall n :: 0 <= n < |ps| ==>
      && ps[n].axis < Dim(box)
      && parse(ps[n].text).Some?
      && Lo(box, ps[n].axis) <= parse(ps[n].text).value <= Hi(box, ps[n].axis)
  }

  /** `x` is the value of a number placed at axis `k`. */
  predicate ReadAt(x: real, k: nat, ps: seq<Placement>, parse: string -> Option<real>) {
    exists n :: 0 <= n < |ps| && ps[n].axis == k && parse(ps[n].text) == Some(x)
  }

  /** `x` is an extreme already in `st` at axis `k` (`lows` when `low`,
      otherwise `highs`), or the value of a number placed at axis `k`. */
  predicate Attained(x: real, k: nat, low: bool, st: ScanState, ps: seq<Placement>, parse: string -> Option<real>)
    requires Shaped(st)
  {
    || (k < |st.lows| && x == (if low then st.lows[k] else st.highs[k]))
    || ReadAt(x, k, ps, parse)
  }

  /** Every ordinate of `box` is the value of a number placed at its axis. */
  predicate Tight(box: seq<real>, ps: seq<Placement>, parse: string -> Option<real>)
    requires Even(box)
  {
    forall k :: 0 <= k < Dim(box) ==> ReadAt(Lo(box, k), k, ps, parse) && ReadAt(Hi(box, k), k, ps, parse)
  }

  /** A successful scan returns a legal envelope. */
  lemma {:induction false} FinishLegal(st: ScanState, toks: seq<Token>, parse: string -> Option<real>)
    requires Good(st) && Finish(st, toks, parse).Success?
    ensures Legal(Finish(st, toks, parse).value)
    decreases |toks|
  {
    if toks != [] {
      StepLevels(st, toks[0], parse);
      FinishLegal(Step(st, toks[0], parse).value, toks[1..], parse);
    }
  }

  /** A successful scan returns an envelope that encloses the extremes
      it started from and every number it reads, at the number's tuple
      position. */
  lemma {:induction false} FinishEncloses(st: ScanState, toks: seq<Token>, parse: string -> Option<real>)
    requires Good(st) && Finish(st, toks, parse).Success?
    ensures var box := Finish(st, toks, parse).value;
      && Even(box)
      && Encloses(box, st)
      && Covers(box, Placements(toks, st.dimension), parse)
    decreases |toks|
  {
    if toks == [] {
      BoxEncloses(st);
    } else {
      var t, rest := toks[0], toks[1..];
      StepLevels(st, t, parse);
      StepRecords(st, t, parse);
      var next := Step(st, t, parse).value;
      FinishEncloses(next, rest, parse);
      var box := Finish(st, toks, parse).value;
      assert box == Finish(next, rest, parse).value;
      var ps := Placements(rest, next.dimension);
      if t.Number? {
        EnclosesStep(box, st, next, ps, Placements(toks, st.dimension), st.dimension, t.text, parse(t.text).value, parse);
      } else {
        assert Placements(toks, st.dimension) == ps;
      }
    }
  }

  /** The box built from the extremes of `st` lies around them. */
  lemma BoxEncloses(st: ScanState)
    requires Shaped(st)
    ensures Encloses(Box(st.lows, st.highs), st)
  {
    var box := Box(st.lows, st.highs);
    assert forall k :: 0 <= k < |st.lows| ==> Lo(box, k) == st.lows[k] && Hi(box, k) == st.highs[k];
  }

  /** What a successful step does to the extremes and the tuple position:
      a number is placed at the current position, anything else starts a
      new tuple and leaves the extremes alone. */
  lemma StepRecords(st: ScanState, t: Token, parse: string -> Option<real>)
    requires Shaped(st) && Step(st, t, parse).Success?
    ensures var next := Step(st, t, parse).value;
      if t.Number? then
        && parse(t.text).Some?
        && next.lows == Place(st, parse(t.text).value).lows
        && next.highs == Place(st, parse(t.text).value).highs
        && next.dimension == (if EndsTuple(t.stop) then 0 else st.dimension + 1)
      else
        next.lows == st.lows && next.highs == st.highs && next.dimension == 0
  {
    if t.Number? {
      var closed := if t.stop.AtClose? then CloseLevel(st, t.stop.kind).value else st;
      assert closed.dimension == st.dimension && closed.lows == st.lows && closed.highs == st.highs;
    }
  }

  /** Every ordinate of a successful scan is attained: it is an extreme the
      scan started from or the value of a number read at that axis. */
  lemma {:induction false} FinishTight(st: ScanState, toks: seq<Token>, parse: string -> Option<real>)
    requires Good(st) && Finish(st, toks, parse).Success?
    ensures var box := Finish(st, toks, parse).value;
      && Even(box)
      && forall k :: 0 <= k < Dim(box) ==>
           && Attained(Lo(box, k), k, true, st, Placements(toks, st.dimension), parse)
           && Attained(Hi(box, k), k, false, st, Placements(toks, st.dimension), parse)
    decreases |toks|
  {
    if toks == [] {
    } else {
      var t, rest := toks[0], toks[1..];
      StepLevels(st, t, parse);
      StepRecords(st, t, parse);
      var next := Step(st, t, parse).value;
      FinishTight(next, rest, parse);
      var box := Finish(st, toks, parse).value;
      assert box == Finish(next, rest, parse).value;
      var ps := Placements(rest, next.dimension);
      var all := Placements(toks, st.dimension);
      if t.Number? {
        var v := parse(t.text).value;
        var d := st.dimension;
        assert all == [Placement(d, t.text)] + ps;
        forall k | 0 <= k < Dim(box)
          ensures Attained(Lo(box, k), k, true, st, all, parse)
          ensures Attained(Hi(box, k), k, false, st, all, parse)
        {
          AttainedStep(Lo(box, k), k, true, st, next, ps, all, d, t.text, v, parse);
          AttainedStep(Hi(box, k), k, false, st, next, ps, all, d, t.text, v, parse);
        }
      } else {
        assert all == ps;
      }
    }
  }

  /** Reading the number `text`, of value `v`, at axis `d` keeps every
      extreme attained. */
  lemma AttainedStep(x: real, k: nat, low: bool, st: ScanState, next: ScanState,
                     ps: seq<Placement>, all: seq<Placement>, d: nat, text: string, v: real,
                     parse: string -> Option<real>)
    requires Shaped(st) && Shaped(next) && d == st.dimension
    requires next.lows == Place(st, v).lows && next.highs == Place(st, v).highs
    requires parse(text) == Some(v) && all == [Placement(d, text)] + ps
    requires Attained(x, k, low, next, ps, parse)
    ensures Attained(x, k, low, st, all, parse)
  {
    if exists n :: 0 <= n < |ps| && ps[n].axis == k && parse(ps[n].text) == Some(x) {
      var n :| 0 <= n < |ps| && ps[n].axis == k && parse(ps[n].text) == Some(x);
      assert all[n + 1] == ps[n];
    } else if k == d && x == v {
      assert all[0] == Placement(d, text);
    }
  }

  /** Reading the number `text`, of value `v`, at axis `d` keeps the
      enclosing box around everything read. */
  lemma EnclosesStep(box: seq<real>, st: ScanState, next: ScanState,
                     ps: seq<Placement>, all: seq<Placement>, d: nat, text: string, v: real,
                     parse: string -> Option<real>)
    requires Even(box) && Shaped(st) && Shaped(next) && d == st.dimension
    requires next.lows == Place(st, v).lows && next.highs == Place(st, v).highs
    requires parse(text) == Some(v) && all == [Placement(d, text)] + ps
    requires Encloses(box, next) && Covers(box, ps, parse)
    ensures Encloses(box, st) && Covers(box, all, parse)
  {
    assert Lo(box, d) <= next.lows[d] <= v <= next.highs[d] <= Hi(box, d);
    forall k | 0 <= k < |st.lows|
      ensures Lo(box, k) <= st.lows[k] && st.highs[k] <= Hi(box, k)
    {
      assert next.lows[k] <= st.lows[k] && st.highs[k] <= next.highs[k];
    }
    forall n | 0 <= n < |all|
      ensures all[n].axis < Dim(box) && parse(all[n].text).Some?
      ensures Lo(box, all[n].axis) <= parse(all[n].text).value <= Hi(box, all[n].axis)
    {
      if n > 0 { assert all[n] == ps[n - 1]; }
    }
  }

  /** A `BOX`/`POLYGON` text that scans gives the smallest envelope around
      its numbers, taken position by position within the tuples: every
      number lies within the envelope at its position, every ordinate is the
      value of some number at that position, and the dimension is the
      length of the longest tuple (zero exactly when there is no number). */
  lemma ParseBoxIsTightEnvelope(wkt: string, parse: string -> Option<real>)
    requires ParseBox(wkt, parse).Success?
    ensures var box, ps := ParseBox(wkt, parse).value, Placements(Lex(wkt, 0), 0);
      && Legal(box)
      && Covers(box, ps, parse)
      && Tight(box, ps, parse)
      && (Dim(box) == 0 <==> ps == [])
  {
    FinishIsTightEnvelope(Lex(wkt, 0), parse);
  }

  /** `ParseBoxIsTightEnvelope`, for any tokens scanned from the start. */
  lemma FinishIsTightEnvelope(toks: seq<Token>, parse: string -> Option<real>)
    requires Finish(Initial, toks, parse).Success?
    ensures var box, ps := Finish(Initial, toks, parse).value, Placements(toks, 0);
      && Legal(box)
      && Covers(box, ps, parse)
      && Tight(box, ps, parse)
      && (Dim(box) == 0 <==> ps == [])
  {
    var box, ps := Finish(Initial, toks, parse).value, Placements(toks, 0);
    FinishLegal(Initial, toks, parse);
    FinishEncloses(Initial, toks, parse);
    FinishTight(Initial, toks, parse);
    forall k | 0 <= k < Dim(box)
      ensures ReadAt(Lo(box, k), k, ps, parse) && ReadAt(Hi(box, k), k, ps, parse)
    {
      assert Attained(Lo(box, k), k, true, Initial, ps, parse);
      assert Attained(Hi(box, k), k, false, Initial, ps, parse);
    }
    if ps != [] {
      assert ps[0].axis < Dim(box);
    }
  }

}

# Geotoolkit envelope, R-tree checks, complex attributes and route features in Dafny

This project models four parts of the Geotoolkit GIS toolkit and proves
properties of them.

- **`GeneralEnvelope`** (module `Geometry`, with the algebra in `Ordinates`
  and the WKT parser's specification in `Wkt`). An envelope is an
  axis-aligned box of any dimension. Its `ordinates` array holds all minima,
  then all maxima. The model covers:
  - the constructors from corners and from Well Known Text;
  - the accessors;
  - the mutators `setRange`, `setEnvelope`, `add` and `intersect`, which
    overwrite the array in place;
  - the read-only tests `isEmpty`, `contains` and `intersects`;
  - `getSubEnvelope`, `equals` and `clone`.

  The WKT constructor is a character scanner. It is proved equal to a
  specification: a tokenizer (`Lex`) followed by a fold over the tokens
  (`Finish`). That specification is then proved to throw exactly on
  unbalanced parentheses or brackets and on unparsable numbers. Otherwise it
  gives the smallest envelope around the numbers, position by position within
  their tuples.
- **The invariant checkers of the Hilbert R-tree tests** (module
  `HilbertChecks`). A tree is a value: leaves hold cells of entries, and
  internal nodes hold children. Each checker is a method with the test's
  loops. It is proved against a fold over the tree: the union of the
  boundaries, the number of entries, or the in-order verdict over the
  entries.
- **Property lookup and replacement on a complex attribute** (module
  `ComplexAttributes`). This covers lookup by string and by qualified name,
  first-match lookup, size-checked replacement, the order-blind comparison of
  property collections, and the `append`/`last` helpers of the tree printer.
- **The `AvoidFeatureType` enumeration of OpenLS 1.2.1** (module
  `AvoidFeatureTypes`). It is a two-constant string codec.

Java exceptions become `Failure`/`Fail` results carrying an error value that
names the exception. `Double.parseDouble` is the parameter `parse`, and
`DefaultName.match` is the parameter `matches`. In the R-tree checks,
`DefaultTreeUtils.getCoords` is the parameter `coordsOf`.

## Model

| member | source | states |
|---|---|---|
| Geometry.GeneralEnvelope.constructor | modules/referencing/geotk-referencing/src/main/java/org/geotoolkit/geometry/GeneralEnvelope.java:118-120 | a new envelope of `dimension` axes has `2 * dimension` ordinates, all zero, and is legal |
| Geometry.GeneralEnvelope.Dimension | modules/referencing/geotk-referencing/src/main/java/org/geotoolkit/geometry/GeneralEnvelope.java:627-629 | the dimension is half the ordinate count, rounded down |
| Geometry.GeneralEnvelope.CheckCoordinates | modules/referencing/geotk-referencing/src/main/java/org/geotoolkit/geometry/GeneralEnvelope.java:471-479 | passes exactly when every minimum is at most its maximum; a failure names an axis whose minimum exceeds its maximum, the first such axis |
| Geometry.GeneralEnvelope.FromCorners | modules/referencing/geotk-referencing/src/main/java/org/geotoolkit/geometry/GeneralEnvelope.java:142-152 | corners of different lengths fail with both lengths; otherwise the envelope exists exactly when `minDP[i] <= maxDP[i]` on every axis, and its ordinates are `minDP` followed by `maxDP` |
| Geometry.GeneralEnvelope.CopyOf | modules/referencing/geotk-referencing/src/main/java/org/geotoolkit/geometry/GeneralEnvelope.java:405-408 | `Arrays.copyOf` to a longer length keeps the prefix and pads with zeros, in a fresh array |
| Geometry.GeneralEnvelope.ArrayCopy | modules/referencing/geotk-referencing/src/main/java/org/geotoolkit/geometry/GeneralEnvelope.java:1185-1186 | `System.arraycopy` between distinct arrays replaces `length` elements of `dest` from `destPos` with those of `src` from `srcPos`, and nothing else |
| Geometry.GeneralEnvelope.Record | modules/referencing/geotk-referencing/src/main/java/org/geotoolkit/geometry/GeneralEnvelope.java:403-418 | recording a parsed value at the current tuple position (growing the arrays when full) gives exactly the scanner state the specification's `Place` describes |
| Geometry.GeneralEnvelope.SkipIdentifierPart | modules/referencing/geotk-referencing/src/main/java/org/geotoolkit/geometry/GeneralEnvelope.java:371-374 | the identifier skip stops at the first character that is not an identifier part, or at the end |
| Geometry.GeneralEnvelope.SkipNumber | modules/referencing/geotk-referencing/src/main/java/org/geotoolkit/geometry/GeneralEnvelope.java:391-401 | the number scan stops at the first whitespace, `,`, `)` or `]`, or at the end |
| Geometry.GeneralEnvelope.ScanSymbol | modules/referencing/geotk-referencing/src/main/java/org/geotoolkit/geometry/GeneralEnvelope.java:375-385 | a separator or bracket either makes the whole parse fail with the scanner's error (an unmatched `)` or `]`) or leaves a state from which the rest of the text parses as the specification says |
| Geometry.GeneralEnvelope.CloseNumber | modules/referencing/geotk-referencing/src/main/java/org/geotoolkit/geometry/GeneralEnvelope.java:394-399 | the character ending a number closes a level when it is `)` or `]`, failing as the specification does when none is open, and flushes the tuple exactly for `,`, `)` and `]` |
| Geometry.GeneralEnvelope.ScanNumber | modules/referencing/geotk-referencing/src/main/java/org/geotoolkit/geometry/GeneralEnvelope.java:386-421 | a number either fails the parse with the specification's error (unbalanced or unparsable) or is recorded at its tuple position, leaving a state from which the rest parses as specified |
| Geometry.GeneralEnvelope.ScanStep | modules/referencing/geotk-referencing/src/main/java/org/geotoolkit/geometry/GeneralEnvelope.java:367-421 | one pass of the scanning loop keeps the scanner's state equivalent to the specification's fold over the remaining tokens, or fails exactly as the whole parse fails |
| Geometry.GeneralEnvelope.ScanWkt | modules/referencing/geotk-referencing/src/main/java/org/geotoolkit/geometry/GeneralEnvelope.java:357-427 | the scanner's result is the specified bounding box of the text: `ParseBox`, whose meaning is proved in `Wkt.ParseBoxSucceedsIff` and `Wkt.ParseBoxIsTightEnvelope` |
| Geometry.GeneralEnvelope.FromWkt | modules/referencing/geotk-referencing/src/main/java/org/geotoolkit/geometry/GeneralEnvelope.java:357-429 | the WKT constructor fails exactly when the specification does, with its error; otherwise the new envelope holds the specified bounding box and is legal |
| Geometry.GeneralEnvelope.GetMinimum | modules/referencing/geotk-referencing/src/main/java/org/geotoolkit/geometry/GeneralEnvelope.java:693-699 | an axis outside `0 <= d < dimension` fails with `IndexOutOfBounds(d)` and any other succeeds; in a legal envelope the minimum of an axis is at most its maximum |
| Geometry.GeneralEnvelope.GetMaximum | modules/referencing/geotk-referencing/src/main/java/org/geotoolkit/geometry/GeneralEnvelope.java:709-715 | an axis outside `0 <= d < dimension` fails with `IndexOutOfBounds(d)` and any other succeeds; in a legal envelope the maximum of an axis is at least its minimum |
| Geometry.GeneralEnvelope.GetSpan | modules/referencing/geotk-referencing/src/main/java/org/geotoolkit/geometry/GeneralEnvelope.java:741-743 | an axis outside the envelope fails with `IndexOutOfBounds(d)`; otherwise minimum plus span is the maximum, and the span is non-negative in a legal envelope |
| Geometry.GeneralEnvelope.GetMedian | modules/referencing/geotk-referencing/src/main/java/org/geotoolkit/geometry/GeneralEnvelope.java:727-729 | an axis outside the envelope fails with `IndexOutOfBounds(d)`; otherwise the median lies halfway between minimum and maximum, and inside them in a legal envelope |
| Geometry.GeneralEnvelope.SetRange | modules/referencing/geotk-referencing/src/main/java/org/geotoolkit/geometry/GeneralEnvelope.java:777-792 | a negative or too large axis fails with no change; otherwise only that axis changes, to `[min, max]`, or to the midpoint twice when `min > max`; the envelope stays legal |
| Geometry.GeneralEnvelope.SetEnvelope | modules/referencing/geotk-referencing/src/main/java/org/geotoolkit/geometry/GeneralEnvelope.java:808-821 | an odd count, a dimension mismatch or a minimum above its maximum fail and change nothing; otherwise the ordinates become the given ones |
| Geometry.GeneralEnvelope.SetEnvelopeFrom | modules/referencing/geotk-referencing/src/main/java/org/geotoolkit/geometry/GeneralEnvelope.java:832-841 | another envelope of a different dimension fails with no change; otherwise its ordinates are copied |
| Geometry.GeneralEnvelope.Add | modules/referencing/geotk-referencing/src/main/java/org/geotoolkit/geometry/GeneralEnvelope.java:982-993 | a point of another dimension fails with no change; otherwise each minimum is lowered and each maximum raised to take in the point (see `Ordinates.AddPointIsLeastEnclosing`) |
| Geometry.GeneralEnvelope.AddEnvelope | modules/referencing/geotk-referencing/src/main/java/org/geotoolkit/geometry/GeneralEnvelope.java:1006-1018 | an envelope of another dimension fails with no change; otherwise the envelope becomes the union (see `Ordinates.UnionIsLeastEnclosing`) |
| Geometry.GeneralEnvelope.Intersect | modules/referencing/geotk-referencing/src/main/java/org/geotoolkit/geometry/GeneralEnvelope.java:1143-1159 | an envelope of another dimension fails with no change; otherwise each axis becomes the overlap of the two ranges, collapsed to its midpoint when empty (see `Ordinates.IntersectionIsGreatestEnclosed`) |
| Geometry.GeneralEnvelope.IsEmpty | modules/referencing/geotk-referencing/src/main/java/org/geotoolkit/geometry/GeneralEnvelope.java:922-934 | true exactly when there is no axis or some axis has a minimum not below its maximum |
| Geometry.GeneralEnvelope.ContainsPosition | modules/referencing/geotk-referencing/src/main/java/org/geotoolkit/geometry/GeneralEnvelope.java:1034-1046 | a point of another dimension fails; otherwise true exactly when every coordinate lies within its axis range, bounds included |
| Geometry.GeneralEnvelope.ContainsEnvelope | modules/referencing/geotk-referencing/src/main/java/org/geotoolkit/geometry/GeneralEnvelope.java:1068-1089 | an envelope of another dimension fails; otherwise true exactly when on every axis its minimum is at or above ours and its maximum at or below ours (strictly when edges are excluded) |
| Geometry.GeneralEnvelope.IntersectsEnvelope | modules/referencing/geotk-referencing/src/main/java/org/geotoolkit/geometry/GeneralEnvelope.java:1111-1131 | an envelope of another dimension fails; otherwise true exactly when on every axis the two ranges overlap (strictly when edges are excluded) |
| Geometry.GeneralEnvelope.GetSubEnvelope | modules/referencing/geotk-referencing/src/main/java/org/geotoolkit/geometry/GeneralEnvelope.java:1172-1189 | bounds outside `0 <= lower <= upper <= dimension` fail with the index-out-of-bounds error `BoundOutOfRange` naming the bad argument and its value; otherwise a fresh legal envelope of dimension `upper - lower` holding axes `lower` to `upper - 1` |
| Geometry.GeneralEnvelope.Equals | modules/referencing/geotk-referencing/src/main/java/org/geotoolkit/geometry/GeneralEnvelope.java:1253-1260 | equal exactly when the other envelope exists, has the same dimension and the same bounds on every axis |
| Geometry.GeneralEnvelope.Clone | modules/referencing/geotk-referencing/src/main/java/org/geotoolkit/geometry/GeneralEnvelope.java:1327-1336 | the clone has its own ordinate array with the same contents |
| Ordinates.Union | modules/referencing/geotk-referencing/src/main/java/org/geotoolkit/geometry/GeneralEnvelope.java:1006-1018 | each axis of the union runs from the smaller minimum to the larger maximum |
| Ordinates.AddPoint | modules/referencing/geotk-referencing/src/main/java/org/geotoolkit/geometry/GeneralEnvelope.java:982-993 | each axis runs from the smaller of minimum and coordinate to the larger of maximum and coordinate |
| Ordinates.LegalRange | modules/referencing/geotk-referencing/src/main/java/org/geotoolkit/geometry/GeneralEnvelope.java:780-784 | a range with `min <= max` is kept; an inverted one becomes its midpoint twice, strictly between the two given bounds |
| Ordinates.Intersection | modules/referencing/geotk-referencing/src/main/java/org/geotoolkit/geometry/GeneralEnvelope.java:1143-1159 | each axis of the result is the range `intersect` computes for it |
| Ordinates.UnionIsLeastEnclosing | modules/referencing/geotk-referencing/src/main/java/org/geotoolkit/geometry/GeneralEnvelope.java:1006-1018 | adding an envelope only lowers minima and raises maxima, keeps a legal envelope legal, encloses both operands (the assertion at line 1017) and is enclosed by every envelope that encloses both |
| Ordinates.AddPointIsLeastEnclosing | modules/referencing/geotk-referencing/src/main/java/org/geotoolkit/geometry/GeneralEnvelope.java:982-993 | adding a point only lowers minima and raises maxima, keeps a legal envelope legal, contains the point (the assertion at line 992) and is the smallest such envelope |
| Ordinates.UnionCommutes | modules/referencing/geotk-referencing/src/main/java/org/geotoolkit/geometry/GeneralEnvelope.java:1006-1018 | the union does not depend on the order of its operands |
| Ordinates.UnionAbsorbsEnclosed | modules/referencing/geotk-referencing/src/main/java/org/geotoolkit/geometry/GeneralEnvelope.java:1006-1018 | adding an enclosed envelope changes nothing, and adding the same envelope twice is adding it once |
| Ordinates.ContainsImpliesIntersects | modules/referencing/geotk-referencing/src/main/java/org/geotoolkit/geometry/GeneralEnvelope.java:1068-1089 | an envelope that contains a legal envelope also intersects it, with the same edge rule (the assertion at line 1087) |
| Ordinates.StrictImpliesInclusive | modules/referencing/geotk-referencing/src/main/java/org/geotoolkit/geometry/GeneralEnvelope.java:1068-1131 | containment and intersection with edges excluded imply them with edges included |
| Ordinates.IntersectionIsGreatestEnclosed | modules/referencing/geotk-referencing/src/main/java/org/geotoolkit/geometry/GeneralEnvelope.java:1143-1159 | the intersection is always legal, and for two legal overlapping envelopes it is enclosed by both and encloses every envelope enclosed by both |
| Ordinates.WithAxisAxes | modules/referencing/geotk-referencing/src/main/java/org/geotoolkit/geometry/GeneralEnvelope.java:787-788 | writing one axis leaves the dimension and every other axis unchanged |
| Ordinates.WithRangeKeepsOtherAxes | modules/referencing/geotk-referencing/src/main/java/org/geotoolkit/geometry/GeneralEnvelope.java:777-792 | after `setRange` the envelope is still legal, the axis holds a legal range, and every other axis is as before |
| Ordinates.SubOrdinatesAxes | modules/referencing/geotk-referencing/src/main/java/org/geotoolkit/geometry/GeneralEnvelope.java:1172-1189 | the sub-envelope has dimension `upper - lower`, its axis `i` is axis `lower + i`, and it is legal when the envelope is |
| Ordinates.SpanAndMedian | modules/referencing/geotk-referencing/src/main/java/org/geotoolkit/geometry/GeneralEnvelope.java:727-743 | in a legal envelope span is non-negative, minimum plus span is maximum, and the median is equidistant from both bounds |
| Ordinates.IsEmptyMeansZeroSpan | modules/referencing/geotk-referencing/src/main/java/org/geotoolkit/geometry/GeneralEnvelope.java:922-934 | a legal envelope is empty exactly when it has no axis or some axis has zero span |
| Ordinates.SameOrdinatesIffSameAxes | modules/referencing/geotk-referencing/src/main/java/org/geotoolkit/geometry/GeneralEnvelope.java:1253-1260 | two ordinate arrays are equal exactly when they have the same dimension and the same bounds on every axis |
| Wkt.SkipIdentifier | modules/referencing/geotk-referencing/src/main/java/org/geotoolkit/geometry/GeneralEnvelope.java:371-374 | the identifier skip never moves backwards or past the end |
| Wkt.NumberEnd | modules/referencing/geotk-referencing/src/main/java/org/geotoolkit/geometry/GeneralEnvelope.java:391-401 | the number scan never moves backwards or past the end |
| Wkt.Step | modules/referencing/geotk-referencing/src/main/java/org/geotoolkit/geometry/GeneralEnvelope.java:375-418 | a token the scanner accepts never shrinks the recorded tuple positions |
| Wkt.StepLevels | modules/referencing/geotk-referencing/src/main/java/org/geotoolkit/geometry/GeneralEnvelope.java:375-399 | a token is accepted exactly when it does not close a level that is not open and, for a number, the number parses; it moves the counts of open `(` and `[` by its own effect |
| Wkt.FinishSucceedsIff | modules/referencing/geotk-referencing/src/main/java/org/geotoolkit/geometry/GeneralEnvelope.java:365-424 | from a state with no negative level, scanning succeeds exactly when the remaining parentheses and brackets balance and every number parses |
| Wkt.ParseBoxSucceedsIff | modules/referencing/geotk-referencing/src/main/java/org/geotoolkit/geometry/GeneralEnvelope.java:357-424 | the WKT constructor succeeds exactly when the text's parentheses and brackets balance and every number in it parses; otherwise it throws |
| Wkt.FinishLegal | modules/referencing/geotk-referencing/src/main/java/org/geotoolkit/geometry/GeneralEnvelope.java:403-429 | the box scanned from a good state has every minimum at most its maximum |
| Wkt.FinishEncloses | modules/referencing/geotk-referencing/src/main/java/org/geotoolkit/geometry/GeneralEnvelope.java:403-429 | the box scanned from a state encloses the extremes already recorded and every number at its tuple position |
| Wkt.FinishTight | modules/referencing/geotk-referencing/src/main/java/org/geotoolkit/geometry/GeneralEnvelope.java:403-429 | each bound of the scanned box is a recorded extreme or the value of a number at that tuple position |
| Wkt.StepRecords | modules/referencing/geotk-referencing/src/main/java/org/geotoolkit/geometry/GeneralEnvelope.java:403-421 | an accepted number is placed at the current tuple position and ends the tuple exactly when followed by `,`, `)` or `]`; any other token leaves the recorded extremes and resets the position |
| Wkt.ParseBoxIsTightEnvelope | modules/referencing/geotk-referencing/src/main/java/org/geotoolkit/geometry/GeneralEnvelope.java:357-429 | a successful parse gives the smallest legal envelope around the numbers, position by position in their tuples: every number lies within the envelope at its position, every bound is the value of some number at that position, and the dimension is zero exactly when there is no number |
| Wkt.FinishIsTightEnvelope | modules/referencing/geotk-referencing/src/main/java/org/geotoolkit/geometry/GeneralEnvelope.java:357-429 | the same tight-envelope property, for any tokens scanned from the initial state |
| HilbertChecks.Add | modules/index/geotk-index-tree/src/test/java/org/geotoolkit/index/tree/HilbertRtreeTest.java:41 | `add` widens the accumulated envelope in place to the union with one more envelope |
| HilbertChecks.Clone | modules/index/geotk-index-tree/src/test/java/org/geotoolkit/index/tree/HilbertRtreeTest.java:39 | `clone` gives a fresh array with the same contents |
| HilbertChecks.Absorb | modules/index/geotk-index-tree/src/test/java/org/geotoolkit/index/tree/HilbertRtreeTest.java:38-42 | the accumulator after one more envelope is the running union of all envelopes so far, created on the first |
| HilbertChecks.AbsorbAll | modules/index/geotk-index-tree/src/test/java/org/geotoolkit/index/tree/HilbertRtreeTest.java:37-43 | the accumulator after a cell's coordinates is the running union extended by all of them |
| HilbertChecks.CheckBoundaryNode | modules/index/geotk-index-tree/src/test/java/org/geotoolkit/index/tree/HilbertRtreeTest.java:30-57 | true exactly when the node's boundary equals the union of the coordinates of all its cells (leaf) or of its children's boundaries (internal node), `null` standing for no entry |
| HilbertChecks.CoverEncloses | modules/index/geotk-index-tree/src/test/java/org/geotoolkit/index/tree/HilbertRtreeTest.java:30-57 | the union exists exactly when there is at least one envelope, and encloses each of them |
| HilbertChecks.CoverIsLeast | modules/index/geotk-index-tree/src/test/java/org/geotoolkit/index/tree/HilbertRtreeTest.java:30-57 | every envelope that encloses all the envelopes encloses their union: the expected boundary is the smallest enclosing one |
| HilbertChecks.CountEltsInHilbertNode | modules/index/geotk-index-tree/src/test/java/org/geotoolkit/index/tree/HilbertRtreeTest.java:64-79 | the result is the given count plus the number of coordinates in all cells of all leaves below the node |
| HilbertChecks.CheckTreeElts | modules/index/geotk-index-tree/src/test/java/org/geotoolkit/index/tree/HilbertRtreeTest.java:59-62 | true exactly when the tree's reported element count equals the number of entries in its leaves |
| HilbertChecks.ElementsCountsEntries | modules/index/geotk-index-tree/src/test/java/org/geotoolkit/index/tree/HilbertRtreeTest.java:64-88 | the count of `countEltsInHilbertNode` is the number of entries the insertion check visits |
| HilbertChecks.FindInList | modules/index/geotk-index-tree/src/test/java/org/geotoolkit/index/tree/HilbertRtreeTest.java:92-100 | the search finds the entry exactly when the reference list holds the very same object with equal coordinates |
| HilbertChecks.CheckCell | modules/index/geotk-index-tree/src/test/java/org/geotoolkit/index/tree/HilbertRtreeTest.java:86-102 | checking one cell's entries in order gives the verdict of checking all entries up to the end of that cell |
| HilbertChecks.CheckLeaf | modules/index/geotk-index-tree/src/test/java/org/geotoolkit/index/tree/HilbertRtreeTest.java:84-104 | checking a leaf gives the verdict of checking its entries in order, stopping at the first failure |
| HilbertChecks.CheckElementInsertion | modules/index/geotk-index-tree/src/test/java/org/geotoolkit/index/tree/HilbertRtreeTest.java:82-112 | the result is that of checking every entry below the node in order: the first entry whose coordinates are not its object's fails the assertion, the first not found answers false, otherwise true |
| HilbertChecks.ScanAppend | modules/index/geotk-index-tree/src/test/java/org/geotoolkit/index/tree/HilbertRtreeTest.java:106-110 | once the checks of some entries all pass, the checks of what follows decide alone |
| HilbertChecks.ScanPrefix | modules/index/geotk-index-tree/src/test/java/org/geotoolkit/index/tree/HilbertRtreeTest.java:101-108 | a check that stops within a prefix stops there for the whole sequence |
| HilbertChecks.ScanVerdicts | modules/index/geotk-index-tree/src/test/java/org/geotoolkit/index/tree/HilbertRtreeTest.java:82-112 | the insertion check answers true exactly when every entry has its object's coordinates and its object is in the list; false only when some object is missing; an assertion failure only when some entry's coordinates are not its object's |
| HilbertChecks.FoundIsMembership | modules/index/geotk-index-tree/src/test/java/org/geotoolkit/index/tree/HilbertRtreeTest.java:91-99 | once an entry's coordinates are its object's, finding it is finding its object in the list |
| ComplexAttributes.QueryOf | modules/feature/geotk-feature/src/main/java/org/geotoolkit/feature/AbstractComplexAttribute.java:83-86 | a name without a namespace is looked up by its local part, any other by equality |
| ComplexAttributes.ComplexAttribute.Collect | modules/feature/geotk-feature/src/main/java/org/geotoolkit/feature/AbstractComplexAttribute.java:102-111 | the lookup for all properties keeps, in order, every property whose name is hit (see `SelectIsFilter`, `SelectAppend`) |
| ComplexAttributes.ComplexAttribute.GetPropertiesByString | modules/feature/geotk-feature/src/main/java/org/geotoolkit/feature/AbstractComplexAttribute.java:102-111 | the result is the ordered selection of properties whose name matches the string |
| ComplexAttributes.ComplexAttribute.GetPropertiesByName | modules/feature/geotk-feature/src/main/java/org/geotoolkit/feature/AbstractComplexAttribute.java:83-96 | the result is the ordered selection by local part when the name has no namespace, by exact name otherwise |
| ComplexAttributes.ComplexAttribute.Find | modules/feature/geotk-feature/src/main/java/org/geotoolkit/feature/AbstractComplexAttribute.java:134-142 | the single lookup returns the first of the properties the full lookup would return, or none when there is none |
| ComplexAttributes.ComplexAttribute.GetPropertyByString | modules/feature/geotk-feature/src/main/java/org/geotoolkit/feature/AbstractComplexAttribute.java:134-142 | the first property whose name matches the string, or none |
| ComplexAttributes.ComplexAttribute.GetPropertyByName | modules/feature/geotk-feature/src/main/java/org/geotoolkit/feature/AbstractComplexAttribute.java:117-128 | the first property hit by the name, by local part without a namespace, by equality otherwise, or none |
| ComplexAttributes.ComplexAttribute.SetValue | modules/feature/geotk-feature/src/main/java/org/geotoolkit/feature/AbstractComplexAttribute.java:157-165 | a collection of another size fails with both sizes and changes nothing; otherwise the properties become exactly the new ones; for the list-valued collection modelled here the size never changes |
| ComplexAttributes.Append | modules/feature/geotk-feature/src/main/java/org/geotoolkit/feature/AbstractComplexAttribute.java:416-420 | a fresh array one longer than the input, holding it followed by `end`; the input is untouched |
| ComplexAttributes.Last | modules/feature/geotk-feature/src/main/java/org/geotoolkit/feature/AbstractComplexAttribute.java:422-428 | a fresh copy of the same length whose last element, if any, is `end`; an empty input gives an empty copy |
| ComplexAttributes.SelectIsFilter | modules/feature/geotk-feature/src/main/java/org/geotoolkit/feature/AbstractComplexAttribute.java:102-111 | the lookup keeps exactly the properties whose name is hit, each as often as it occurs, and never more than there are |
| ComplexAttributes.SelectAppend | modules/feature/geotk-feature/src/main/java/org/geotoolkit/feature/AbstractComplexAttribute.java:102-111 | the lookup keeps the properties' order: it distributes over concatenation |
| ComplexAttributes.NamespacedLookupIsExact | modules/feature/geotk-feature/src/main/java/org/geotoolkit/feature/AbstractComplexAttribute.java:83-96 | with a namespace the name lookup ignores the string matcher and returns only properties with exactly that name |
| ComplexAttributes.ContainsAll | modules/feature/geotk-feature/src/main/java/org/geotoolkit/feature/AbstractComplexAttribute.java:228-229 | `containsAll` holds exactly when every element of the argument is in the receiver |
| ComplexAttributes.CollectionsEqual | modules/feature/geotk-feature/src/main/java/org/geotoolkit/feature/AbstractComplexAttribute.java:226-229 | the collection branch of `equals` holds exactly when each collection has every element of the other |
| ComplexAttributes.CollectionsEqualIsSameElements | modules/feature/geotk-feature/src/main/java/org/geotoolkit/feature/AbstractComplexAttribute.java:226-229 | two property collections compare equal exactly when they hold the same elements |
| ComplexAttributes.CollectionsEqualIsEquivalence | modules/feature/geotk-feature/src/main/java/org/geotoolkit/feature/AbstractComplexAttribute.java:226-229 | the comparison is reflexive, symmetric and transitive, and any reordering compares equal |
| AvoidFeatureTypes.Value | modules/jaxb-xml-binding/geotk-xml-ols/src/main/java/org/geotoolkit/ols/xml/v121/AvoidFeatureType.java:49-66 | `HIGHWAY` has the string "Highway" and `TOLLWAY` "Tollway" |
| AvoidFeatureTypes.FromValue | modules/jaxb-xml-binding/geotk-xml-ols/src/main/java/org/geotoolkit/ols/xml/v121/AvoidFeatureType.java:68-75 | returns the constant whose string equals the input exactly (so `fromValue(c.value()) == c`), and fails naming the input for any other string |
| AvoidFeatureTypes.EveryConstantIsListed | modules/jaxb-xml-binding/geotk-xml-ols/src/main/java/org/geotoolkit/ols/xml/v121/AvoidFeatureType.java:42-57 | `values()` lists every constant, each once |
| AvoidFeatureTypes.ValueIsInjective | modules/jaxb-xml-binding/geotk-xml-ols/src/main/java/org/geotoolkit/ols/xml/v121/AvoidFeatureType.java:49-57 | no two constants share a string |

## Left out

- Floating point: ordinates are exact reals. NaN and infinities are not modelled. This covers the `!`-comparisons written to catch NaN, `setToNull`, `isNull`, `setToInfinite`, `isInfinite` and the tolerance-based `equals(Envelope, eps, epsIsRelative)`.
- Coordinate reference systems are not modelled: the CRS field and its checks, `normalize`, the grid and CRS constructors, `getSpan(int, Unit)`, `toRectangle2D` and `hashCode`.
- Geometry.GeneralEnvelope.Equals compares ordinates only. The CRS comparison of `equals` is part of the CRS exclusion above.
- `getReducedEnvelope` is not modelled. Its second copy reads at `lower` instead of `upper` and writes at `upper` instead of `lower`, so it reads only minima and never copies a maximum, while some of those minima land in maximum slots. With `lower = 0` and `upper = dimension` that copy writes past the end of the new array and throws `IndexOutOfBoundsException`. Since the code disagrees with its documentation, there is no documented property to prove.
- The remaining constructors are not modelled: from `(min, max)`, from `GeneralDirectPosition`s, from an `Envelope`, a `GeographicBoundingBox` or a `Rectangle2D`. The `null` argument checks (`ensureNonNull`) are not modelled either: every argument exists.
- Geometry.GeneralEnvelope.constructor takes a `nat` dimension. The `NegativeArraySizeException` that `new double[dimension * 2]` throws for a negative dimension is not modelled, because a Dafny constructor cannot fail.
- Geometry.GeneralEnvelope.GetMinimum, `GetMaximum`, `GetSpan` and `GetMedian` report every axis outside the envelope as `IndexOutOfBounds(d)`, carrying the axis. `getMinimum` checks only the upper bound and `getMaximum` only the lower one; on the other side, and everywhere in `getSpan` and `getMedian`, the source fails in the array access, whose `ArrayIndexOutOfBoundsException` reports the array index instead of the axis.
- `Envelope` and `DirectPosition` arguments of `add`, `contains`, `intersects` and `intersect` are value snapshots in the same flat layout. Aliasing between an argument and `this` is not modelled. A `null` CRS on either side is assumed.
- Geometry.GeneralEnvelope.SetRange reports the `ArrayIndexOutOfBoundsException` of a too large axis as `IndexOutOfBounds`, the superclass the method declares. As in the source, nothing changes before it is thrown.
- Geometry.GeneralEnvelope.FromWkt is stated for ASCII text. `Character.isJavaIdentifierStart`, `isJavaIdentifierPart` and `isWhitespace` are modelled by their ASCII (and Unicode-space) cases.
- Geometry.GeneralEnvelope.FromWkt takes `Double.parseDouble` as the parameter `parse`. The accepted number syntax and the rounding of the parsed value are not modelled.
- Geometry.GeneralEnvelope.ScanWkt splits the source's single loop into helper methods that take and return the loop's variables: `ScanStep`, `ScanSymbol`, `ScanNumber`, `CloseNumber`, `SkipIdentifierPart` and `SkipNumber`. The `dimLimit` doubling of the arrays happens inside `Record`.
- Java `int` overflow is not modelled: counters, levels and dimensions are unbounded integers. This covers the WKT levels, `countEltsInHilbertNode`'s count and the `2 * dimension` array lengths.
- `toString` of `GeneralEnvelope` and of `AbstractComplexAttribute` is not modelled. It is presentation through `TableAppender` and unseen classes. Its path helpers `append` and `last` are modelled.
- The R-tree engine is not part of this model: `HilbertRTree`, insertion, deletion, splitting and serialization. Only the test's invariant checkers over a snapshot of a tree are modelled.
- HilbertChecks.CountEltsInHilbertNode, HilbertChecks.CheckTreeElts (which calls it on the root) and HilbertChecks.CheckElementInsertion require `Agrees`, that every cell has as many coordinates as objects. This is the Java `assert` at lines 70 and 87 of the test, taken as a precondition rather than as an `AssertionError`.
- HilbertChecks.CheckBoundaryNode requires every child of an internal node to carry a boundary, and every array passed to `add` to have one even length. A `null` child boundary makes the source throw a `NullPointerException`, and `add` (in `DefaultTreeUtils`, not part of this model) is assumed to be the union of two envelopes of equal dimension.
- `Node.isEmpty` (not part of this model) is taken to mean a cell with no coordinates. Skipping such a cell then changes nothing, so the model does not test it.
- The `Envelope` cast of `checkElementInsertion` is not modelled: every stored object is an envelope, and `getCoords` is a function of the object.
- ComplexAttributes.ComplexAttribute.GetPropertiesByName takes every property name and the property collection to be non-null. A property with a `null` name (which `toString` allows for) makes `prop.getName().equals(name)` throw a `NullPointerException` in the namespaced branch of `getProperties(Name)`. That exception is not modelled. `getProperty(Name)` compares the other way round and would skip such a property.
- ComplexAttributes.ComplexAttribute.SetValue does not model `newValues` being the attribute's own collection. `clear` would empty both, leaving no properties.
- ComplexAttributes.CollectionsEqual uses Dafny equality on properties for `Property.equals` (not part of this model). It covers only the collection branch of `equals`: the descriptor, type and `deepEquals` branches are not modelled.
- ComplexAttributes.ComplexAttribute.SetValue models the property collection as a list. When the attribute's collection is a set, the order of `addAll` and of the lookups is the set's iteration order, and `addAll` collapses equal elements of `newValues`: replacing `{a, b}` by `[p, p]` leaves one property. The size and contents clauses of `SetValue` therefore hold for list-valued collections only.

/** The invariant checkers that the Hilbert R-tree tests run over a tree.

    A snapshot of the tree is a value: a leaf holds cells, a cell holds
    parallel lists of entry coordinates and stored objects, and an internal
    node holds child nodes.  Every node may carry a boundary (`None` stands
    for a `null` array).  Coordinates and boundaries use the flat layout of
    `GeneralEnvelope` (minima, then maxima).  Stored objects are compared
    by identity, which is equality on the type parameter `O`; `coordsOf`
    stands for `DefaultTreeUtils.getCoords` applied to an object. */
module HilbertChecks {
  import opened Outcomes
  import opened Ordinates

  datatype Cell<O> = Cell(coords: seq<seq<real>>, objects: seq<O>)

  datatype Node<O> =
    | Leaf(boundary: Option<seq<real>>, cells: seq<Cell<O>>)
    | Internal(boundary: Option<seq<real>>, children: seq<Node<O>>)

  /** What the tree reports about itself, and its root. */
  datatype Tree<O> = Tree(elementsNumber: int, root: Node<O>)

  /** One stored entry: a coordinate array and the object it indexes. */
  datatype Entry<O> = Entry(coords: seq<real>, obj: O)

  /** A JUnit `assertTrue` that did not hold. */
  datatype TestFailure = AssertionError

  // ---------------------------------------------------------------------
  // Specification: folds over the snapshot, written from the last item so
  // that they follow the checkers' loops.

  /** All arrays in `vs` have length `n`, an even number. */
  predicate Uniform(vs: seq<seq<real>>, n: nat) {
    n % 2 == 0 && forall k :: 0 <= k < |vs| ==> |vs[k]| == n
  }

  /** The union of the envelopes `vs`, or `None` when there are none: the
      value `globalEnv` ends with. */
  function Cover(vs: seq<seq<real>>, n: nat): (r: Option<seq<real>>)
    requires Uniform(vs, n)
    ensures r.Some? ==> |r.value| == n
    decreases |vs|
  {
    if vs == [] then None
    else
      var prev := Cover(vs[..|vs| - 1], n);
      var v := vs[|vs| - 1];
      if prev.None? then Some(v) else Some(Union(prev.value, v))
  }

  /** The coordinates of every entry of `cells`, cell after cell. */
  function CellCoords<O>(cells: seq<Cell<O>>): seq<seq<real>>
    decreases |cells|
  {
    if cells == [] then [] else CellCoords(cells[..|cells| - 1]) + cells[|cells| - 1].coords
  }

  /** Every child carries a boundary of length `n`. */
  predicate Bounded<O>(children: seq<Node<O>>, n: nat) {
    n % 2 == 0 && forall k :: 0 <= k < |children| ==> children[k].boundary.Some? && |children[k].boundary.value| == n
  }

  function Bounds<O>(children: seq<Node<O>>, n: nat): (r: seq<seq<real>>)
    requires Bounded(children, n)
    ensures |r| == |children| && Uniform(r, n)
  {
    seq(|children|, k requires 0 <= k < |children| => children[k].boundary.value)
  }

  /** `checkBoundaryNode` can run on `node` without a `null` boundary among
      the children, and `add` sees arrays of one length `n`. */
  predicate Checkable<O>(node: Node<O>, n: nat) {
    match node
    case Leaf(_, cells) => Uniform(CellCoords(cells), n)
    case Internal(_, children) => Bounded(children, n)
  }

  /** The boundary `node` should have. */
  function Expected<O>(node: Node<O>, n: nat): Option<seq<real>>
    requires Checkable(node, n)
  {
    match node
    case Leaf(_, cells) => Cover(CellCoords(cells), n)
    case Internal(_, children) => Cover(Bounds(children, n), n)
  }

  /** Every cell below `node` has as many coordinates as objects: the
      `assert` of the counting and insertion checks. */
  predicate Agrees<O>(node: Node<O>)
    decreases node, 1
  {
    match node
    case Leaf(_, cells) => forall k :: 0 <= k < |cells| ==> |cells[k].coords| == |cells[k].objects|
    case Internal(_, children) => AllAgree(children)
  }

  predicate AllAgree<O>(ns: seq<Node<O>>)
    decreases ns, 0
  {
    forall k :: 0 <= k < |ns| ==> Agrees(ns[k])
  }

  /** The number of entries in the cells of the leaves below `node`. */
  function Elements<O>(node: Node<O>): nat
    decreases node, 1
  {
    match node
    case Leaf(_, cells) => |CellCoords(cells)|
    case Internal(_, children) => AllElements(children)
  }

  function AllElements<O>(ns: seq<Node<O>>): nat
    decreases ns, 0
  {
    if ns == [] then 0 else AllElements(ns[..|ns| - 1]) + Elements(ns[|ns| - 1])
  }

  function CellEntries<O>(c: Cell<O>): (r: seq<Entry<O>>)
    requires |c.coords| == |c.objects|
    ensures |r| == |c.coords|
  {
    seq(|c.coords|, j requires 0 <= j < |c.coords| => Entry(c.coords[j], c.objects[j]))
  }

  function CellsEntries<O>(cells: seq<Cell<O>>): seq<Entry<O>>
    requires forall k :: 0 <= k < |cells| ==> |cells[k].coords| == |cells[k].objects|
    decreases |cells|
  {
    if cells == [] then [] else CellsEntries(cells[..|cells| - 1]) + CellEntries(cells[|cells| - 1])
  }

  /** The entries below `node`, in the order the checks visit them. */
  function Entries<O>(node: Node<O>): seq<Entry<O>>
    requires Agrees(node)
    decreases node, 1
  {
    match node
    case Leaf(_, cells) => CellsEntries(cells)
    case Internal(_, children) => AllEntries(children)
  }

  function AllEntries<O>(ns: seq<Node<O>>): seq<Entry<O>>
    requires AllAgree(ns)
    decreases ns, 0
  {
    if ns == [] then [] else AllEntries(ns[..|ns| - 1]) + Entries(ns[|ns| - 1])
  }

  /** `listRef` holds the very object of `e`, with coordinates equal to
      those of `e`. */
  predicate Found<O(==)>(e: Entry<O>, listRef: seq<O>, coordsOf: O -> seq<real>) {
    exists il :: 0 <= il < |listRef| && listRef[il] == e.obj && e.coords == coordsOf(listRef[il])
  }

  /** The check of one entry: its coordinates must be those of its object,
      and it must be found. */
  function EntryVerdict<O(==)>(e: Entry<O>, listRef: seq<O>, coordsOf: O -> seq<real>): Result<bool, TestFailure> {
    if e.coords != coordsOf(e.obj) then Failure(AssertionError)
    else Success(Found(e, listRef, coordsOf))
  }

  /** The checks of `es` in order, stopping at the first that does not
      pass. */
  function Scan<O(==)>(es: seq<Entry<O>>, listRef: seq<O>, coordsOf: O -> seq<real>): Result<bool, TestFailure>
    decreases |es|
  {
    if es == [] then Success(true)
    else
      var prev := Scan(es[..|es| - 1], listRef, coordsOf);
      if prev != Success(true) then prev else EntryVerdict(es[|es| - 1], listRef, coordsOf)
  }

  // ---------------------------------------------------------------------
  // The checkers

  /** `DefaultTreeUtils.add`: widens `env` in place to enclose `v`. */
  method Add(env: array<real>, v: seq<real>)
    requires env.Length % 2 == 0 && |v| == env.Length
    modifies env
    ensures env[..] == Union(old(env[..]), v)
  {
    ghost var before := env[..];
    var dim := env.Length / 2;
    var i := 0;
    while i < dim
      invariant 0 <= i <= dim && env.Length == |before|
      invariant forall k :: 0 <= k < i ==> env[k] == Min(before[k], v[k])
      invariant forall k :: dim <= k < dim + i ==> env[k] == Max(before[k], v[k])
      invariant forall k :: i <= k < dim || dim + i <= k < 2 * dim ==> env[k] == before[k]
    {
      if v[i] < env[i] { env[i] := v[i]; }
      if v[i + dim] > env[i + dim] { env[i + dim] := v[i + dim]; }
      i := i + 1;
    }
    SameOrdinatesIffSameAxes(env[..], Union(before, v));
  }

  /** `clone` of a coordinate array. */
  method Clone(v: seq<real>) returns (a: array<real>)
    ensures fresh(a) && a[..] == v
  {
    a := new real[|v|](k => if 0 <= k < |v| then v[k] else 0.0);
  }

  /** `globalEnv` after one more envelope `v`: a copy of `v` when it was
      `null`, otherwise widened in place. */
  method Absorb(globalEnv: array?<real>, ghost prev: seq<seq<real>>, v: seq<real>, ghost n: nat) returns (env: array<real>)
    requires Uniform(prev, n) && |v| == n
    requires Cover(prev, n).None? <==> globalEnv == null
    requires globalEnv != null ==> globalEnv[..] == Cover(prev, n).value
    modifies globalEnv
    ensures Uniform(prev + [v], n)
    ensures (env == globalEnv || fresh(env)) && env[..] == Cover(prev + [v], n).value
  {
    assert Uniform(prev + [v], n);
    assert (prev + [v])[..|prev|] == prev;
    if globalEnv == null {
      env := Clone(v);
    } else {
      Add(globalEnv, v);
      env := globalEnv;
    }
  }

  /** `globalEnv` after each envelope of `vs` in turn. */
  method AbsorbAll(globalEnv: array?<real>, ghost prev: seq<seq<real>>, vs: seq<seq<real>>, ghost n: nat)
      returns (env: array?<real>)
    requires Uniform(prev, n) && Uniform(vs, n)
    requires Cover(prev, n).None? <==> globalEnv == null
    requires globalEnv != null ==> globalEnv[..] == Cover(prev, n).value
    modifies globalEnv
    ensures Uniform(prev + vs, n)
    ensures Cover(prev + vs, n).None? <==> env == null
    ensures env != null ==> env[..] == Cover(prev + vs, n).value
    ensures env == null || env == globalEnv || fresh(env)
  {
    env := globalEnv;
    ghost var seen := prev;
    var j := 0;
    while j < |vs|
      invariant 0 <= j <= |vs| && seen == prev + vs[..j] && Uniform(seen, n)
      invariant Cover(seen, n).None? <==> env == null
      invariant env != null ==> env[..] == Cover(seen, n).value
      invariant env == null || env == globalEnv || fresh(env)
    {
      env := Absorb(env, seen, vs[j], n);
      assert prev + vs[..j + 1] == seen + [vs[j]];
      seen := seen + [vs[j]];
      j := j + 1;
    }
    assert vs[..j] == vs;
  }

  /** `checkBoundaryNode`: the boundary of `node` is the union of the
      coordinates of its leaf entries, or of its children's boundaries, or
      both are `null`. */
  method CheckBoundaryNode<O>(node: Node<O>, ghost n: nat) returns (r: bool)
    requires Checkable(node, n)
    ensures r <==> Expected(node, n) == node.boundary
  {
    var globalEnv: array?<real> := null;
    ghost var seen: seq<seq<real>> := [];
    if node.Leaf? {
      var cells := node.cells;
      var i := 0;
      while i < |cells|
        invariant 0 <= i <= |cells|
        invariant seen == CellCoords(cells[..i])
        invariant Uniform(seen, n)
        invariant Cover(seen, n).None? <==> globalEnv == null
        invariant globalEnv != null ==> globalEnv[..] == Cover(seen, n).value
        invariant globalEnv != null ==> fresh(globalEnv)
      {
        CellCoordsPrefix(cells, i, n);
        assert Uniform(cells[i].coords, n) by {
          forall k | 0 <= k < |cells[i].coords| ensures |cells[i].coords[k]| == n {
            assert (seen + cells[i].coords)[|seen| + k] == cells[i].coords[k];
          }
        }
        globalEnv := AbsorbAll(globalEnv, seen, cells[i].coords, n);
        seen := seen + cells[i].coords;
        assert cells[..i + 1][..i] == cells[..i];
        i := i + 1;
      }
      assert cells[..i] == cells;
    } else {
      var children := node.children;
      ghost var all := Bounds(children, n);
      var i := 0;
      while i < |children|
        invariant 0 <= i <= |children|
        invariant seen == all[..i]
        invariant Uniform(seen, n)
        invariant Cover(seen, n).None? <==> globalEnv == null
        invariant globalEnv != null ==> globalEnv[..] == Cover(seen, n).value
        invariant globalEnv != null ==> fresh(globalEnv)
      {
        var boundary := children[i].boundary.value;
        globalEnv := Absorb(globalEnv, seen, boundary, n);
        assert all[..i + 1] == all[..i] + [boundary];
        seen := seen + [boundary];
        i := i + 1;
      }
      assert all[..i] == all;
    }
    if globalEnv == null {
      r := node.boundary.None?;
    } else {
      r := node.boundary.Some? && globalEnv[..] == node.boundary.value;
    }
  }

  /** `countEltsInHilbertNode`: `count` plus the number of entries below
      `candidate`. */
  method CountEltsInHilbertNode<O>(candidate: Node<O>, count: int) returns (r: int)
    requires Agrees(candidate)
    ensures r == count + Elements(candidate)
    decreases candidate
  {
    r := count;
    if candidate.Leaf? {
      var cells := candidate.cells;
      var i := 0;
      while i < |cells|
        invariant 0 <= i <= |cells|
        invariant r == count + |CellCoords(cells[..i])|
      {
        var ccount := |cells[i].coords|;
        assert cells[..i + 1][..i] == cells[..i];
        r := r + ccount;
        i := i + 1;
      }
      assert cells[..i] == cells;
    } else {
      var children := candidate.children;
      var i := 0;
      while i < |children|
        invariant 0 <= i <= |children|
        invariant r == count + AllElements(children[..i])
      {
        assert Agrees(children[i]);
        r := CountEltsInHilbertNode(children[i], r);
        assert children[..i + 1][..i] == children[..i];
        i := i + 1;
      }
      assert children[..i] == children;
    }
  }

  /** `checkTreeElts`: the tree reports as many elements as its leaves
      hold. */
  method CheckTreeElts<O>(tree: Tree<O>) returns (r: bool)
    requires Agrees(tree.root)
    ensures r <==> tree.elementsNumber == Elements(tree.root)
  {
    var counted := CountEltsInHilbertNode(tree.root, 0);
    r := tree.elementsNumber == counted;
  }

  /** The search of `listRef` for the object `obj` with coordinates
      `coords`. */
  method FindInList<O(==)>(obj: O, coords: seq<real>, listRef: seq<O>, coordsOf: O -> seq<real>) returns (found: bool)
    ensures found <==> Found(Entry(coords, obj), listRef, coordsOf)
  {
    found := false;
    var il := 0;
    while il < |listRef|
      invariant 0 <= il <= |listRef|
      invariant forall k :: 0 <= k < il ==> !(listRef[k] == obj && coords == coordsOf(listRef[k]))
    {
      if obj == listRef[il] {
        if coords == coordsOf(listRef[il]) {
          found := true;
          return;
        }
      }
      il := il + 1;
    }
  }

  /** The entries of cell `i` of a leaf, in order, once those of the cells
      before it have passed. */
  method CheckCell<O(==)>(cells: seq<Cell<O>>, i: nat, listRef: seq<O>, coordsOf: O -> seq<real>)
      returns (r: Result<bool, TestFailure>)
    requires forall k :: 0 <= k < |cells| ==> |cells[k].coords| == |cells[k].objects|
    requires i < |cells| && Scan(CellsEntries(cells[..i]), listRef, coordsOf) == Success(true)
    ensures r == Scan(CellsEntries(cells[..i + 1]), listRef, coordsOf)
  {
    var cuCell := cells[i];
    ghost var done := CellsEntries(cells[..i]);
    ghost var es := CellEntries(cuCell);
    CellsEntriesPrefix(cells, i);
    var j := 0;
    assert done + es[..0] == done;
    while j < |cuCell.coords|
      invariant 0 <= j <= |cuCell.coords|
      invariant Scan(done + es[..j], listRef, coordsOf) == Success(true)
    {
      var cuObj := cuCell.objects[j];
      var coords := cuCell.coords[j];
      ghost var prefix := done + es[..j];
      assert prefix + [es[j]] == done + es[..j + 1];
      assert (prefix + [es[j]])[..|prefix|] == prefix;
      assert done + es[..j + 1] <= done + es;
      if coords != coordsOf(cuObj) {
        ScanPrefix(prefix + [es[j]], done + es, listRef, coordsOf);
        return Failure(AssertionError);
      }
      var found := FindInList(cuObj, coords, listRef, coordsOf);
      if !found {
        ScanPrefix(prefix + [es[j]], done + es, listRef, coordsOf);
        return Success(false);
      }
      j := j + 1;
    }
    assert es[..j] == es;
    r := Success(true);
  }

  /** The entries of a leaf, cell after cell. */
  method CheckLeaf<O(==)>(cells: seq<Cell<O>>, listRef: seq<O>, coordsOf: O -> seq<real>)
      returns (r: Result<bool, TestFailure>)
    requires forall k :: 0 <= k < |cells| ==> |cells[k].coords| == |cells[k].objects|
    ensures r == Scan(CellsEntries(cells), listRef, coordsOf)
  {
    var i := 0;
    while i < |cells|
      invariant 0 <= i <= |cells|
      invariant Scan(CellsEntries(cells[..i]), listRef, coordsOf) == Success(true)
    {
      r := CheckCell(cells, i, listRef, coordsOf);
      if r != Success(true) {
        CellsEntriesOfPrefix(cells, i + 1);
        ScanPrefix(CellsEntries(cells[..i + 1]), CellsEntries(cells), listRef, coordsOf);
        return;
      }
      i := i + 1;
    }
    assert cells[..i] == cells;
    r := Success(true);
  }

  /** `checkElementInsertion`: every entry below `candidate`, in order, has
      its object's coordinates (else the `assertTrue` fails) and is found in
      `listRef` (else the check answers `false` at once). */
  method CheckElementInsertion<O(==)>(candidate: Node<O>, listRef: seq<O>, coordsOf: O -> seq<real>)
      returns (r: Result<bool, TestFailure>)
    requires Agrees(candidate)
    ensures r == Scan(Entries(candidate), listRef, coordsOf)
    decreases candidate
  {
    if candidate.Leaf? {
      r := CheckLeaf(candidate.cells, listRef, coordsOf);
    } else {
      var children := candidate.children;
      var i := 0;
      while i < |children|
        invariant 0 <= i <= |children|
        invariant Scan(AllEntries(children[..i]), listRef, coordsOf) == Success(true)
      {
        assert Agrees(children[i]);
        assert children[..i + 1][..i] == children[..i];
        var check := CheckElementInsertion(children[i], listRef, coordsOf);
        ScanAppend(AllEntries(children[..i]), Entries(children[i]), listRef, coordsOf);
        if check != Success(true) {
          AllEntriesOfPrefix(children, i + 1);
          ScanPrefix(AllEntries(children[..i + 1]), AllEntries(children), listRef, coordsOf);
          return check;
        }
        i := i + 1;
      }
      assert children[..i] == children;
      return Success(true);
    }
  }

  // ---------------------------------------------------------------------
  // Properties

  /** The union of a prefix of the cells grows by one cell's coordinates. */
  lemma CellCoordsPrefix<O>(cells: seq<Cell<O>>, i: nat, n: nat)
    requires i < |cells| && Uniform(CellCoords(cells), n)
    ensures CellCoords(cells[..i + 1]) == CellCoords(cells[..i]) + cells[i].coords
    ensures Uniform(CellCoords(cells[..i]) + cells[i].coords, n)
  {
    assert cells[..i + 1][..i] == cells[..i];
    CellCoordsOfPrefix(cells, i + 1, n);
  }

  /** A prefix of the cells has a prefix of the coordinates. */
  lemma {:induction false} CellCoordsOfPrefix<O>(cells: seq<Cell<O>>, i: nat, n: nat)
    requires i <= |cells| && Uniform(CellCoords(cells), n)
    ensures Uniform(CellCoords(cells[..i]), n)
    decreases |cells|
  {
    if i < |cells| {
      var init := cells[..|cells| - 1];
      assert CellCoords(cells) == CellCoords(init) + cells[|cells| - 1].coords;
      assert forall k :: 0 <= k < |CellCoords(init)| ==> CellCoords(init)[k] == CellCoords(cells)[k];
      CellCoordsOfPrefix(init, i, n);
      assert init[..i] == cells[..i];
    } else {
      assert cells[..i] == cells;
    }
  }

  /** The union computed by `checkBoundaryNode` exists exactly when there
      is at least one envelope, and encloses each of them. */
  lemma {:induction false} CoverEncloses(vs: seq<seq<real>>, n: nat)
    requires Uniform(vs, n)
    ensures Cover(vs, n).None? <==> vs == []
    ensures Cover(vs, n).Some? ==> forall k :: 0 <= k < |vs| ==> Contains(Cover(vs, n).value, vs[k], true)
    decreases |vs|
  {
    if vs != [] {
      var init, v := vs[..|vs| - 1], vs[|vs| - 1];
      assert vs == init + [v];
      CoverEncloses(init, n);
      var prev := Cover(init, n);
      if prev.Some? {
        assert Cover(vs, n).value == Union(prev.value, v);
        UnionEncloses(prev.value, v, init, n);
      } else {
        assert init == [];
        ContainsItself(v);
      }
    }
  }

  /** Widening an envelope around `init` to take in `v` gives one around
      `init + [v]`. */
  lemma UnionEncloses(prev: seq<real>, v: seq<real>, init: seq<seq<real>>, n: nat)
    requires Uniform(init, n) && |prev| == n && |v| == n
    requires forall k :: 0 <= k < |init| ==> Contains(prev, init[k], true)
    ensures forall k :: 0 <= k < |init| + 1 ==> Contains(Union(prev, v), (init + [v])[k], true)
  {
    UnionIsLeastEnclosing(prev, v);
    forall k | 0 <= k < |init| ensures Contains(Union(prev, v), init[k], true) {
      ContainsTransitive(Union(prev, v), prev, init[k]);
    }
  }

  /** Any envelope of the same dimension that encloses every one of `vs`
      encloses their union: the union is the smallest such envelope. */
  lemma {:induction false} CoverIsLeast(vs: seq<seq<real>>, n: nat, b: seq<real>)
    requires Uniform(vs, n) && |b| == n
    requires forall k :: 0 <= k < |vs| ==> Contains(b, vs[k], true)
    ensures Cover(vs, n).Some? ==> Contains(b, Cover(vs, n).value, true)
    decreases |vs|
  {
    if vs != [] {
      var init, v := vs[..|vs| - 1], vs[|vs| - 1];
      assert forall k :: 0 <= k < |init| ==> init[k] == vs[k];
      CoverIsLeast(init, n, b);
      var prev := Cover(init, n);
      if prev.Some? {
        UnionIsLeastEnclosing(prev.value, v);
      }
    }
  }

  lemma ContainsItself(v: seq<real>)
    ensures Contains(v, v, true)
  {
  }

  lemma ContainsTransitive(a: seq<real>, b: seq<real>, c: seq<real>)
    requires |a| == |b| == |c| && Contains(a, b, true) && Contains(b, c, true)
    ensures Contains(a, c, true)
  {
    forall i | 0 <= i < Dim(a) ensures Lo(a, i) <= Lo(c, i) && Hi(c, i) <= Hi(a, i) {
      assert Lo(a, i) <= Lo(b, i) && Hi(b, i) <= Hi(a, i);
    }
  }

  /** The count of `countEltsInHilbertNode` is the number of entries the
      insertion check visits. */
  lemma {:induction false} ElementsCountsEntries<O>(node: Node<O>)
    requires Agrees(node)
    ensures Elements(node) == |Entries(node)|
    decreases node, 1
  {
    match node
    case Leaf(_, cells) => CellsCountEntries(cells);
    case Internal(_, children) => AllElementsCountEntries(children);
  }

  lemma {:induction false} AllElementsCountEntries<O>(ns: seq<Node<O>>)
    requires AllAgree(ns)
    ensures AllElements(ns) == |AllEntries(ns)|
    decreases ns, 0
  {
    if ns != [] {
      var init := ns[..|ns| - 1];
      assert AllAgree(init) by {
        forall k | 0 <= k < |init| ensures Agrees(init[k]) { assert init[k] == ns[k]; }
      }
      AllElementsCountEntries(init);
      ElementsCountsEntries(ns[|ns| - 1]);
    }
  }

  lemma {:induction false} CellsCountEntries<O>(cells: seq<Cell<O>>)
    requires forall k :: 0 <= k < |cells| ==> |cells[k].coords| == |cells[k].objects|
    ensures |CellCoords(cells)| == |CellsEntries(cells)|
    decreases |cells|
  {
    if cells != [] {
      CellsCountEntries(cells[..|cells| - 1]);
    }
  }

  /** Checks that all passed leave the rest of the scan to decide. */
  lemma {:induction false} ScanAppend<O>(a: seq<Entry<O>>, b: seq<Entry<O>>, listRef: seq<O>, coordsOf: O -> seq<real>)
    requires Scan(a, listRef, coordsOf) == Success(true)
    ensures Scan(a + b, listRef, coordsOf) == Scan(b, listRef, coordsOf)
    decreases |b|
  {
    if b == [] {
      assert a + b == a;
    } else {
      var init := b[..|b| - 1];
      ScanAppend(a, init, listRef, coordsOf);
      assert (a + b)[..|a + b| - 1] == a + init;
    }
  }

  /** A scan that stops in a prefix stops there in the whole sequence. */
  lemma {:induction false} ScanPrefix<O>(p: seq<Entry<O>>, es: seq<Entry<O>>, listRef: seq<O>, coordsOf: O -> seq<real>)
    requires p <= es && Scan(p, listRef, coordsOf) != Success(true)
    ensures Scan(es, listRef, coordsOf) == Scan(p, listRef, coordsOf)
    decreases |es|
  {
    if |es| > |p| {
      var init := es[..|es| - 1];
      assert p <= init;
      ScanPrefix(p, init, listRef, coordsOf);
    } else {
      assert p == es;
    }
  }

  lemma CellsEntriesPrefix<O>(cells: seq<Cell<O>>, i: nat)
    requires forall k :: 0 <= k < |cells| ==> |cells[k].coords| == |cells[k].objects|
    requires i < |cells|
    ensures CellsEntries(cells[..i + 1]) == CellsEntries(cells[..i]) + CellEntries(cells[i])
  {
    assert cells[..i + 1][..i] == cells[..i];
  }

  /** The entries of a prefix of the cells are a prefix of the entries. */
  lemma {:induction false} CellsEntriesOfPrefix<O>(cells: seq<Cell<O>>, i: nat)
    requires forall k :: 0 <= k < |cells| ==> |cells[k].coords| == |cells[k].objects|
    requires i <= |cells|
    ensures CellsEntries(cells[..i]) <= CellsEntries(cells)
    decreases |cells|
  {
    if i < |cells| {
      var init := cells[..|cells| - 1];
      CellsEntriesOfPrefix(init, i);
      assert init[..i] == cells[..i];
    } else {
      assert cells[..i] == cells;
    }
  }

  /** The entries of a prefix of the children are a prefix of the
      entries. */
  lemma {:induction false} AllEntriesOfPrefix<O>(ns: seq<Node<O>>, i: nat)
    requires AllAgree(ns) && i <= |ns|
    ensures AllAgree(ns[..i]) && AllEntries(ns[..i]) <= AllEntries(ns)
    decreases |ns|
  {
    assert forall k :: 0 <= k < i ==> ns[..i][k] == ns[k];
    if i < |ns| {
      var init := ns[..|ns| - 1];
      assert forall k :: 0 <= k < |init| ==> init[k] == ns[k];
      AllEntriesOfPrefix(init, i);
      assert init[..i] == ns[..i];
    } else {
      assert ns[..i] == ns;
    }
  }

  /** The insertion check passes exactly when every entry has its object's
      coordinates and its object is in `listRef`; it answers `false` only
      for an object missing from `listRef`, and fails its assertion only for
      an entry whose coordinates are not its object's. */
  lemma {:induction false} ScanVerdicts<O>(es: seq<Entry<O>>, listRef: seq<O>, coordsOf: O -> seq<real>)
    ensures Scan(es, listRef, coordsOf) == Success(true) <==>
      forall k :: 0 <= k < |es| ==> es[k].coords == coordsOf(es[k].obj) && es[k].obj in listRef
    ensures Scan(es, listRef, coordsOf) == Success(false) ==>
      exists k :: 0 <= k < |es| && es[k].obj !in listRef
    ensures Scan(es, listRef, coordsOf).Failure? ==>
      exists k :: 0 <= k < |es| && es[k].coords != coordsOf(es[k].obj)
    decreases |es|
  {
    if es != [] {
      var init, e := es[..|es| - 1], es[|es| - 1];
      ScanVerdicts(init, listRef, coordsOf);
      if e.coords == coordsOf(e.obj) {
        FoundIsMembership(e, listRef, coordsOf);
      }
      assert forall k :: 0 <= k < |init| ==> init[k] == es[k];
      if Scan(init, listRef, coordsOf) == Success(false) {
        var k :| 0 <= k < |init| && init[k].obj !in listRef;
        assert es[k].obj !in listRef;
      }
      if Scan(init, listRef, coordsOf).Failure? {
        var k :| 0 <= k < |init| && init[k].coords != coordsOf(init[k].obj);
        assert es[k].coords != coordsOf(es[k].obj);
      }
    }
  }

  /** Once an entry has its object's coordinates, finding it in `listRef`
      is finding its object there. */
  lemma FoundIsMembership<O>(e: Entry<O>, listRef: seq<O>, coordsOf: O -> seq<real>)
    requires e.coords == coordsOf(e.obj)
    ensures Found(e, listRef, coordsOf) <==> e.obj in listRef
  {
    if e.obj in listRef {
      var il :| 0 <= il < |listRef| && listRef[il] == e.obj;
      assert e.coords == coordsOf(listRef[il]);
    }
  }
}

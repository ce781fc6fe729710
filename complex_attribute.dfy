/** Property lookup and replacement on a complex attribute, and the two
    path-array helpers of its tree printer.

    A property is a name and a value; two properties are the same when both
    are equal.  `DefaultName.match(name, string)` is not part of this model:
    the lookups take it as the parameter `matches`. */
module ComplexAttributes {
  import opened Outcomes

  /** A qualified name; `namespace` is `None` for a `null` namespace URI. */
  datatype Name = Name(namespace: Option<string>, local: string)

  datatype Property<V> = Property(name: Name, value: V)

  /** What a lookup looks for: names that `matches` a string, or names
      equal to a given name. */
  datatype Query = Local(part: string) | Exact(name: Name)

  /** The `IllegalArgumentException` of `setValue`, with the two sizes its
      message reports. */
  datatype AttributeError = IllegalArgument(expected: nat, provided: nat)

  predicate Hits(q: Query, n: Name, matches: (Name, string) -> bool) {
    match q
    case Local(part) => matches(n, part)
    case Exact(name) => n == name
  }

  /** A `Name` without a namespace is looked up by its local part, any
      other by equality. */
  function QueryOf(name: Name): (q: Query)
    ensures name.namespace.None? <==> q.Local?
  {
    if name.namespace.None? then Local(name.local) else Exact(name)
  }

  /** The properties of `ps` that `q` hits, in their order. */
  function Select<V>(ps: seq<Property<V>>, q: Query, matches: (Name, string) -> bool): seq<Property<V>>
    decreases |ps|
  {
    if ps == [] then []
    else
      var rest := Select(ps[..|ps| - 1], q, matches);
      var p := ps[|ps| - 1];
      if Hits(q, p.name, matches) then rest + [p] else rest
  }

  /** The first element of `s`, if any. */
  function First<T>(s: seq<T>): Option<T> {
    if s == [] then None else Some(s[0])
  }

  /** `containsAll`, walking `b`: it holds exactly when every element of
      `b` is in `a`. */
  function ContainsAll<T(==)>(a: seq<T>, b: seq<T>): (r: bool)
    ensures r <==> forall x :: x in b ==> x in a
    decreases |b|
  {
    if b == [] then true
    else
      assert forall x :: x in b ==> x == b[0] || x in b[1..];
      b[0] in a && ContainsAll(a, b[1..])
  }

  /** The elements of `s`, each once. */
  function Members<T>(s: seq<T>): set<T> {
    set x | x in s
  }

  /** The collection branch of `equals`: each collection contains all of
      the other, so both hold the same elements. */
  function CollectionsEqual<T(==)>(a: seq<T>, b: seq<T>): (r: bool)
    ensures r <==> (forall x :: x in a ==> x in b) && (forall x :: x in b ==> x in a)
  {
    ContainsAll(a, b) && ContainsAll(b, a)
  }

  class ComplexAttribute<V(==)> {
    var properties: seq<Property<V>>

    constructor(properties: seq<Property<V>>)
      ensures this.properties == properties
    {
      this.properties := properties;
    }

    /** The loop of the lookups for all properties: it keeps, in order,
        every property whose name `q` hits. */
    method Collect(q: Query, matches: (Name, string) -> bool) returns (r: seq<Property<V>>)
      ensures r == Select(properties, q, matches)
    {
      r := [];
      var i := 0;
      while i < |properties|
        invariant 0 <= i <= |properties|
        invariant r == Select(properties[..i], q, matches)
      {
        var prop := properties[i];
        assert properties[..i + 1][..i] == properties[..i];
        if Hits(q, prop.name, matches) {
          r := r + [prop];
        }
        i := i + 1;
      }
      assert properties[..i] == properties;
    }

    /** `getProperties(String)`. */
    method GetPropertiesByString(name: string, matches: (Name, string) -> bool) returns (r: seq<Property<V>>)
      ensures r == Select(properties, Local(name), matches)
    {
      r := Collect(Local(name), matches);
    }

    /** `getProperties(Name)`: by local part without a namespace, by
        equality otherwise. */
    method GetPropertiesByName(name: Name, matches: (Name, string) -> bool) returns (r: seq<Property<V>>)
      ensures r == Select(properties, QueryOf(name), matches)
    {
      if name.namespace.None? {
        r := GetPropertiesByString(name.local, matches);
        return;
      }
      r := Collect(Exact(name), matches);
    }

    /** The loop of the single-property lookups: the first property whose
        name `q` hits, which is the first of all those the collecting
        lookup would return, or `None` for `null`. */
    method Find(q: Query, matches: (Name, string) -> bool) returns (r: Option<Property<V>>)
      ensures r == First(Select(properties, q, matches))
    {
      var i := 0;
      while i < |properties|
        invariant 0 <= i <= |properties|
        invariant Select(properties[..i], q, matches) == []
      {
        var prop := properties[i];
        assert properties[..i + 1][..i] == properties[..i];
        if Hits(q, prop.name, matches) {
          SelectAppend(properties[..i + 1], properties[i + 1..], q, matches);
          assert properties[..i + 1] + properties[i + 1..] == properties;
          return Some(prop);
        }
        i := i + 1;
      }
      assert properties[..i] == properties;
      return None;
    }

    /** `getProperty(String)`. */
    method GetPropertyByString(name: string, matches: (Name, string) -> bool) returns (r: Option<Property<V>>)
      ensures r == First(Select(properties, Local(name), matches))
    {
      r := Find(Local(name), matches);
    }

    /** `getProperty(Name)`: by local part without a namespace, by
        equality otherwise. */
    method GetPropertyByName(name: Name, matches: (Name, string) -> bool) returns (r: Option<Property<V>>)
      ensures r == First(Select(properties, QueryOf(name), matches))
    {
      if name.namespace.None? {
        r := GetPropertyByString(name.local, matches);
        return;
      }
      r := Find(Exact(name), matches);
    }

    /** `setValue(Collection)`: a collection of another size is refused and
        nothing changes; otherwise the properties are cleared and refilled
        with `newValues`.  Either way the number of properties stays, as it
        does for a list-valued collection. */
    method SetValue(newValues: seq<Property<V>>) returns (r: Outcome<AttributeError>)
      modifies this
      ensures |old(properties)| != |newValues| ==>
        r == Fail(IllegalArgument(|old(properties)|, |newValues|)) && properties == old(properties)
      ensures |old(properties)| == |newValues| ==> r == Pass && properties == newValues
      ensures |properties| == |old(properties)|
    {
      if |properties| != |newValues| {
        return Fail(IllegalArgument(|properties|, |newValues|));
      }
      properties := [];
      properties := properties + newValues;
      r := Pass;
    }
  }

  /** `append`: a new array, one longer, ending with `end`. */
  method Append(path: array<string>, end: string) returns (r: array<string>)
    ensures fresh(r) && r[..] == path[..] + [end]
  {
    r := new string[path.Length + 1];
    var i := 0;
    while i < path.Length
      invariant 0 <= i <= path.Length
      invariant r[..i] == path[..i]
    {
      r[i] := path[i];
      i := i + 1;
    }
    r[path.Length] := end;
    assert r[..path.Length] == path[..];
  }

  /** `last`: a copy whose last element, if there is one, is `end`. */
  method Last(path: array<string>, end: string) returns (r: array<string>)
    ensures fresh(r) && r.Length == path.Length
    ensures path.Length == 0 ==> r[..] == []
    ensures path.Length > 0 ==> r[..] == path[..path.Length - 1] + [end]
  {
    r := new string[path.Length];
    var i := 0;
    while i < path.Length
      invariant 0 <= i <= path.Length
      invariant r[..i] == path[..i]
    {
      r[i] := path[i];
      i := i + 1;
    }
    if r.Length > 0 {
      r[r.Length - 1] := end;
    }
  }

  // ---------------------------------------------------------------------
  // Properties

  /** The lookup keeps exactly the properties whose name is hit, and none
      twice more than it occurs. */
  lemma {:induction false} SelectIsFilter<V>(ps: seq<Property<V>>, q: Query, matches: (Name, string) -> bool)
    ensures forall p :: p in Select(ps, q, matches) <==> p in ps && Hits(q, p.name, matches)
    ensures |Select(ps, q, matches)| <= |ps|
    ensures forall p :: p in Select(ps, q, matches) ==> multiset(Select(ps, q, matches))[p] == multiset(ps)[p]
    decreases |ps|
  {
    if ps != [] {
      var init, p := ps[..|ps| - 1], ps[|ps| - 1];
      SelectIsFilter(init, q, matches);
      assert ps == init + [p];
    }
  }

  /** The lookup keeps the order of the properties: it distributes over
      concatenation. */
  lemma {:induction false} SelectAppend<V>(a: seq<Property<V>>, b: seq<Property<V>>, q: Query, matches: (Name, string) -> bool)
    ensures Select(a + b, q, matches) == Select(a, q, matches) + Select(b, q, matches)
    decreases |b|
  {
    if b == [] {
      assert a + b == a;
    } else {
      var init := b[..|b| - 1];
      SelectAppend(a, init, q, matches);
      assert (a + b)[..|a + b| - 1] == a + init;
    }
  }

  /** With a namespace, a name lookup is exact: the string matcher plays
      no part. */
  lemma {:induction false} NamespacedLookupIsExact<V>(ps: seq<Property<V>>, name: Name, m1: (Name, string) -> bool, m2: (Name, string) -> bool)
    requires name.namespace.Some?
    ensures Select(ps, QueryOf(name), m1) == Select(ps, QueryOf(name), m2)
    ensures forall p :: p in Select(ps, QueryOf(name), m1) ==> p.name == name
    decreases |ps|
  {
    if ps != [] {
      NamespacedLookupIsExact(ps[..|ps| - 1], name, m1, m2);
      SelectIsFilter(ps, QueryOf(name), m1);
    }
  }

  /** Collections are equal exactly when they hold the same elements, in
      whatever order and however often. */
  lemma CollectionsEqualIsSameElements<T>(a: seq<T>, b: seq<T>)
    ensures CollectionsEqual(a, b) <==> Members(a) == Members(b)
  {
    if Members(a) == Members(b) {
      forall x | x in a ensures x in b { assert x in Members(a); }
      forall x | x in b ensures x in a { assert x in Members(b); }
    }
  }

  /** The comparison is an equivalence, blind to order. */
  lemma CollectionsEqualIsEquivalence<T>(a: seq<T>, b: seq<T>, c: seq<T>)
    ensures CollectionsEqual(a, a)
    ensures CollectionsEqual(a, b) == CollectionsEqual(b, a)
    ensures CollectionsEqual(a, b) && CollectionsEqual(b, c) ==> CollectionsEqual(a, c)
    ensures multiset(a) == multiset(b) ==> CollectionsEqual(a, b)
  {
    if multiset(a) == multiset(b) {
      forall x | x in a ensures x in b { assert x in multiset(a); }
      forall x | x in b ensures x in a { assert x in multiset(b); }
    }
  }
}

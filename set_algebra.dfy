/** The set operations of the ordered set that build a new set or only read.

    Each operation takes the list of items of `self` (and of the other
    arguments) and gives the list of items of the set it returns; the new
    set is built with the constructor, which folds `add` over its input
    (`Dedup`). Union keeps first-appearance order over all inputs,
    intersection and difference keep the order of `self`, and symmetric
    difference lists the elements only in `self`, then those only in
    `other`.
 */
module SetAlgebra {
  import opened Sequences
  import opened Wrappers

  /** `union(*sets)`: the items of `self`, then those of each argument in
      turn, each element at its first appearance. */
  function Union<T(==, !new)>(s: seq<T>, others: seq<seq<T>>): (r: seq<T>)
    ensures forall x :: x in r <==> x in s || exists k :: 0 <= k < |others| && x in others[k]
    ensures NoDups(r)
    ensures NoDups(s) ==> |s| <= |r| && r[..|s|] == s
  {
    var all := s + Concat(others);
    assert NoDups(s) ==> Dedup(all) == AddAll(s, Concat(others)) by {
      if NoDups(s) {
        AddAllAppend([], s, Concat(others));
        DedupOfNoDups(s);
      }
    }
    Dedup(all)
  }

  /** The union lists every element at its first appearance in the
      concatenation of `self` and the arguments. */
  lemma UnionFirstAppearance<T(!new)>(s: seq<T>, others: seq<seq<T>>)
    ensures InOrderOf(Union(s, others), s + Concat(others))
  {
    DedupFirstAppearance(s + Concat(others));
  }

  /** `intersection(*sets)`: the items of `self` found in every argument;
      with no argument, a copy of `self`. */
  function Intersection<T(==, !new)>(s: seq<T>, others: seq<seq<T>>): (r: seq<T>)
    ensures forall x :: x in r <==> x in s && forall k :: 0 <= k < |others| ==> x in others[k]
    ensures NoDups(r)
  {
    if others == [] then Dedup(s) else Dedup(Filter(s, Common(others)))
  }

  /** For an ordered set `self`, the intersection takes its order from
      `self`, and with no argument it is an equal copy. */
  lemma IntersectionOrder<T(!new)>(s: seq<T>, others: seq<seq<T>>)
    requires NoDups(s)
    ensures InOrderOf(Intersection(s, others), s)
    ensures others == [] ==> Intersection(s, others) == s
  {
    if others == [] {
      DedupOfNoDups(s);
      FilterAll(s, Elems(s));
      FilterInOrder(s, Elems(s));
    } else {
      DedupOfNoDups(Filter(s, Common(others)));
      FilterInOrder(s, Common(others));
    }
  }

  /** `difference(*sets)` as written: the set removed is the intersection of
      the arguments, so an item of `self` is kept as soon as one argument
      lacks it; with no argument `set.intersection` raises `TypeError`. */
  function Difference<T(==, !new)>(s: seq<T>, others: seq<seq<T>>): (r: Result<seq<T>>)
    ensures r.Err? <==> others == []
    ensures r.Err? ==> r.error == TypeError
    ensures r.Ok? ==> NoDups(r.value)
    ensures r.Ok? ==> forall x :: x in r.value <==>
                        x in s && exists k :: 0 <= k < |others| && x !in others[k]
  {
    if others == [] then Err(TypeError) else Ok(Dedup(Without(s, Common(others))))
  }

  /** `difference` as its documentation describes it: the items of `self`
      found in none of the arguments. */
  function DifferenceOfAny<T(==, !new)>(s: seq<T>, others: seq<seq<T>>): (r: seq<T>)
    ensures NoDups(r)
    ensures forall x :: x in r <==> x in s && forall k :: 0 <= k < |others| ==> x !in others[k]
  {
    Dedup(Without(s, Elems(Concat(others))))
  }

  /** With exactly one argument the two readings of `difference` agree, and
      for an ordered set `self` the result is `self` minus the argument, in
      the order of `self`. */
  lemma DifferenceOfOne<T(!new)>(s: seq<T>, o: seq<T>)
    requires NoDups(s)
    ensures Difference(s, [o]) == Ok(DifferenceOfAny(s, [o]))
    ensures Difference(s, [o]) == Ok(Without(s, Elems(o)))
  {
    assert Common([o]) == Elems(o);
    assert Elems(Concat([o])) == Elems(o) by { assert Concat([o]) == o; }
    DedupOfNoDups(Without(s, Elems(o)));
  }

  /** Two sequences without duplicates and without common elements can be
      concatenated without creating a duplicate. */
  lemma DisjointConcatNoDups<T(!new)>(a: seq<T>, b: seq<T>)
    requires NoDups(a) && NoDups(b)
    requires forall x :: x in a ==> x !in b
    ensures NoDups(a + b)
  {
    forall i, j | 0 <= i < j < |a + b| ensures (a + b)[i] != (a + b)[j] {
      if j < |a| {
        assert (a + b)[i] == a[i] && (a + b)[j] == a[j];
      } else if i >= |a| {
        assert (a + b)[i] == b[i - |a|] && (a + b)[j] == b[j - |a|];
      } else {
        assert (a + b)[i] == a[i] && (a + b)[j] == b[j - |a|];
        assert a[i] in a;
      }
    }
  }

  /** `symmetric_difference(other)` as written: `self` minus `other`, then
      `other` minus `self`, each built by `difference`, joined by `union`. */
  function SymmetricDifference<T(==, !new)>(s: seq<T>, o: seq<T>): (r: seq<T>)
    ensures forall x :: x in r <==> (x in s) != (x in o)
    ensures NoDups(r)
  {
    var diff1 := Difference(Dedup(s), [o]).value;
    var diff2 := Difference(Dedup(o), [s]).value;
    Union(diff1, [diff2])
  }

  /** For an ordered set `self`, the symmetric difference is the items of
      `self` not in `other`, in the order of `self`, followed by the
      elements of `other` not in `self`, in the order of `other`. */
  lemma SymmetricDifferenceOrder<T(!new)>(s: seq<T>, o: seq<T>)
    requires NoDups(s)
    ensures SymmetricDifference(s, o) == Without(s, Elems(o)) + Without(Dedup(o), Elems(s))
    ensures InOrderOf(Without(s, Elems(o)), s)
    ensures InOrderOf(Without(Dedup(o), Elems(s)), o)
  {
    DedupOfNoDups(s);
    var d1 := Without(s, Elems(o));
    var d2 := Without(Dedup(o), Elems(s));
    DifferenceOfOne(s, o);
    assert Dedup(o) == AddAll([], o);
    assert NoDups(Dedup(o));
    DifferenceOfOne(Dedup(o), s);
    assert Elems(Dedup(o)) == Elems(o);
    assert Concat([d2]) == d2;
    DisjointConcatNoDups(d1, d2);
    DedupOfNoDups(d1 + d2);
    FilterInOrder(s, Elems(s) - Elems(o));
    WithoutInFirstAppearanceOrder(o, Elems(s));
  }

  /** Removing elements from `Dedup(o)` keeps the first-appearance order of `o`. */
  lemma WithoutInFirstAppearanceOrder<T(!new)>(o: seq<T>, q: set<T>)
    ensures InOrderOf(Without(Dedup(o), q), o)
  {
    var d := Dedup(o);
    var w := Without(d, q);
    DedupFirstAppearance(o);
    FilterInOrder(d, Elems(d) - q);
    forall i, j | 0 <= i < j < |w| ensures FirstIndex(o, w[i]) < FirstIndex(o, w[j]) {
      var a, b := w[i], w[j];
      var fa, fb := FirstIndex(d, a), FirstIndex(d, b);
      assert fa < fb;
      assert d[fa] == a && d[fb] == b;
    }
  }

  /** `issubset(other)`: false at once when `self` is longer than `other`,
      otherwise whether every item of `self` is in `other`. */
  function IsSubset<T(==, !new)>(s: seq<T>, o: seq<T>): (b: bool)
    ensures b ==> forall x :: x in s ==> x in o
  {
    if |s| > |o| then false else forall x :: x in s ==> x in o
  }

  /** The length shortcut of `issubset` never answers wrongly for an
      ordered set `self`: the result is set inclusion. */
  lemma IsSubsetIsInclusion<T(!new)>(s: seq<T>, o: seq<T>)
    requires NoDups(s)
    ensures IsSubset(s, o) <==> Elems(s) <= Elems(o)
  {
    if Elems(s) <= Elems(o) {
      ElemsCard(s);
      ElemsCard(o);
      SubsetCard(Elems(s), Elems(o));
      assert forall x :: x in s ==> x in o by {
        forall x | x in s ensures x in o { assert x in Elems(s); }
      }
    } else {
      var x :| x in Elems(s) && x !in Elems(o);
      assert x in s && x !in o;
    }
  }

  lemma SubsetCard<T>(a: set<T>, b: set<T>)
    requires a <= b
    ensures |a| <= |b|
  {
    assert b == a + (b - a);
  }

  /** `issuperset(other)` as written: false at once when `self` is shorter
      than `other`, otherwise whether every element of `other` is in
      `self`. */
  function IsSuperset<T(==, !new)>(s: seq<T>, o: seq<T>): (b: bool)
    ensures b ==> forall x :: x in o ==> x in s
  {
    if |s| < |o| then false else forall x :: x in o ==> x in s
  }

  /** When `other` has no repeated element (a set or an ordered set),
      `issuperset` is set inclusion. */
  lemma IsSupersetIsInclusion<T(!new)>(s: seq<T>, o: seq<T>)
    requires NoDups(o)
    ensures IsSuperset(s, o) <==> Elems(o) <= Elems(s)
  {
    if Elems(o) <= Elems(s) {
      ElemsCard(s);
      ElemsCard(o);
      SubsetCard(Elems(o), Elems(s));
      assert forall x :: x in o ==> x in s by {
        forall x | x in o ensures x in s { assert x in Elems(o); }
      }
    } else {
      var x :| x in Elems(o) && x !in Elems(s);
      assert x in o && x !in s;
    }
  }

  /** A list argument with a repeated element defeats the length shortcut:
      `OrderedSet([1]).issuperset([1, 1])` is false although every element
      of `[1, 1]` is in the set. */
  lemma IsSupersetRepeatedArgument()
    ensures Elems([1, 1]) <= Elems([1])
    ensures !IsSuperset([1], [1, 1])
  {
  }

  /** `issuperset` with the shortcut on the number of distinct elements of
      `other`. */
  function IsSupersetOf<T(==, !new)>(s: seq<T>, o: seq<T>): (b: bool)
    ensures b ==> forall x :: x in o ==> x in s
  {
    if |s| < |Elems(o)| then false else forall x :: x in o ==> x in s
  }

  /** The corrected shortcut never answers wrongly, whatever `other` repeats. */
  lemma IsSupersetOfIsInclusion<T(!new)>(s: seq<T>, o: seq<T>)
    ensures IsSupersetOf(s, o) <==> Elems(o) <= Elems(s)
  {
    if Elems(o) <= Elems(s) {
      ElemsCard(s);
      SubsetCard(Elems(o), Elems(s));
      assert forall x :: x in o ==> x in s by {
        forall x | x in o ensures x in s { assert x in Elems(o); }
      }
    } else {
      var x :| x in Elems(o) && x !in Elems(s);
      assert x in o && x !in s;
    }
  }

  /** `==` between two ordered sets: same length and the same items in the
      same order. */
  function Equals<T(==)>(a: seq<T>, b: seq<T>): (r: bool)
    ensures r <==> a == b
  {
    |a| == |b| && a == b
  }

  /** `==` between an ordered set and any other collection: the same
      elements, order ignored. */
  function EqualsUnordered<T(==, !new)>(a: seq<T>, o: seq<T>): (r: bool)
    ensures r <==> forall x :: x in a <==> x in o
  {
    assert (forall x :: x in a <==> x in o) <==> Elems(a) == Elems(o) by {
      assert forall x :: x in Elems(a) <==> x in a;
      assert forall x :: x in Elems(o) <==> x in o;
    }
    Elems(a) == Elems(o)
  }

  /** Order matters between ordered sets and not against a plain set. */
  lemma EqualityAsymmetry()
    ensures !Equals([1, 2], [2, 1])
    ensures EqualsUnordered([1, 2], [2, 1])
  {
  }

  /** Equal ordered sets are equal as plain sets. */
  lemma EqualsImpliesUnordered<T(!new)>(a: seq<T>, b: seq<T>)
    requires Equals(a, b)
    ensures EqualsUnordered(a, b)
  {
  }
}

/** The worked examples in the documentation of the ordered set, proved
    from the general lemmas about the set operations. */
module DocumentedCases {
  import opened Sequences
  import opened SetAlgebra
  import opened Wrappers

  /** `OrderedSet([3, 1, 4, 1, 5])` is `[3, 1, 4, 5]`. */
  lemma ConstructorExample()
    ensures Dedup([3, 1, 4, 1, 5]) == [3, 1, 4, 5]
  {
    DedupIs([3, 1, 4, 1, 5], [3, 1, 4, 5], [0, 1, 2, 4]);
  }

  /** `Dedup(s)` is `e` when `e` holds the elements of `s` and `pos` lists
      their first occurrences in `s`, in increasing order. */
  lemma DedupIs(s: seq<int>, e: seq<int>, pos: seq<nat>)
    requires forall x :: x in e <==> x in s
    requires |pos| == |e|
    requires forall k :: 0 <= k < |e| ==> pos[k] < |s| && s[pos[k]] == e[k]
    requires forall k, j :: 0 <= k < |e| && 0 <= j < pos[k] ==> s[j] != e[k]
    requires forall i, j :: 0 <= i < j < |pos| ==> pos[i] < pos[j]
    ensures Dedup(s) == e
  {
    DedupFirstAppearance(s);
    InOrderAt(e, s, pos);
    assert forall x :: x in Dedup(s) <==> x in e;
    InOrderUnique(Dedup(s), e, s);
  }

  /** `union([3, 1, 4, 1, 5], [1, 3], [2, 0])` is `[3, 1, 4, 5, 2, 0]`. */
  lemma UnionExample()
    ensures Union([3, 1, 4, 1, 5], [[1, 3], [2, 0]]) == [3, 1, 4, 5, 2, 0]
  {
    var s: seq<int> := [3, 1, 4, 1, 5];
    var others: seq<seq<int>> := [[1, 3], [2, 0]];
    var all := [3, 1, 4, 1, 5, 1, 3, 2, 0];
    var e := [3, 1, 4, 5, 2, 0];
    assert s + Concat(others) == all by {
      assert |others[1..][1..]| == 0;
      assert Concat(others[1..]) == [2, 0] + [];
    }
    InOrderAt(e, all, [0, 1, 2, 4, 7, 8]);
    var r := Union(s, others);
    assert InOrderOf(r, all) by {
      UnionFirstAppearance(s, others);
    }
    assert forall x :: x in r <==> x in e by {
      assert forall x :: x in r <==> x in all;
    }
    InOrderUnique(r, e, all);
  }

  /** `intersection([0, 1, 2, 3], [1, 2, 3])` is `[1, 2, 3]`. */
  lemma IntersectionExample()
    ensures Intersection([0, 1, 2, 3], [[1, 2, 3]]) == [1, 2, 3]
  {
    IntersectionIs([0, 1, 2, 3], [1, 2, 3], [1, 2, 3], [1, 2, 3]);
  }

  /** The intersection of `s` (without repetitions) with one argument `o` is
      `e` when `e` holds their common elements and `pos` lists where they
      occur in `s`, in increasing order. */
  lemma IntersectionIs(s: seq<int>, o: seq<int>, e: seq<int>, pos: seq<nat>)
    requires NoDups(s)
    requires forall x :: x in e <==> x in s && x in o
    requires |pos| == |e|
    requires forall k :: 0 <= k < |e| ==> pos[k] < |s| && s[pos[k]] == e[k]
    requires forall i, j :: 0 <= i < j < |pos| ==> pos[i] < pos[j]
    ensures Intersection(s, [o]) == e
  {
    forall k, j | 0 <= k < |e| && 0 <= j < pos[k] ensures s[j] != e[k] {
      assert s[j] != s[pos[k]];
    }
    IntersectionOrder(s, [o]);
    InOrderAt(e, s, pos);
    assert forall x :: x in Intersection(s, [o]) <==> x in e;
    InOrderUnique(Intersection(s, [o]), e, s);
  }

  /** The symmetric difference of `[1, 4, 3, 5, 7]` and `[9, 7, 1, 3, 2]`
      is `[4, 5, 9, 2]`. */
  lemma SymmetricDifferenceExample()
    ensures SymmetricDifference([1, 4, 3, 5, 7], [9, 7, 1, 3, 2]) == [4, 5, 9, 2]
  {
    SymmetricDifferenceIs([1, 4, 3, 5, 7], [9, 7, 1, 3, 2], [4, 5], [1, 3], [9, 2], [0, 4]);
  }

  /** The symmetric difference of two sequences without repetitions is the
      items only in the first, at the positions `pos1`, followed by those only
      in the second, at the positions `pos2`. */
  lemma SymmetricDifferenceIs(s: seq<int>, o: seq<int>, e1: seq<int>, pos1: seq<nat>, e2: seq<int>, pos2: seq<nat>)
    requires NoDups(s) && NoDups(o)
    requires forall x :: x in e1 <==> x in s && x !in o
    requires |pos1| == |e1|
    requires forall k :: 0 <= k < |e1| ==> pos1[k] < |s| && s[pos1[k]] == e1[k]
    requires forall i, j :: 0 <= i < j < |pos1| ==> pos1[i] < pos1[j]
    requires forall x :: x in e2 <==> x in o && x !in s
    requires |pos2| == |e2|
    requires forall k :: 0 <= k < |e2| ==> pos2[k] < |o| && o[pos2[k]] == e2[k]
    requires forall i, j :: 0 <= i < j < |pos2| ==> pos2[i] < pos2[j]
    ensures SymmetricDifference(s, o) == e1 + e2
  {
    OnlyInFirst(s, o, e1, pos1);
    DedupOfNoDups(o);
    OnlyInFirst(o, s, e2, pos2);
    SymmetricDifferenceOrder(s, o);
  }

  lemma OnlyInFirst(s: seq<int>, o: seq<int>, e: seq<int>, pos: seq<nat>)
    requires NoDups(s)
    requires forall x :: x in e <==> x in s && x !in o
    requires |pos| == |e|
    requires forall k :: 0 <= k < |e| ==> pos[k] < |s| && s[pos[k]] == e[k]
    requires forall i, j :: 0 <= i < j < |pos| ==> pos[i] < pos[j]
    ensures Without(s, Elems(o)) == e
  {
    forall k, j | 0 <= k < |e| && 0 <= j < pos[k] ensures s[j] != e[k] {
      assert s[j] != s[pos[k]];
    }
    InOrderAt(e, s, pos);
    assert forall x :: x in Elems(s) - Elems(o) <==> x in s && x !in o;
    FilterIs(s, Elems(s) - Elems(o), e);
  }

  /** With two arguments, `difference` removes only what both arguments
      hold: `OrderedSet([1, 2, 3]).difference([1], [2])` keeps all three
      items, where the documented meaning gives `[3]`. */
  lemma DifferenceOfSeveralArguments()
    ensures Difference([1, 2, 3], [[1], [2]]) == Ok([1, 2, 3])
    ensures DifferenceOfAny([1, 2, 3], [[1], [2]]) == [3]
  {
    var s := [1, 2, 3];
    var others: seq<seq<int>> := [[1], [2]];
    assert NoDups(s);
    DedupOfNoDups(s);
    assert Without(s, Common(others)) == s by {
      assert Common(others) == {};
      FilterAll(s, Elems(s) - {});
    }
    assert Without(s, Elems(Concat(others))) == [3] by {
      assert Elems(Concat(others)) == {1, 2} by {
        assert |others[1..][1..]| == 0;
        assert Concat(others) == [1, 2];
      }
      InOrderAt([3], s, [2]);
      FilterIs(s, Elems(s) - {1, 2}, [3]);
    }
    DedupOfNoDups([3]);
  }
}

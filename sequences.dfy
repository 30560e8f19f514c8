/** Sequence functions that the ordered set is specified with.

    The list of items of an ordered set is a sequence without duplicates.
    Building an ordered set from an iterable is a fold of `add` over it
    (`AddAll`, `Dedup`); the set operations filter the items of one set by
    membership in others (`Filter`, `Without`, `Common`, `Concat`).
    `InOrderOf` states "in the order of first appearance" independently of
    how a result is computed.
 */
module Sequences {

  /** The elements of a sequence, as a set (Python's `set(s)`). */
  function Elems<T(==, !new)>(s: seq<T>): set<T> {
    set x | x in s
  }

  /** No element occurs twice. */
  predicate NoDups<T(==, !new)>(s: seq<T>) {
    forall i, j :: 0 <= i < j < |s| ==> s[i] != s[j]
  }

  /** The position of the first occurrence of `x` in `s`. */
  function FirstIndex<T(==, !new)>(s: seq<T>, x: T): (k: nat)
    requires x in s
    ensures k < |s| && s[k] == x
    ensures forall j :: 0 <= j < k ==> s[j] != x
  {
    if s[0] == x then 0 else 1 + FirstIndex(s[1..], x)
  }

  /** Every element of `r` occurs in `s`, and `r` lists its elements in the
      order of their first occurrence in `s` (so `r` has no duplicates). */
  ghost predicate InOrderOf<T(!new)>(r: seq<T>, s: seq<T>) {
    && (forall x :: x in r ==> x in s)
    && (forall i, j :: 0 <= i < j < |r| && r[i] in s && r[j] in s ==>
          FirstIndex(s, r[i]) < FirstIndex(s, r[j]))
  }

  /** The elements of `s` that are in `p`, in the order of `s`
      (a comprehension `[x for x in s if x in p]`). */
  function Filter<T(==, !new)>(s: seq<T>, p: set<T>): (r: seq<T>)
    ensures forall x :: x in r <==> x in s && x in p
    ensures |r| <= |s|
    ensures NoDups(s) ==> NoDups(r)
  {
    if s == [] then []
    else
      var rest := Filter(s[1..], p);
      assert NoDups(s) ==> s[0] !in s[1..] by {
        if NoDups(s) {
          forall j | 0 <= j < |s| - 1 ensures s[1..][j] != s[0] {
            assert s[1..][j] == s[j + 1];
          }
        }
      }
      if s[0] in p then [s[0]] + rest else rest
  }

  /** The elements of `s` that are not in `q`, in the order of `s`
      (a comprehension `[x for x in s if x not in q]`). */
  function Without<T(==, !new)>(s: seq<T>, q: set<T>): (r: seq<T>)
    ensures forall x :: x in r <==> x in s && x !in q
    ensures NoDups(s) ==> NoDups(r)
  {
    Filter(s, Elems(s) - q)
  }

  /** Concatenation of a sequence of sequences (`itertools.chain`). */
  function Concat<T(==, !new)>(xss: seq<seq<T>>): (r: seq<T>)
    ensures forall x :: x in r <==> exists k :: 0 <= k < |xss| && x in xss[k]
  {
    if xss == [] then []
    else
      var rest := Concat(xss[1..]);
      assert forall x :: (exists k :: 1 <= k < |xss| && x in xss[k]) ==> x in rest by {
        forall x | exists k :: 1 <= k < |xss| && x in xss[k]
          ensures x in rest
        {
          var k :| 1 <= k < |xss| && x in xss[k];
          assert x in xss[1..][k - 1];
        }
      }
      xss[0] + rest
  }

  /** The elements found in every one of `xss` (`set.intersection` over
      the sets of the arguments). */
  function Common<T(==, !new)>(xss: seq<seq<T>>): (r: set<T>)
    requires |xss| > 0
    ensures forall x :: x in r <==> forall k :: 0 <= k < |xss| ==> x in xss[k]
  {
    if |xss| == 1 then Elems(xss[0])
    else
      var rest := Common(xss[1..]);
      assert forall x :: x in rest <==> forall k :: 1 <= k < |xss| ==> x in xss[k] by {
        forall x ensures x in rest <==> forall k :: 1 <= k < |xss| ==> x in xss[k] {
          if x !in rest {
            var k :| 0 <= k < |xss[1..]| && x !in xss[1..][k];
            assert x !in xss[k + 1];
          }
        }
      }
      Elems(xss[0]) * rest
  }

  /** The sequence read backwards (`reversed`). */
  function Reverse<T>(s: seq<T>): (r: seq<T>)
    ensures |r| == |s|
    ensures forall k :: 0 <= k < |s| ==> r[k] == s[|s| - 1 - k]
  {
    if s == [] then [] else Reverse(s[1..]) + [s[0]]
  }

  /** One `add` on a list of items: `x` is appended unless it is present. */
  function AddItem<T(==, !new)>(s: seq<T>, x: T): seq<T> {
    if x in s then s else s + [x]
  }

  /** `add` folded over `xs`, starting from the items `acc`. */
  function AddAll<T(==, !new)>(acc: seq<T>, xs: seq<T>): (r: seq<T>)
    ensures forall x :: x in r <==> x in acc || x in xs
    ensures NoDups(acc) ==> NoDups(r)
    ensures |acc| <= |r| && r[..|acc|] == acc
    decreases |xs|
  {
    if xs == [] then acc
    else
      var init := xs[..|xs| - 1];
      assert forall x :: x in xs <==> x in init || x == xs[|xs| - 1] by {
        assert xs == init + [xs[|xs| - 1]];
      }
      AddItem(AddAll(acc, init), xs[|xs| - 1])
  }

  /** The list of items of `OrderedSet(xs)`: later duplicates are dropped. */
  function Dedup<T(==, !new)>(xs: seq<T>): seq<T> {
    AddAll([], xs)
  }

  lemma {:induction false} FirstIndexOfNoDups<T(!new)>(s: seq<T>, k: nat)
    requires NoDups(s) && k < |s|
    ensures FirstIndex(s, s[k]) == k
  {
    var f := FirstIndex(s, s[k]);
    assert s[f] == s[k];
  }

  lemma {:induction false} FirstIndexAppend<T(!new)>(s: seq<T>, x: T, y: T)
    requires y in s
    ensures y in s + [x] && FirstIndex(s + [x], y) == FirstIndex(s, y)
  {
    var a, b := FirstIndex(s + [x], y), FirstIndex(s, y);
    assert (s + [x])[b] == y;
    assert s[a] == y by { assert a <= b; }
  }

  /** A sequence without duplicates has as many distinct elements as entries. */
  lemma {:induction false} ElemsCard<T(!new)>(s: seq<T>)
    ensures |Elems(s)| <= |s|
    ensures NoDups(s) ==> |Elems(s)| == |s|
  {
    if s != [] {
      var init := s[..|s| - 1];
      var last := s[|s| - 1];
      ElemsCard(init);
      assert s == init + [last];
      assert Elems(s) == Elems(init) + {last};
      if NoDups(s) {
        assert NoDups(init);
        assert last !in Elems(init) by {
          forall j | 0 <= j < |init| ensures init[j] != last {
            assert init[j] == s[j];
          }
        }
      }
    }
  }

  /** Filtering depends only on which elements of `s` the filter admits. */
  lemma {:induction false} FilterCongruent<T(!new)>(s: seq<T>, p: set<T>, p': set<T>)
    requires forall x :: x in s ==> (x in p <==> x in p')
    ensures Filter(s, p) == Filter(s, p')
  {
    if s != [] {
      assert forall x :: x in s[1..] ==> x in s;
      FilterCongruent(s[1..], p, p');
    }
  }

  /** Two filters in a row are one filter by the intersection. */
  lemma {:induction false} FilterFilter<T(!new)>(s: seq<T>, p: set<T>, q: set<T>)
    ensures Filter(Filter(s, p), q) == Filter(s, p * q)
  {
    if s != [] {
      FilterFilter(s[1..], p, q);
      if s[0] in p {
        assert Filter(s, p) == [s[0]] + Filter(s[1..], p);
        assert Filter(s, p)[1..] == Filter(s[1..], p);
      }
    }
  }

  /** A filter that admits every element of `s` keeps `s` whole. */
  lemma {:induction false} FilterAll<T(!new)>(s: seq<T>, p: set<T>)
    requires forall x :: x in s ==> x in p
    ensures Filter(s, p) == s
  {
    if s != [] {
      assert forall x :: x in s[1..] ==> x in s;
      FilterAll(s[1..], p);
    }
  }

  /** Removing the element at position `i` of a sequence without duplicates
      is the same as cutting that slot out. */
  lemma {:induction false} WithoutAt<T(!new)>(s: seq<T>, i: nat)
    requires NoDups(s) && i < |s|
    ensures Without(s, {s[i]}) == s[..i] + s[i + 1..]
  {
    FilterCut(s, Elems(s) - {s[i]}, i);
  }

  lemma {:induction false} FilterCut<T(!new)>(s: seq<T>, p: set<T>, i: nat)
    requires NoDups(s) && i < |s|
    requires s[i] !in p
    requires forall j :: 0 <= j < |s| && j != i ==> s[j] in p
    ensures Filter(s, p) == s[..i] + s[i + 1..]
  {
    var t := s[1..];
    if i == 0 {
      forall x | x in t ensures x in p {
        var j :| 0 <= j < |t| && t[j] == x;
        assert s[j + 1] == x;
      }
      FilterAll(t, p);
      assert Filter(s, p) == Filter(t, p);
    } else {
      assert s[0] in p;
      assert Filter(s, p) == [s[0]] + Filter(t, p);
      assert NoDups(t);
      forall j | 0 <= j < |t| && j != i - 1 ensures t[j] in p {
        assert t[j] == s[j + 1];
      }
      FilterCut(t, p, i - 1);
      assert s[..i] == [s[0]] + t[..i - 1];
      assert s[i + 1..] == t[i..];
    }
  }

  /** Removing `a` and then `b` is removing both at once. */
  lemma WithoutWithout<T(!new)>(s: seq<T>, a: set<T>, b: set<T>)
    ensures Without(Without(s, a), b) == Without(s, a + b)
  {
    var w := Without(s, a);
    FilterFilter(s, Elems(s) - a, Elems(w) - b);
    FilterCongruent(s, (Elems(s) - a) * (Elems(w) - b), Elems(s) - (a + b));
  }

  /** Removing the elements of `s` that are not in `p` keeps exactly those in `p`. */
  lemma WithoutComplement<T(!new)>(s: seq<T>, p: set<T>)
    ensures Without(s, Elems(Without(s, p))) == Filter(s, p)
  {
    FilterCongruent(s, Elems(s) - Elems(Without(s, p)), p);
  }

  /** Filtering a sequence without duplicates keeps the order of `s`. */
  lemma {:induction false} FilterInOrder<T(!new)>(s: seq<T>, p: set<T>)
    requires NoDups(s)
    ensures InOrderOf(Filter(s, p), s)
  {
    if s != [] {
      var t := s[1..];
      HeadNotInTail(s);
      FilterInOrder(t, p);
      InOrderCons(s[0], Filter(t, p), t);
      assert s == [s[0]] + t;
    }
  }

  /** Putting a new element in front of `t` keeps every `InOrderOf(r, t)`,
      also with the same element put in front of `r`. */
  lemma InOrderCons<T(!new)>(h: T, r: seq<T>, t: seq<T>)
    requires InOrderOf(r, t) && h !in t
    ensures InOrderOf(r, [h] + t) && InOrderOf([h] + r, [h] + t)
  {
    var s := [h] + t;
    assert s[1..] == t;
    forall x | x in t ensures FirstIndex(s, x) == 1 + FirstIndex(t, x) {
      assert s[0] != x;
    }
    var hr := [h] + r;
    forall i, j | 0 <= i < j < |hr| && hr[i] in s && hr[j] in s
      ensures FirstIndex(s, hr[i]) < FirstIndex(s, hr[j])
    {
      assert hr[j] == r[j - 1] && r[j - 1] in t;
      if i > 0 {
        assert hr[i] == r[i - 1] && r[i - 1] in t;
      }
    }
    forall x | x in hr ensures x in s {
      if x != h {
        assert x in r;
      }
    }
  }

  /** In a sequence without duplicates the head does not recur in the tail. */
  lemma HeadNotInTail<T(!new)>(s: seq<T>)
    requires NoDups(s) && |s| > 0
    ensures s[0] !in s[1..] && NoDups(s[1..])
  {
    forall k | 0 <= k < |s| - 1 ensures s[1..][k] != s[0] {
      assert s[1..][k] == s[k + 1];
    }
    forall i, k | 0 <= i < k < |s| - 1 ensures s[1..][i] != s[1..][k] {
      assert s[1..][i] == s[i + 1] && s[1..][k] == s[k + 1];
    }
  }

  /** Folding `add` over a list of distinct new elements appends them all. */
  lemma {:induction false} AddAllDistinct<T(!new)>(acc: seq<T>, xs: seq<T>)
    requires NoDups(acc + xs)
    ensures AddAll(acc, xs) == acc + xs
  {
    if xs != [] {
      var init := xs[..|xs| - 1];
      var last := xs[|xs| - 1];
      assert acc + xs == (acc + init) + [last];
      assert NoDups(acc + init) by {
        forall i, j | 0 <= i < j < |acc + init|
          ensures (acc + init)[i] != (acc + init)[j]
        {
          assert (acc + init)[i] == (acc + xs)[i] && (acc + init)[j] == (acc + xs)[j];
        }
      }
      AddAllDistinct(acc, init);
      assert last !in acc + init by {
        forall k | 0 <= k < |acc + init| ensures (acc + init)[k] != last {
          assert (acc + init)[k] == (acc + xs)[k];
          assert last == (acc + xs)[|acc + xs| - 1];
        }
      }
    }
  }

  /** `OrderedSet(s)` keeps a list without duplicates as it is. */
  lemma DedupOfNoDups<T(!new)>(s: seq<T>)
    requires NoDups(s)
    ensures Dedup(s) == s
  {
    assert [] + s == s;
    AddAllDistinct([], s);
  }

  /** Folding `add` over `xs + ys` is folding over `xs`, then over `ys`. */
  lemma {:induction false} AddAllAppend<T(!new)>(acc: seq<T>, xs: seq<T>, ys: seq<T>)
    ensures AddAll(acc, xs + ys) == AddAll(AddAll(acc, xs), ys)
    decreases |ys|
  {
    if ys == [] {
      assert xs + ys == xs;
    } else {
      var init := ys[..|ys| - 1];
      assert (xs + ys)[..|xs + ys| - 1] == xs + init;
      assert (xs + ys)[|xs + ys| - 1] == ys[|ys| - 1];
      AddAllAppend(acc, xs, init);
    }
  }

  /** The fold of `add` lists each element once, at its first appearance:
      the items of `acc` first, then the new elements of `xs` in the order
      in which they first occur. */
  lemma {:induction false} AddAllFirstAppearance<T(!new)>(acc: seq<T>, xs: seq<T>)
    requires NoDups(acc)
    ensures InOrderOf(AddAll(acc, xs), acc + xs)
    decreases |xs|
  {
    if xs == [] {
      assert acc + xs == acc;
      InOrderSelf(acc);
    } else {
      var init := xs[..|xs| - 1];
      var x := xs[|xs| - 1];
      var s := acc + init;
      assert acc + xs == s + [x];
      AddAllFirstAppearance(acc, init);
      var r := AddAll(acc, init);
      if x in r {
        InOrderAppendOld(r, s, x);
      } else {
        assert x !in s;
        InOrderAppendNew(r, s, x);
      }
    }
  }

  /** A sequence without duplicates is in its own order. */
  lemma InOrderSelf<T(!new)>(s: seq<T>)
    requires NoDups(s)
    ensures InOrderOf(s, s)
  {
    forall i, j | 0 <= i < j < |s| ensures FirstIndex(s, s[i]) < FirstIndex(s, s[j]) {
      FirstIndexOfNoDups(s, i);
      FirstIndexOfNoDups(s, j);
    }
  }

  /** Appending to `s` does not move the first occurrences already there. */
  lemma InOrderAppendOld<T(!new)>(r: seq<T>, s: seq<T>, x: T)
    requires InOrderOf(r, s)
    ensures InOrderOf(r, s + [x])
  {
    forall i, j | 0 <= i < j < |r|
      ensures FirstIndex(s + [x], r[i]) < FirstIndex(s + [x], r[j])
    {
      FirstIndexAppend(s, x, r[i]);
      FirstIndexAppend(s, x, r[j]);
    }
  }

  /** A new element appended to both sequences comes last in both. */
  lemma InOrderAppendNew<T(!new)>(r: seq<T>, s: seq<T>, x: T)
    requires InOrderOf(r, s) && x !in s
    ensures InOrderOf(r + [x], s + [x])
  {
    var r' := r + [x];
    assert FirstIndex(s + [x], x) == |s| by {
      forall j | 0 <= j < |s| ensures (s + [x])[j] != x {
        assert (s + [x])[j] == s[j];
      }
      FirstIndexAt(s + [x], x, |s|);
    }
    forall i, j | 0 <= i < j < |r'|
      ensures FirstIndex(s + [x], r'[i]) < FirstIndex(s + [x], r'[j])
    {
      assert r'[i] == r[i] && r[i] in s;
      FirstIndexAppend(s, x, r[i]);
      if j < |r| {
        assert r'[j] == r[j];
        FirstIndexAppend(s, x, r[j]);
      }
    }
  }

  /** `OrderedSet(xs)` lists the elements of `xs` in first-appearance order. */
  lemma DedupFirstAppearance<T(!new)>(xs: seq<T>)
    ensures InOrderOf(Dedup(xs), xs)
  {
    assert [] + xs == xs;
    AddAllFirstAppearance([], xs);
  }

  lemma InOrderHeadFirst<T(!new)>(a: seq<T>, s: seq<T>, x: T)
    requires InOrderOf(a, s) && x in a
    ensures a[0] in s && x in s && FirstIndex(s, a[0]) <= FirstIndex(s, x)
  {
    var k :| 0 <= k < |a| && a[k] == x;
    if k > 0 {
      assert a[0] in a;
    }
  }

  /** First-appearance order determines a sequence by its elements: two
      sequences with the same elements, both in the order of `s`, are equal. */
  lemma {:induction false} InOrderUnique<T(!new)>(a: seq<T>, b: seq<T>, s: seq<T>)
    requires forall x :: x in a <==> x in b
    requires InOrderOf(a, s) && InOrderOf(b, s)
    ensures a == b
  {
    assert b != [] ==> b[0] in b;
    if a != [] {
      assert b != [] by { assert a[0] in a; }
      assert a[0] in a && b[0] in b;
      InOrderHeadFirst(a, s, b[0]);
      InOrderHeadFirst(b, s, a[0]);
      assert a[0] == s[FirstIndex(s, a[0])] == s[FirstIndex(s, b[0])] == b[0];
      InOrderTail(a, s);
      InOrderTail(b, s);
      InOrderUnique(a[1..], b[1..], s);
      assert a == [a[0]] + a[1..] && b == [b[0]] + b[1..];
    }
  }

  /** Dropping the head keeps first-appearance order, and the head occurs
      nowhere in the tail. */
  lemma InOrderTail<T(!new)>(a: seq<T>, s: seq<T>)
    requires InOrderOf(a, s) && a != []
    ensures InOrderOf(a[1..], s)
    ensures forall x :: x in a[1..] <==> x in a && x != a[0]
  {
    var t := a[1..];
    forall i, j | 0 <= i < j < |t| ensures FirstIndex(s, t[i]) < FirstIndex(s, t[j]) {
      assert t[i] == a[i + 1] && t[j] == a[j + 1];
    }
    forall k | 0 <= k < |t| ensures t[k] != a[0] {
      assert t[k] == a[k + 1];
      assert a[0] in a && a[k + 1] in a;
    }
    assert a == [a[0]] + t;
  }

  /** `FirstIndex` is pinned down by a position holding `x` with no earlier
      occurrence. */
  lemma FirstIndexAt<T(!new)>(s: seq<T>, x: T, k: nat)
    requires k < |s| && s[k] == x
    requires forall j :: 0 <= j < k ==> s[j] != x
    ensures FirstIndex(s, x) == k
  {
  }

  /** A filter of a sequence without duplicates is the one sequence with
      the admitted elements in the order of `s`. */
  lemma FilterIs<T(!new)>(s: seq<T>, p: set<T>, e: seq<T>)
    requires NoDups(s) && InOrderOf(e, s)
    requires forall x :: x in e <==> x in s && x in p
    ensures Filter(s, p) == e
  {
    FilterInOrder(s, p);
    InOrderUnique(Filter(s, p), e, s);
  }

  /** A sequence is in first-appearance order of `s` when its elements are
      first found in `s` at increasing positions `pos`. */
  lemma InOrderAt<T(!new)>(e: seq<T>, s: seq<T>, pos: seq<nat>)
    requires |pos| == |e|
    requires forall k :: 0 <= k < |e| ==> pos[k] < |s| && s[pos[k]] == e[k]
    requires forall k, j :: 0 <= k < |e| && 0 <= j < pos[k] ==> s[j] != e[k]
    requires forall i, j :: 0 <= i < j < |pos| ==> pos[i] < pos[j]
    ensures InOrderOf(e, s)
  {
    forall k | 0 <= k < |e| ensures e[k] in s && FirstIndex(s, e[k]) == pos[k] {
      FirstIndexAt(s, e[k], pos[k]);
    }
  }

  /** Removing nothing keeps the sequence as it is. */
  lemma WithoutNothing<T(!new)>(s: seq<T>)
    ensures Without(s, {}) == s
  {
    assert Elems(s) - {} == Elems(s);
    FilterAll(s, Elems(s));
  }

  /** Removing a value the sequence does not hold changes nothing. */
  lemma WithoutAbsent<T(!new)>(s: seq<T>, x: T)
    requires x !in s
    ensures Without(s, {x}) == s
  {
    assert forall y :: y in s ==> y in Elems(s) - {x};
    FilterAll(s, Elems(s) - {x});
  }

  /** Removing the values of a prefix of `xs` and then the next one removes
      the values of the next longer prefix. */
  lemma WithoutPrefixStep<T(!new)>(s: seq<T>, xs: seq<T>, i: nat)
    requires i < |xs|
    ensures Without(Without(s, Elems(xs[..i])), {xs[i]}) == Without(s, Elems(xs[..i + 1]))
  {
    WithoutWithout(s, Elems(xs[..i]), {xs[i]});
    assert xs[..i + 1] == xs[..i] + [xs[i]];
    assert Elems(xs[..i + 1]) == Elems(xs[..i]) + {xs[i]};
  }

  /** Removing the values of an empty prefix removes nothing. */
  lemma WithoutEmptyPrefix<T(!new)>(s: seq<T>, xs: seq<T>)
    ensures Without(s, Elems(xs[..0])) == s
  {
    assert Elems(xs[..0]) == {};
    WithoutNothing(s);
  }
}

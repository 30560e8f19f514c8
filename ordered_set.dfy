/** The ordered set itself: a list of items and a dictionary from each item
    to its index in that list, kept in step by every mutator.

    Python names the dictionary `map`, which is a keyword here; the field is
    called `positions`.
 */
module OrderedSets {
  import opened Sequences
  import opened Wrappers
  import SetAlgebra

  /** The two views agree: the items are distinct, the keys of `positions`
      are exactly the items, and each item is mapped to its own index. */
  ghost predicate Consistent<T(!new)>(items: seq<T>, positions: map<T, int>) {
    && NoDups(items)
    && positions.Keys == Elems(items)
    && forall j :: 0 <= j < |items| ==> items[j] in positions && positions[items[j]] == j
  }

  /** The renumbering loop of `discard`: every index at or after `i` moves
      down by one. */
  function Renumber<T(==)>(m: map<T, int>, i: int): (r: map<T, int>)
    ensures r.Keys == m.Keys
    ensures forall k :: k in m && m[k] < i ==> r[k] == m[k]
    ensures forall k :: k in m && m[k] > i ==> r[k] == m[k] - 1
    ensures (forall k :: k in m ==> m[k] != i) ==>
              forall a, b :: a in m && b in m && m[a] != m[b] ==> r[a] != r[b]
  {
    map k | k in m :: if m[k] >= i then m[k] - 1 else m[k]
  }

  /** The state the renumbering loop of `discard` ends in is `Renumber`. */
  lemma RenumberDone<T(!new)>(m: map<T, int>, before: map<T, int>, i: int)
    requires m.Keys == before.Keys
    requires forall k :: k in m ==> m[k] == if before[k] >= i then before[k] - 1 else before[k]
    ensures m == Renumber(before, i)
  {
  }

  /** Where `discard` ends: the list with the key's slot cut out and the
      dictionary renumbered key by key are the specified new state, and the
      two views still agree. */
  lemma DiscardDone<T(!new)>(items: seq<T>, positions: map<T, int>, key: T,
                             items': seq<T>, positions': map<T, int>)
    requires Consistent(items, positions) && key in positions
    requires 0 <= positions[key] < |items|
    requires items' == items[..positions[key]] + items[positions[key] + 1..]
    requires positions'.Keys == (positions - {key}).Keys
    requires forall k :: k in positions' ==>
               positions'[k] == if positions[k] >= positions[key] then positions[k] - 1 else positions[k]
    ensures items' == Without(items, {key}) && |items'| == |items| - 1
    ensures positions' == Renumber(positions - {key}, positions[key])
    ensures Consistent(items', positions')
  {
    RenumberDone(positions', positions - {key}, positions[key]);
    ConsistentDiscard(items, positions, key);
  }

  /** Looking a key up in `positions` finds that key in `items`. */
  lemma ConsistentLookup<T(!new)>(items: seq<T>, positions: map<T, int>, key: T)
    requires Consistent(items, positions) && key in positions
    ensures 0 <= positions[key] < |items| && items[positions[key]] == key
  {
    assert key in Elems(items);
    var j :| 0 <= j < |items| && items[j] == key;
  }

  /** Both views have the same size. */
  lemma ConsistentSize<T(!new)>(items: seq<T>, positions: map<T, int>)
    requires Consistent(items, positions)
    ensures |positions| == |items|
  {
    ElemsCard(items);
    assert positions.Keys == Elems(items);
  }

  /** Appending a new key at index `|items|` keeps the views in step. */
  lemma ConsistentAppend<T(!new)>(items: seq<T>, positions: map<T, int>, key: T)
    requires Consistent(items, positions) && key !in positions
    ensures Consistent(items + [key], positions[key := |items|])
  {
    var s, m := items + [key], positions[key := |items|];
    assert key !in items by {
      assert key !in Elems(items);
    }
    forall i, j | 0 <= i < j < |s| ensures s[i] != s[j] {
      if j < |items| {
        assert s[i] == items[i] && s[j] == items[j];
      } else {
        assert s[i] == items[i] && s[j] == key;
      }
    }
    assert Elems(s) == Elems(items) + {key};
    forall j | 0 <= j < |s| ensures s[j] in m && m[s[j]] == j {
      if j < |items| {
        assert s[j] == items[j] && s[j] != key;
      }
    }
  }

  /** Dropping the last item and its key keeps the views in step. */
  lemma ConsistentDropLast<T(!new)>(items: seq<T>, positions: map<T, int>)
    requires Consistent(items, positions) && items != []
    ensures Consistent(items[..|items| - 1], positions - {items[|items| - 1]})
  {
    var n := |items| - 1;
    var s, m := items[..n], positions - {items[n]};
    assert items == s + [items[n]];
    forall j | 0 <= j < n ensures s[j] != items[n] {
      assert s[j] == items[j];
    }
    assert Elems(items) == Elems(s) + {items[n]};
    assert m.Keys == Elems(s);
  }

  /** Removing `key` and renumbering the later indices keeps the views in
      step; in the list, the removal cuts out the slot of `key`. */
  lemma ConsistentDiscard<T(!new)>(items: seq<T>, positions: map<T, int>, key: T)
    requires Consistent(items, positions) && key in positions
    ensures Without(items, {key}) == items[..positions[key]] + items[positions[key] + 1..]
    ensures Consistent(Without(items, {key}), Renumber(positions - {key}, positions[key]))
  {
    var i := positions[key];
    ConsistentLookup(items, positions, key);
    WithoutAt(items, i);
    var s := Without(items, {key});
    var m := Renumber(positions - {key}, i);
    assert m.Keys == Elems(s);
    forall j | 0 <= j < |s| ensures s[j] in m && m[s[j]] == j {
      if j < i {
        assert s[j] == items[j];
      } else {
        assert s[j] == items[j + 1];
      }
    }
  }

  class OrderedSet<T(==, !new)> {
    /** The items in iteration order; the index of an item is its position here. */
    var items: seq<T>
    /** Each item mapped to its index in `items` (Python's `self.map`). */
    var positions: map<T, int>

    ghost predicate Valid()
      reads this
    {
      Consistent(items, positions)
    }

    /** `OrderedSet(iterable=None)`: empty, or `add` folded over the iterable
        (`self |= iterable`), so the first occurrence of an element fixes its
        index. */
    constructor (iterable: Option<seq<T>>)
      ensures Valid()
      ensures iterable.None? ==> items == []
      ensures iterable.Some? ==> items == Dedup(iterable.value)
    {
      items := [];
      positions := map[];
      new;
      if iterable.Some? {
        var _ := Update(iterable.value);
        assert [] + iterable.value == iterable.value;
      }
    }

    /** `len(self)`: the number of items, which is also the number of keys. */
    function Len(): (n: nat)
      reads this
      requires Valid()
      ensures n == |positions|
    {
      assert |positions| == |items| by {
        ConsistentSize(items, positions);
      }
      |items|
    }

    /** `key in self`, answered by the dictionary, agrees with the list. */
    function Contains(key: T): (b: bool)
      reads this
      requires Valid()
      ensures b <==> key in items
    {
      assert key in positions <==> key in Elems(items);
      key in positions
    }

    /** `add(key)`: a present key keeps its index and nothing changes; an
        absent key is appended at index `len(self)`, and every other entry
        keeps its index. Returns the key's index. */
    method Add(key: T) returns (index: int)
      requires Valid()
      modifies this
      ensures Valid()
      ensures items == AddItem(old(items), key)
      ensures 0 <= index < |items| && items[index] == key
      ensures key in old(items) ==> index == old(positions)[key] && positions == old(positions)
      ensures key !in old(items) ==> index == |old(items)| && positions == old(positions)[key := index]
    {
      assert key in positions <==> key in Elems(items);
      if key !in positions {
        ConsistentAppend(items, positions, key);
        positions := positions[key := |items|];
        items := items + [key];
      }
      index := positions[key];
      ConsistentLookup(items, positions, key);
    }

    /** `append` is another name for `add`. */
    method Append(key: T) returns (index: int)
      requires Valid()
      modifies this
      ensures Valid()
      ensures items == AddItem(old(items), key)
      ensures 0 <= index < |items| && items[index] == key
      ensures key in old(items) ==> index == old(positions)[key] && positions == old(positions)
      ensures key !in old(items) ==> index == |old(items)| && positions == old(positions)[key := index]
    {
      index := Add(key);
    }

    /** `update(sequence)`: `add` each element in turn; returns the index of
        the last element processed, or `None` when there was none. */
    method Update(sequence: seq<T>) returns (last: Option<int>)
      requires Valid()
      modifies this
      ensures Valid()
      ensures items == AddAll(old(items), sequence)
      ensures sequence == [] <==> last.None?
      ensures last.Some? ==> 0 <= last.value < |items| && items[last.value] == sequence[|sequence| - 1]
    {
      last := None;
      for i := 0 to |sequence|
        invariant Valid()
        invariant items == AddAll(old(items), sequence[..i])
        invariant i == 0 <==> last.None?
        invariant last.Some? ==> 0 <= last.value < |items| && items[last.value] == sequence[i - 1]
      {
        var index := Add(sequence[i]);
        last := Some(index);
        assert sequence[..i + 1][..i] == sequence[..i];
      }
      assert sequence[..|sequence|] == sequence;
    }

    /** `index(key)`: the key's index, read from the dictionary; `KeyError`
        when the key is absent. */
    function Index(key: T): (r: Result<int>)
      reads this
      requires Valid()
      ensures r.Ok? <==> key in items
      ensures r.Err? ==> r.error == KeyError
      ensures r.Ok? ==> 0 <= r.value < |items| && items[r.value] == key
    {
      assert key in positions <==> key in Elems(items);
      if key in positions then
        ConsistentLookup(items, positions, key);
        Ok(positions[key])
      else Err(KeyError)
    }

    /** `index(keys)` for a list of keys: the index of each, in order; the
        first absent key makes the whole call fail with `KeyError`. */
    function IndexMany(keys: seq<T>): (r: Result<seq<int>>)
      reads this
      requires Valid()
      ensures r.Ok? <==> forall k :: 0 <= k < |keys| ==> keys[k] in items
      ensures r.Err? ==> r.error == KeyError
      ensures r.Ok? ==> |r.value| == |keys| &&
                        forall k :: 0 <= k < |keys| ==> Index(keys[k]) == Ok(r.value[k])
    {
      if keys == [] then Ok([])
      else
        match Index(keys[0])
        case Err(e) => Err(e)
        case Ok(i) =>
          match IndexMany(keys[1..])
          case Err(e) => Err(e)
          case Ok(rest) =>
            assert forall k :: 1 <= k < |keys| ==> keys[k] == keys[1..][k - 1];
            Ok([i] + rest)
    }

    /** `self[index]` for an integer: Python list indexing, negative indices
        counting from the end; `IndexError` outside `-len .. len - 1`. The
        item found is the one the dictionary maps to that index. */
    function Get(index: int): (r: Result<T>)
      reads this
      requires Valid()
      ensures r.Ok? <==> -|items| <= index < |items|
      ensures r.Err? ==> r.error == IndexError
      ensures r.Ok? ==> r.value in positions &&
                        positions[r.value] == (if index < 0 then index + |items| else index)
    {
      if 0 <= index < |items| then Ok(items[index])
      else if -|items| <= index < 0 then Ok(items[index + |items|])
      else Err(IndexError)
    }

    /** `self[k]` and `self.index(key)` undo each other. */
    lemma IndexThenGet(key: T)
      requires Valid() && key in items
      ensures Index(key).Ok? && Get(Index(key).value) == Ok(key)
    {
    }

    lemma GetThenIndex(j: int)
      requires Valid() && -|items| <= j < |items|
      ensures Get(j).Ok? && Index(Get(j).value) == Ok(if j < 0 then j + |items| else j)
    {
    }

    /** `[self.items[i] for i in indices]`, failing with `IndexError` at the
        first index out of range. */
    function Pick(indices: seq<int>): (r: Result<seq<T>>)
      reads this
      requires Valid()
      ensures r.Ok? <==> forall k :: 0 <= k < |indices| ==> -|items| <= indices[k] < |items|
      ensures r.Err? ==> r.error == IndexError
      ensures r.Ok? ==> |r.value| == |indices| &&
                        forall k :: 0 <= k < |indices| ==> Get(indices[k]) == Ok(r.value[k])
    {
      if indices == [] then Ok([])
      else
        match Get(indices[0])
        case Err(e) => Err(e)
        case Ok(x) =>
          match Pick(indices[1..])
          case Err(e) => Err(e)
          case Ok(rest) =>
            assert forall k :: 1 <= k < |indices| ==> indices[k] == indices[1..][k - 1];
            Ok([x] + rest)
    }

    /** `self[indices]` for a list of indices ("fancy indexing"): the items
        at those indices, in the order the indices were given, each once. */
    function GetMany(indices: seq<int>): (r: Result<seq<T>>)
      reads this
      requires Valid()
      ensures r.Ok? <==> forall k :: 0 <= k < |indices| ==> -|items| <= indices[k] < |items|
      ensures r.Err? ==> r.error == IndexError
      ensures r.Ok? ==> NoDups(r.value) &&
                        forall x :: x in r.value <==> exists k :: 0 <= k < |indices| && Get(indices[k]) == Ok(x)
      ensures r.Ok? ==> InOrderOf(r.value, Pick(indices).value)
    {
      match Pick(indices)
      case Err(e) => Err(e)
      case Ok(picked) =>
        assert forall x :: x in picked <==> exists k :: 0 <= k < |indices| && Get(indices[k]) == Ok(x) by {
          forall x | x in picked ensures exists k :: 0 <= k < |indices| && Get(indices[k]) == Ok(x) {
            var k :| 0 <= k < |picked| && picked[k] == x;
            assert Get(indices[k]) == Ok(x);
          }
        }
        DedupFirstAppearance(picked);
        Ok(Dedup(picked))
    }

    /** `self[start:stop]`: the items from index `start` up to `stop`, with
        Python's clamping of negative and too large bounds; the result lists
        consecutive indices from the clamped start. */
    function Slice(start: int, stop: int): (r: seq<T>)
      reads this
      requires Valid()
      ensures |r| == if Clamp(start, |items|) < Clamp(stop, |items|)
                     then Clamp(stop, |items|) - Clamp(start, |items|) else 0
      ensures forall k :: 0 <= k < |r| ==> r[k] in positions && positions[r[k]] == Clamp(start, |items|) + k
    {
      var lo, hi := Clamp(start, |items|), Clamp(stop, |items|);
      if lo < hi then
        var part := items[lo..hi];
        assert NoDups(part) by {
          forall i, j | 0 <= i < j < |part| ensures part[i] != part[j] {
            assert part[i] == items[lo + i] && part[j] == items[lo + j];
          }
        }
        DedupOfNoDups(part);
        Dedup(part)
      else []
    }

    /** `self[:]`: a new ordered set equal to this one. */
    method Copy() returns (r: OrderedSet<T>)
      requires Valid()
      ensures fresh(r) && r.Valid() && r.items == items
    {
      DedupOfNoDups(items);
      r := new OrderedSet(Some(items));
    }

    /** `pop()`: `KeyError` on an empty set; otherwise removes and returns the
        last item, and no other index changes. */
    method Pop() returns (r: Result<T>)
      requires Valid()
      modifies this
      ensures Valid()
      ensures old(items) == [] ==> r == Err(KeyError) && items == old(items) && positions == old(positions)
      ensures old(items) != [] ==>
                && r == Ok(old(items)[|old(items)| - 1])
                && items == old(items)[..|old(items)| - 1]
                && positions == old(positions) - {r.value}
    {
      if items == [] {
        return Err(KeyError);
      }
      var elem := items[|items| - 1];
      ConsistentDropLast(items, positions);
      items := items[..|items| - 1];
      positions := positions - {elem};
      r := Ok(elem);
    }

    /** `discard(key)`: nothing happens when the key is absent; otherwise its
        slot is cut out of the list, its key is deleted, and a loop over the
        dictionary moves every later index down by one. */
    method Discard(key: T)
      requires Valid()
      modifies this
      ensures Valid()
      ensures items == Without(old(items), {key})
      ensures key !in old(items) ==> positions == old(positions)
      ensures key in old(items) ==>
                && |items| == |old(items)| - 1
                && positions == Renumber(old(positions) - {key}, old(positions)[key])
    {
      assert key in positions <==> key in Elems(items);
      if key !in positions {
        WithoutAbsent(items, key);
        return;
      }
      var i := positions[key];
      ConsistentLookup(items, positions, key);
      items := items[..i] + items[i + 1..];
      positions := positions - {key};
      ghost var before := positions;
      ghost var kept := items;
      var pending := positions.Keys;
      while pending != {}
        invariant items == kept
        invariant pending <= positions.Keys && positions.Keys == before.Keys
        invariant forall k :: k in positions && k !in pending ==>
                    positions[k] == if before[k] >= i then before[k] - 1 else before[k]
        invariant forall k :: k in pending ==> positions[k] == before[k]
        decreases pending
      {
        var k :| k in pending;
        var v := positions[k];
        if v >= i {
          positions := positions[k := v - 1];
        }
        pending := pending - {k};
      }
      DiscardDone(old(items), old(positions), key, items, positions);
    }

    /** `remove(key)` (from the `MutableSet` mixin): `KeyError` when the key
        is absent, otherwise `discard(key)`. */
    method Remove(key: T) returns (r: Result<()>)
      requires Valid()
      modifies this
      ensures Valid()
      ensures key !in old(items) ==> r == Err(KeyError) && items == old(items) && positions == old(positions)
      ensures key in old(items) ==>
                && r == Ok(())
                && items == Without(old(items), {key})
                && positions == Renumber(old(positions) - {key}, old(positions)[key])
    {
      if !Contains(key) {
        return Err(KeyError);
      }
      Discard(key);
      r := Ok(());
    }

    /** `clear()`: both views become empty. */
    method Clear()
      requires Valid()
      modifies this
      ensures Valid()
      ensures items == [] && positions == map[]
    {
      items := [];
      positions := map[];
    }

    /** `iter(self)`: the items in index order. */
    function Iter(): (r: seq<T>)
      reads this
      requires Valid()
      ensures |r| == Len()
      ensures forall j :: 0 <= j < |r| ==> r[j] in positions && positions[r[j]] == j
    {
      items
    }

    /** `reversed(self)`: the items from the last index down to 0. */
    function Reversed(): (r: seq<T>)
      reads this
      requires Valid()
      ensures |r| == Len()
      ensures forall j :: 0 <= j < |r| ==> r[j] in positions && positions[r[j]] == |items| - 1 - j
    {
      Reverse(items)
    }

    /** `difference_update(*sets)`: `discard` every element of every
        argument, so an item goes as soon as one argument holds it. */
    method DifferenceUpdate(sets: seq<seq<T>>)
      requires Valid()
      modifies this
      ensures Valid()
      ensures items == SetAlgebra.DifferenceOfAny(old(items), sets)
    {
      var all := Concat(sets);
      WithoutEmptyPrefix(items, all);
      for i := 0 to |all|
        invariant Valid()
        invariant items == Without(old(items), Elems(all[..i]))
      {
        Discard(all[i]);
        WithoutPrefixStep(old(items), all, i);
      }
      assert all[..|all|] == all;
      DedupOfNoDups(items);
    }

    /** `intersection_update(other)`: list the items not in `other`, then
        `discard` each of them. */
    method IntersectionUpdate(other: seq<T>)
      requires Valid()
      modifies this
      ensures Valid()
      ensures items == SetAlgebra.Intersection(old(items), [other])
    {
      var toRemove := Without(items, Elems(other));
      WithoutEmptyPrefix(items, toRemove);
      for i := 0 to |toRemove|
        invariant Valid()
        invariant items == Without(old(items), Elems(toRemove[..i]))
      {
        Discard(toRemove[i]);
        WithoutPrefixStep(old(items), toRemove, i);
      }
      assert toRemove[..|toRemove|] == toRemove;
      WithoutComplement(old(items), Elems(other));
      assert Common([other]) == Elems(other);
      DedupOfNoDups(items);
    }

    /** `symmetric_difference_update(other)`: first compute `other` minus
        `self` (as `OrderedSet(other).difference(self)`), then discard the
        elements of `other`, then add back that difference. */
    method SymmetricDifferenceUpdate(other: seq<T>)
      requires Valid()
      modifies this
      ensures Valid()
      ensures items == SetAlgebra.SymmetricDifference(old(items), other)
    {
      assert NoDups(Dedup(other));
      var diff2 := SetAlgebra.Difference(Dedup(other), [items]).value;
      SetAlgebra.DifferenceOfOne(Dedup(other), items);
      SetAlgebra.DifferenceOfOne(items, other);
      SetAlgebra.SymmetricDifferenceOrder(items, other);
      assert Elems(Dedup(other)) == Elems(other);
      DifferenceUpdate([other]);
      var _ := Update(diff2);
      SetAlgebra.DisjointConcatNoDups(Without(old(items), Elems(other)), diff2);
      AddAllDistinct(Without(old(items), Elems(other)), diff2);
    }
  }

  /** A slice bound as Python clamps it: negative bounds count from the end,
      and the result lies in `0 .. n`. */
  function Clamp(b: int, n: nat): (r: nat)
    ensures r <= n
    ensures 0 <= b <= n ==> r == b
    ensures b > n ==> r == n
    ensures b < 0 && 0 <= b + n ==> r == b + n
    ensures b + n < 0 ==> r == 0
  {
    if b < 0 then (if b + n < 0 then 0 else b + n)
    else if b > n then n
    else b
  }
}

/** The pickling state of an ordered set, as a pure conversion.

    `__getstate__` cannot return an empty list (the pickle machinery would
    then skip `__setstate__`), so an empty set is saved as the marker
    `(None,)`; any other set is saved as the list of its items.
    `__setstate__` rebuilds the items by folding `add` over the list.
 */
module Pickling {
  import opened Sequences

  /** The saved state: the marker `(None,)` or a list of items. */
  datatype State<T> = EmptyMarker | ItemList(elements: seq<T>)

  /** `__getstate__`: the marker for an empty set, otherwise `list(self)`. */
  function GetState<T>(items: seq<T>): (st: State<T>)
    ensures st.EmptyMarker? <==> items == []
    ensures st.ItemList? ==> st.elements == items && st.elements != []
  {
    if |items| == 0 then EmptyMarker else ItemList(items)
  }

  /** The items that `__setstate__` leaves: none for the marker, otherwise
      the saved list with later duplicates dropped. */
  function SetState<T(==, !new)>(st: State<T>): (items: seq<T>)
    ensures NoDups(items)
    ensures st.ItemList? ==> forall x :: x in items <==> x in st.elements
    ensures st.EmptyMarker? ==> items == []
  {
    match st
    case EmptyMarker => []
    case ItemList(xs) => Dedup(xs)
  }

  /** Saving and restoring an ordered set gives back the same items in the
      same order, the empty set included. */
  lemma RoundTrip<T(!new)>(items: seq<T>)
    requires NoDups(items)
    ensures SetState(GetState(items)) == items
  {
    if items != [] {
      DedupOfNoDups(items);
    }
  }
}

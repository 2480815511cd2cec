/** Rings of slots that hold a queue of items, oldest first, from a head slot on. */
module Rings {
  import opened Words

  /** The slots from `head` on fit the items in order. */
  ghost predicate Holds<S, T>(slots: seq<S>, head: nat, items: seq<T>, fits: (S, T) -> bool) {
    && head < |slots| && |items| <= |slots|
    && forall k :: 0 <= k < |items| ==> fits(slots[Wrap(head + k, |slots|)], items[k])
  }

  lemma HoldsFirst<S, T>(slots: seq<S>, head: nat, items: seq<T>, fits: (S, T) -> bool)
    requires Holds(slots, head, items, fits) && items != []
    ensures fits(slots[head], items[0])
  {
    assert Wrap(head + 0, |slots|) == head;
  }

  lemma HoldsAppend<S, T>(slots: seq<S>, head: nat, items: seq<T>, fits: (S, T) -> bool, s: S, item: T)
    requires Holds(slots, head, items, fits) && |items| < |slots| && fits(s, item)
    ensures Holds(slots[Wrap(head + |items|, |slots|) := s], head, items + [item], fits)
  {
  }

  /** The first item goes, whatever becomes of its slot. */
  lemma HoldsDrop<S, T>(slots: seq<S>, head: nat, items: seq<T>, fits: (S, T) -> bool, s: S)
    requires Holds(slots, head, items, fits) && items != []
    ensures Holds(slots[head := s], Wrap(head + 1, |slots|), items[1..], fits)
  {
    var head', rest := Wrap(head + 1, |slots|), items[1..];
    forall k | 0 <= k < |rest| ensures fits(slots[head := s][Wrap(head' + k, |slots|)], rest[k]) {
      assert rest[k] == items[k + 1];
      assert Wrap(head' + k, |slots|) == Wrap(head + (k + 1), |slots|) != head;
    }
  }

  /** The first item is replaced by another one that fits its slot. */
  lemma HoldsReplace<S, T>(slots: seq<S>, head: nat, items: seq<T>, fits: (S, T) -> bool, item: T)
    requires Holds(slots, head, items, fits) && items != [] && fits(slots[head], item)
    ensures Holds(slots, head, items[0 := item], fits)
  {
  }
}

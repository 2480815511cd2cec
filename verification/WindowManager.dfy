/** Z-order of window_manager.c: stacking numbers kept in the windows, against the list of windows
    from back to front that they stand for. */
module WindowManager {
  import opened Sequences

  // ---------------------------------------------------------------- stacking numbers

  /** All numbers lie below the number of windows. */
  ghost predicate InRange(z: seq<nat>) {
    forall w :: 0 <= w < |z| ==> z[w] < |z|
  }

  /** The list `order` of windows from back to front and the numbers z are inverse to each other,
      so z is a permutation of 0..n-1. */
  ghost predicate IsOrder(z: seq<nat>, order: seq<nat>) {
    && |order| == |z| && InRange(z)
    && (forall k :: 0 <= k < |order| ==> order[k] < |z| && z[order[k]] == k)
    && (forall w :: 0 <= w < |z| ==> order[z[w]] == w)
  }

  function Raised(z: seq<nat>, i: nat): (r: seq<nat>)
    requires i < |z|
    ensures |r| == |z|
    ensures forall j :: 0 <= j < |z| ==> r[j] == if j == i then |z| - 1 else if z[j] > z[i] then z[j] - 1 else z[j]
  {
    seq(|z|, j requires 0 <= j < |z| => if j == i then |z| - 1 else if z[j] > z[i] then z[j] - 1 else z[j])
  }

  function Lowered(z: seq<nat>, i: nat): (r: seq<nat>)
    requires i < |z|
    ensures |r| == |z|
    ensures forall j :: 0 <= j < |z| ==> r[j] == if j == i then 0 else if z[j] < z[i] then z[j] + 1 else z[j]
  {
    seq(|z|, j requires 0 <= j < |z| => if j == i then 0 else if z[j] < z[i] then z[j] + 1 else z[j])
  }

  datatype Op = Create | Raise(window: nat) | Lower(window: nat) | Focus(window: nat)

  /** The operations on stacking numbers; an unknown window changes nothing. */
  ghost function Apply(z: seq<nat>, op: Op): seq<nat> {
    match op
    case Create => z + [|z|]
    case Raise(i) => if i < |z| then Raised(z, i) else z
    case Lower(i) => if i < |z| then Lowered(z, i) else z
    case Focus(i) => if i < |z| then z[i := |z| - 1] else z
  }

  /** The same operations on the list of windows: a new window in front, raising and lowering move
      one window to the front or the back and keep the order of the others. */
  ghost function Reorder(order: seq<nat>, z: seq<nat>, op: Op): seq<nat>
    requires IsOrder(z, order) && !op.Focus?
  {
    match op
    case Create => order + [|order|]
    case Raise(i) => if i < |z| then Remove(order, z[i]) + [i] else order
    case Lower(i) => if i < |z| then [i] + Remove(order, z[i]) else order
    case Focus(_) => order
  }

  lemma RaiseIsReorder(z: seq<nat>, order: seq<nat>, i: nat)
    requires IsOrder(z, order) && i < |z|
    ensures IsOrder(Raised(z, i), Remove(order, z[i]) + [i])
  {
    var r, o := Raised(z, i), Remove(order, z[i]) + [i];
    forall k | 0 <= k < |o| ensures o[k] < |r| && r[o[k]] == k {
      assert o[k] == if k < z[i] then order[k] else if k + 1 < |o| then order[k + 1] else i;
    }
    forall w | 0 <= w < |r| ensures o[r[w]] == w {}
  }

  lemma LowerIsReorder(z: seq<nat>, order: seq<nat>, i: nat)
    requires IsOrder(z, order) && i < |z|
    ensures IsOrder(Lowered(z, i), [i] + Remove(order, z[i]))
  {
    var r, o := Lowered(z, i), [i] + Remove(order, z[i]);
    forall k | 0 <= k < |o| ensures o[k] < |r| && r[o[k]] == k {
      assert o[k] == if k == 0 then i else if k <= z[i] then order[k - 1] else order[k];
    }
    forall w | 0 <= w < |r| ensures o[r[w]] == w {}
  }

  /** The stacking numbers follow the list. */
  lemma ApplyIsReorder(z: seq<nat>, order: seq<nat>, op: Op)
    requires IsOrder(z, order) && !op.Focus?
    ensures IsOrder(Apply(z, op), Reorder(order, z, op))
  {
    match op
    case Raise(i) => if i < |z| { RaiseIsReorder(z, order, i); }
    case Lower(i) => if i < |z| { LowerIsReorder(z, order, i); }
    case Create =>
      var r, o := z + [|z|], order + [|order|];
      forall w | 0 <= w < |r| ensures r[w] < |r| && o[r[w]] == w {}
  }

  /** Setting the focus keeps the numbers a permutation exactly when the window is in front. */
  lemma FocusKeepsOrder(z: seq<nat>, order: seq<nat>, i: nat)
    requires IsOrder(z, order) && i < |z|
    ensures (exists o :: IsOrder(Apply(z, Focus(i)), o)) <==> z[i] == |z| - 1
  {
    var z' := z[i := |z| - 1];
    if z[i] == |z| - 1 {
      assert z' == z && IsOrder(Apply(z, Focus(i)), order);
    } else {
      var top := order[|z| - 1];
      assert z'[top] == z'[i] && top != i;
    }
  }

  // ---------------------------------------------------------------- runs

  ghost function Run(z: seq<nat>, ops: seq<Op>): seq<nat>
    decreases |ops|
  {
    if ops == [] then z else Apply(Run(z, ops[..|ops| - 1]), ops[|ops| - 1])
  }

  /** Whatever is done, the numbers stay in range. */
  lemma {:induction false} RunInRange(z: seq<nat>, ops: seq<Op>)
    requires InRange(z)
    ensures InRange(Run(z, ops))
    decreases |ops|
  {
    if ops == [] {
    } else {
      RunInRange(z, ops[..|ops| - 1]);
      var z1 := Run(z, ops[..|ops| - 1]);
      var z2 := Apply(z1, ops[|ops| - 1]);
      forall w | 0 <= w < |z2| ensures z2[w] < |z2| {
        assert w < |z1| ==> z1[w] < |z1|;
      }
    }
  }

  ghost function RunList(ops: seq<Op>): (order: seq<nat>)
    requires forall i :: 0 <= i < |ops| ==> !ops[i].Focus?
    ensures IsOrder(Run([], ops), order)
    decreases |ops|
  {
    if ops == [] then []
    else
      var before := ops[..|ops| - 1];
      ApplyIsReorder(Run([], before), RunList(before), ops[|ops| - 1]);
      Reorder(RunList(before), Run([], before), ops[|ops| - 1])
  }

  // ---------------------------------------------------------------- the render sort

  /** s lists the numbers 0..n-1, each once. */
  ghost predicate IsListing(s: seq<nat>, n: nat) {
    |s| == n && (forall a :: 0 <= a < n ==> s[a] < n) && Distinct(s)
  }

  ghost predicate BackToFront(z: seq<nat>, s: seq<nat>)
    requires forall a :: 0 <= a < |s| ==> s[a] < |z|
  {
    forall a, b :: 0 <= a < b < |s| ==> z[s[a]] <= z[s[b]]
  }

  /** The first i places hold windows no further in front than any later one. */
  ghost predicate SortedUpTo(z: seq<nat>, s: seq<nat>, i: int)
    requires forall a :: 0 <= a < |s| ==> s[a] < |z|
  {
    forall a, b :: 0 <= a < i && a < b < |s| ==> z[s[a]] <= z[s[b]]
  }

  lemma {:induction false} RanksAre(z: seq<nat>, s: seq<nat>, order: seq<nat>, a: nat)
    requires IsOrder(z, order) && IsListing(s, |z|) && BackToFront(z, s) && a < |z|
    ensures z[s[a]] >= a
  {
    if a == 0 {
    } else {
      RanksAre(z, s, order, a - 1);
      assert order[z[s[a - 1]]] == s[a - 1] && order[z[s[a]]] == s[a];
    }
  }

  lemma {:induction false} RanksAtMost(z: seq<nat>, s: seq<nat>, order: seq<nat>, a: nat)
    requires IsOrder(z, order) && IsListing(s, |z|) && BackToFront(z, s) && a < |z|
    ensures z[s[a]] <= a
    decreases |z| - a
  {
    if a + 1 >= |z| {
    } else {
      RanksAtMost(z, s, order, a + 1);
      assert order[z[s[a]]] == s[a] && order[z[s[a + 1]]] == s[a + 1];
    }
  }

  /** When the numbers are a permutation, the only back-to-front listing is the list itself. */
  lemma SortedIsOrder(z: seq<nat>, s: seq<nat>, order: seq<nat>)
    requires IsOrder(z, order) && IsListing(s, |z|) && BackToFront(z, s)
    ensures s == order
  {
    forall a | 0 <= a < |s| ensures s[a] == order[a] {
      RanksAre(z, s, order, a);
      RanksAtMost(z, s, order, a);
      assert order[z[s[a]]] == s[a];
    }
  }

  datatype Window = Window(id: int, zOrder: nat, focused: bool)

  /** A window in front of number z moves one place back. */
  function Sunk(w: Window, z: nat): Window {
    if w.zOrder > z then w.(zOrder := w.zOrder - 1) else w
  }

  /** A window behind number z moves one place forward. */
  function Lifted(w: Window, z: nat): Window {
    if w.zOrder < z then w.(zOrder := w.zOrder + 1) else w
  }

  class Manager {
    const windows: array<Window>
    var windowCount: nat
    var nextWindowId: int
    var focusedWindow: int

    /** window_manager_initialize. */
    constructor (maxWindows: nat)
      ensures Valid() && fresh(windows) && windows.Length == maxWindows && Z() == []
    {
      windows := new Window[maxWindows](_ => Window(0, 0, false));
      windowCount, nextWindowId, focusedWindow := 0, 1, -1;
    }

    ghost predicate Valid()
      reads this, windows
    {
      && windowCount <= windows.Length && nextWindowId == windowCount + 1
      && (forall i :: 0 <= i < windowCount ==> windows[i].id == i + 1)
    }

    ghost function Z(): (z: seq<nat>)
      reads this, windows
      requires windowCount <= windows.Length
      ensures |z| == windowCount && forall i :: 0 <= i < windowCount ==> z[i] == windows[i].zOrder
    {
      seq(windowCount, i requires 0 <= i < windowCount <= windows.Length reads this, windows => windows[i].zOrder)
    }

    /** window_manager_create_window; the geometry is left out. */
    method CreateWindow()
      requires Valid()
      modifies this, windows
      ensures Valid()
      ensures Z() == if old(windowCount) < windows.Length then Apply(old(Z()), Create) else old(Z())
      ensures focusedWindow == if old(focusedWindow) == -1 && old(windowCount) < windows.Length then old(windowCount)
                               else old(focusedWindow)
      ensures forall k :: 0 <= k < old(windowCount) ==> windows[k] == old(windows[k])
      ensures old(windowCount) < windows.Length ==> (windows[old(windowCount)].focused <==> old(focusedWindow) == -1)
    {
      if windowCount >= windows.Length {
        return;
      }
      windows[windowCount] := Window(nextWindowId, windowCount, focusedWindow == -1);
      nextWindowId := nextWindowId + 1;
      if focusedWindow == -1 {
        focusedWindow := windowCount;
      }
      windowCount := windowCount + 1;
    }

    /** The search loop all three operations share: the slot of a window id, or the window count. */
    method FindWindow(windowId: int) returns (i: nat)
      requires Valid()
      ensures i == SlotOf(windowId) <= windowCount
      ensures if i < windowCount then windows[i].id == windowId else forall k :: 0 <= k < windowCount ==> windows[k].id != windowId
    {
      i := 0;
      while i < windowCount
        invariant i <= windowCount && (1 <= windowId <= windowCount ==> i < windowId)
      {
        if windows[i].id == windowId {
          return;
        }
        i := i + 1;
      }
    }

    ghost function SlotOf(windowId: int): nat
      reads this
    {
      if 1 <= windowId <= windowCount then windowId - 1 else windowCount
    }

    /** window_manager_set_focus. */
    method SetFocus(windowId: int)
      requires Valid()
      modifies this`focusedWindow, windows
      ensures Valid() && Z() == Apply(old(Z()), Focus(SlotOf(windowId)))
      ensures focusedWindow == if SlotOf(windowId) < windowCount then SlotOf(windowId) else old(focusedWindow)
      ensures forall k :: 0 <= k < windowCount ==> windows[k].focused == (old(windows[k].focused) || k == SlotOf(windowId))
    {
      var i := FindWindow(windowId);
      if i < windowCount {
        focusedWindow := i;
        windows[i] := windows[i].(focused := true, zOrder := windowCount - 1);
      }
    }

    /** window_manager_raise_window. */
    method RaiseWindow(windowId: int)
      requires Valid()
      modifies this`focusedWindow, windows
      ensures Valid() && Z() == Apply(old(Z()), Raise(SlotOf(windowId)))
      ensures focusedWindow == if SlotOf(windowId) < windowCount then SlotOf(windowId) else old(focusedWindow)
      ensures forall k :: 0 <= k < windowCount ==> windows[k].focused == old(windows[k].focused)
    {
      var i := FindWindow(windowId);
      if i < windowCount {
        SinkAbove(i);
        windows[i] := windows[i].(zOrder := windowCount - 1);
        focusedWindow := i;
      }
    }

    /** The loop of window_manager_raise_window: the windows in front of window i move back. */
    method SinkAbove(i: nat)
      requires Valid() && i < windowCount
      modifies windows
      ensures forall k :: 0 <= k < windowCount ==> windows[k] == Sunk(old(windows[k]), old(windows[i].zOrder))
    {
      ghost var w := windows[..];
      for j := 0 to windowCount
        invariant forall k :: 0 <= k < windowCount ==> windows[k] == if k < j then Sunk(w[k], w[i].zOrder) else w[k]
      {
        if windows[j].zOrder > windows[i].zOrder {
          windows[j] := windows[j].(zOrder := windows[j].zOrder - 1);
        }
      }
    }

    /** window_manager_lower_window. */
    method LowerWindow(windowId: int)
      requires Valid()
      modifies windows
      ensures Valid() && Z() == Apply(old(Z()), Lower(SlotOf(windowId)))
      ensures forall k :: 0 <= k < windowCount ==> windows[k].focused == old(windows[k].focused)
    {
      var i := FindWindow(windowId);
      if i < windowCount {
        LiftBelow(i);
        windows[i] := windows[i].(zOrder := 0);
      }
    }

    /** The loop of window_manager_lower_window: the windows behind window i move forward. */
    method LiftBelow(i: nat)
      requires Valid() && i < windowCount
      modifies windows
      ensures forall k :: 0 <= k < windowCount ==> windows[k] == Lifted(old(windows[k]), old(windows[i].zOrder))
    {
      ghost var w := windows[..];
      for j := 0 to windowCount
        invariant forall k :: 0 <= k < windowCount ==> windows[k] == if k < j then Lifted(w[k], w[i].zOrder) else w[k]
      {
        if windows[j].zOrder < windows[i].zOrder {
          windows[j] := windows[j].(zOrder := windows[j].zOrder + 1);
        }
      }
    }

    /** The order in which window_manager_render draws: the exchange sort on window slots. */
    method RenderOrder() returns (sorted: array<nat>)
      requires Valid()
      ensures fresh(sorted) && IsListing(sorted[..], windowCount) && BackToFront(Z(), sorted[..])
      ensures forall order :: IsOrder(Z(), order) ==> sorted[..] == order
    {
      sorted := new nat[windowCount];
      for i := 0 to windowCount
        invariant forall a :: 0 <= a < i ==> sorted[a] == a
      {
        sorted[i] := i;
      }
      ghost var z := Z();
      var i := 0;
      while i < windowCount - 1
        invariant 0 <= i && IsListing(sorted[..], windowCount) && SortedUpTo(z, sorted[..], i)
      {
        SortRound(sorted, i, z);
        i := i + 1;
      }
      forall order | IsOrder(z, order) ensures sorted[..] == order {
        SortedIsOrder(z, sorted[..], order);
      }
    }

    /** The inner loop of the sort: the rearmost of the remaining windows comes to place i. */
    method SortRound(sorted: array<nat>, i: nat, ghost z: seq<nat>)
      requires Valid() && z == Z() && i < windowCount
      requires IsListing(sorted[..], windowCount) && SortedUpTo(z, sorted[..], i)
      modifies sorted
      ensures IsListing(sorted[..], windowCount) && SortedUpTo(z, sorted[..], i + 1)
    {
      for j := i + 1 to windowCount
        invariant IsListing(sorted[..], windowCount) && SortedUpTo(z, sorted[..], i)
        invariant forall b :: i <= b < j ==> z[sorted[i]] <= z[sorted[b]]
      {
        if windows[sorted[i]].zOrder > windows[sorted[j]].zOrder {
          ghost var s := sorted[..];
          SwapKeeps(z, s, i, j);
          sorted[i], sorted[j] := sorted[j], sorted[i];
          assert sorted[..] == s[i := s[j]][j := s[i]];
        }
      }
    }
  }

  lemma SwapKeeps(z: seq<nat>, s: seq<nat>, i: nat, j: nat)
    requires IsListing(s, |z|) && SortedUpTo(z, s, i) && i < j < |s|
    ensures var s' := s[i := s[j]][j := s[i]]; IsListing(s', |z|) && SortedUpTo(z, s', i)
  {
  }
}

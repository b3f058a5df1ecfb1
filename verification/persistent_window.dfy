/** A list of long-lived GUI windows. Each window carries an id drawn from
    a counter and a closure; one render pass calls every closure once, in
    list order, threading the application state through the calls, and
    keeps exactly the windows whose closure returned true. */
module PersistentWindows {

  /** A window: its id and its closure (the `function` field of the
      source; `callback` here), whose body is opaque. */
  datatype PersistentWindow<F> = PersistentWindow(id: nat, callback: F)

  /** One call of a window's closure. It receives the window and the state
      left by the calls before it in the pass, and gives back whether the
      window stays and the state it leaves for the next call. `S` stands
      for the shared application state the closures mutate, together with
      anything else their results depend on (their captured state, the GUI
      context); none of it is modelled further. */
  type WindowCall<!F, !S> = (PersistentWindow<F>, S) -> (bool, S)

  /** The process-wide id counter. */
  class WindowIds {
    var next: nat

    constructor ()
      ensures next == 0
    {
      next := 0;
    }
  }

  /** Create a window: it takes the counter's current value as its id and
      the counter moves on by one, so every later window gets a larger id. */
  method NewWindow<F>(ids: WindowIds, callback: F) returns (w: PersistentWindow<F>)
    modifies ids
    ensures w == PersistentWindow(old(ids.next), callback)
    ensures ids.next == old(ids.next) + 1
    ensures w.id < ids.next
  {
    w := PersistentWindow(ids.next, callback);
    ids.next := ids.next + 1;
  }

  ghost predicate DistinctIds<F>(ws: seq<PersistentWindow<F>>)
  {
    forall i, j :: 0 <= i < j < |ws| ==> ws[i].id != ws[j].id
  }

  ghost predicate IdsBelow<F>(ws: seq<PersistentWindow<F>>, bound: nat)
  {
    forall i :: 0 <= i < |ws| ==> ws[i].id < bound
  }

  ghost predicate IdAbsent<F>(ws: seq<PersistentWindow<F>>, id: nat)
  {
    forall i :: 0 <= i < |ws| ==> ws[i].id != id
  }

  /** The state after the closures of `ws` have been called one by one, in
      list order, starting from `s`. */
  ghost function StateAfter<F, S>(ws: seq<PersistentWindow<F>>, call: WindowCall<F, S>, s: S): S
    decreases |ws|
  {
    if ws == [] then s
    else
      var n := |ws| - 1;
      call(ws[n], StateAfter(ws[..n], call, s)).1
  }

  /** What the closure of the `i`-th window returns in a pass over `ws`
      from state `s`: it is called with the state the first `i` calls left. */
  ghost predicate KeptAt<F, S>(ws: seq<PersistentWindow<F>>, call: WindowCall<F, S>, s: S, i: nat)
    requires i < |ws|
  {
    call(ws[i], StateAfter(ws[..i], call, s)).0
  }

  /** The windows a render pass over `ws` from state `s` keeps: those whose
      closure returns true, in list order. */
  ghost function Retained<F, S>(ws: seq<PersistentWindow<F>>, call: WindowCall<F, S>, s: S): (r: seq<PersistentWindow<F>>)
    ensures |r| <= |ws|
    ensures forall w :: w in r ==> w in ws
    decreases |ws|
  {
    if ws == [] then []
    else
      var n := |ws| - 1;
      Retained(ws[..n], call, s) + (if KeptAt(ws, call, s, n) then [ws[n]] else [])
  }

  /** The positions in `ws` of the windows a render pass keeps, in
      ascending order. */
  ghost function KeptPositions<F, S>(ws: seq<PersistentWindow<F>>, call: WindowCall<F, S>, s: S): (p: seq<nat>)
    ensures forall k :: 0 <= k < |p| ==> p[k] < |ws|
    ensures forall j, k :: 0 <= j < k < |p| ==> p[j] < p[k]
    decreases |ws|
  {
    if ws == [] then []
    else
      var n := |ws| - 1;
      KeptPositions(ws[..n], call, s) + (if KeptAt(ws, call, s, n) then [n] else [])
  }

  /** Extending the list does not change what the earlier calls of a pass
      see or return. */
  lemma KeptAtPrefix<F, S>(ws: seq<PersistentWindow<F>>, call: WindowCall<F, S>, s: S, n: nat, i: nat)
    requires i < n <= |ws|
    ensures KeptAt(ws[..n], call, s, i) == KeptAt(ws, call, s, i)
  {
    assert ws[..n][i] == ws[i];
    assert ws[..n][..i] == ws[..i];
  }

  /** A position is kept exactly when the closure called there returned
      true. */
  lemma {:induction false} KeptPositionsExact<F, S>(ws: seq<PersistentWindow<F>>, call: WindowCall<F, S>, s: S, i: nat)
    requires i < |ws|
    ensures i in KeptPositions(ws, call, s) <==> KeptAt(ws, call, s, i)
    decreases |ws|
  {
    var n := |ws| - 1;
    if i < n {
      KeptPositionsExact(ws[..n], call, s, i);
      KeptAtPrefix(ws, call, s, n, i);
    }
  }

  /** The retained list is the subsequence of `ws` at the kept positions:
      the k-th retained window is the window at the k-th kept position. */
  lemma {:induction false} RetainedAt<F, S>(ws: seq<PersistentWindow<F>>, call: WindowCall<F, S>, s: S)
    ensures |Retained(ws, call, s)| == |KeptPositions(ws, call, s)|
    ensures forall k :: 0 <= k < |Retained(ws, call, s)| ==>
      Retained(ws, call, s)[k] == ws[KeptPositions(ws, call, s)[k]]
    decreases |ws|
  {
    if ws != [] {
      var n := |ws| - 1;
      RetainedAt(ws[..n], call, s);
    }
  }

  /** After a render pass the list is exactly the windows whose closure
      returned true, in their original relative order: its elements are
      `ws` at strictly increasing positions, and a position is among them
      if and only if its closure returned true. */
  lemma {:induction false} RetainedIsFilter<F, S>(ws: seq<PersistentWindow<F>>, call: WindowCall<F, S>, s: S)
    ensures var r, p := Retained(ws, call, s), KeptPositions(ws, call, s);
      |r| == |p| &&
      (forall k :: 0 <= k < |r| ==> p[k] < |ws| && r[k] == ws[p[k]]) &&
      (forall j, k :: 0 <= j < k < |p| ==> p[j] < p[k]) &&
      (forall i :: 0 <= i < |ws| ==> (i in p <==> KeptAt(ws, call, s, i)))
  {
    RetainedAt(ws, call, s);
    forall i | 0 <= i < |ws|
      ensures i in KeptPositions(ws, call, s) <==> KeptAt(ws, call, s, i)
    {
      KeptPositionsExact(ws, call, s, i);
    }
  }

  /** A render pass keeps ids distinct and bounded: a list built from
      windows of one counter stays a list of distinct ids below the
      counter. */
  lemma {:induction false} RetainedKeepsIds<F, S>(ws: seq<PersistentWindow<F>>, call: WindowCall<F, S>, s: S, bound: nat)
    requires DistinctIds(ws) && IdsBelow(ws, bound)
    ensures DistinctIds(Retained(ws, call, s)) && IdsBelow(Retained(ws, call, s), bound)
  {
    RetainedAt(ws, call, s);
  }

  /** A window whose closure returned false is gone after the pass: no
      retained window carries its id. */
  lemma {:induction false} DroppedWindowGone<F, S>(ws: seq<PersistentWindow<F>>, call: WindowCall<F, S>, s: S, i: nat)
    requires DistinctIds(ws) && i < |ws| && !KeptAt(ws, call, s, i)
    ensures IdAbsent(Retained(ws, call, s), ws[i].id)
  {
    RetainedAt(ws, call, s);
    var r, p := Retained(ws, call, s), KeptPositions(ws, call, s);
    forall k | 0 <= k < |r|
      ensures r[k].id != ws[i].id
    {
      KeptPositionsExact(ws, call, s, p[k]);
      assert p[k] in p;
    }
  }

  /** An id absent from the list stays absent through a render pass. */
  lemma {:induction false} RetainedKeepsAbsent<F, S>(ws: seq<PersistentWindow<F>>, call: WindowCall<F, S>, s: S, id: nat)
    requires IdAbsent(ws, id)
    ensures IdAbsent(Retained(ws, call, s), id)
  {
    RetainedAt(ws, call, s);
  }

  /** An id absent from the list and already handed out by the counter
      stays absent when a window just made from the counter is pushed. So
      a dropped window's id never reappears through later pushes of new
      windows and later passes, and no later pass calls that window. */
  lemma {:induction false} PushFreshKeepsAbsent<F>(ws: seq<PersistentWindow<F>>, w: PersistentWindow<F>, id: nat, next: nat)
    requires IdAbsent(ws, id) && id < next && w.id == next
    ensures IdAbsent(ws + [w], id)
  {
    forall i | 0 <= i < |ws| + 1
      ensures (ws + [w])[i].id != id
    {
      if i < |ws| {
        assert (ws + [w])[i] == ws[i];
      }
    }
  }

  /** A window whose closure returned true survives the pass. */
  lemma {:induction false} KeptWindowStays<F, S>(ws: seq<PersistentWindow<F>>, call: WindowCall<F, S>, s: S, i: nat)
    requires i < |ws| && KeptAt(ws, call, s, i)
    ensures ws[i] in Retained(ws, call, s)
  {
    RetainedAt(ws, call, s);
    KeptPositionsExact(ws, call, s, i);
    var p := KeptPositions(ws, call, s);
    var k :| 0 <= k < |p| && p[k] == i;
    assert Retained(ws, call, s)[k] == ws[i];
  }

  /** Pushing a window just created from the counter keeps the ids of the
      list distinct and below the counter. */
  lemma {:induction false} PushFreshKeepsIds<F>(ws: seq<PersistentWindow<F>>, w: PersistentWindow<F>, next: nat)
    requires DistinctIds(ws) && IdsBelow(ws, next) && w.id == next
    ensures DistinctIds(ws + [w]) && IdsBelow(ws + [w], next + 1)
  {
    forall i | 0 <= i < |ws|
      ensures (ws + [w])[i].id < w.id
    {
      assert (ws + [w])[i] == ws[i];
    }
  }

  class PersistentWindowManager<F> {
    var windows: seq<PersistentWindow<F>>

    constructor ()
      ensures windows == []
    {
      windows := [];
    }

    /** Append a window; the windows already there keep their order. */
    method Push(window: PersistentWindow<F>)
      modifies this
      ensures windows == old(windows) + [window]
    {
      windows := windows + [window];
    }

    /** One render pass: call every window's closure once, in list order,
        each with the state the calls before it left, and keep exactly the
        windows whose closure returned true. The state the last call leaves
        is returned (the source's `&mut S`). */
    method Render<S>(call: WindowCall<F, S>, state: S) returns (state': S)
      modifies this
      ensures windows == Retained(old(windows), call, state)
      ensures state' == StateAfter(old(windows), call, state)
    {
      var kept := [];
      var i := 0;
      state' := state;
      while i < |windows|
        invariant 0 <= i <= |windows|
        invariant state' == StateAfter(windows[..i], call, state)
        invariant kept == Retained(windows[..i], call, state)
      {
        var (keep, after) := call(windows[i], state');
        if keep {
          kept := kept + [windows[i]];
        }
        state' := after;
        assert windows[..i + 1][..i] == windows[..i];
        i := i + 1;
      }
      assert windows[..i] == windows;
      windows := kept;
    }
  }

  /** Two windows made one after the other from the same counter have
      strictly increasing ids. */
  method TwoWindows<F>(f: F, g: F) returns (first: PersistentWindow<F>, second: PersistentWindow<F>)
    ensures first.id < second.id
    ensures first.callback == f && second.callback == g
  {
    var ids := new WindowIds();
    first := NewWindow(ids, f);
    second := NewWindow(ids, g);
  }

  /** The state a pass threads shows the call order: with closures that
      append their window's id to the state and keep the window, a pass
      over windows 3 then 5 leaves [3, 5], not [5, 3]. */
  method CallsInListOrder<F>(f: F, g: F) returns (log: seq<nat>)
    ensures log == [3, 5]
  {
    var first, second := PersistentWindow(3, f), PersistentWindow(5, g);
    var manager := new PersistentWindowManager<F>();
    manager.Push(first);
    manager.Push(second);
    var call: WindowCall<F, seq<nat>> := (w: PersistentWindow<F>, s: seq<nat>) => (true, s + [w.id]);
    log := manager.Render(call, []);
    ghost var ws := [first, second];
    calc {
      StateAfter(ws, call, []);
      call(second, StateAfter(ws[..1], call, [])).1;
      { assert ws[..1][..0] == []; }
      call(second, call(first, []).1).1;
    }
  }
}

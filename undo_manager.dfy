/** The coalescing linear undo engine (yup::UndoManager).

    The engine is generic in the world `W` its actions change and in the action
    type `A`. An `Item` pairs an action with the object it was performed on; the
    `Env` says whether that object is still alive (the weak reference of
    `Item<T>`) and what running the action in a direction does to the world (the
    `std::function` callback). Every entry of the timeline is a group
    (`CoallascatedItem`), kept here as the sequence of its child items. */
module Undo {
  import opened Common

  type ObjId = nat

  /** The number of groups the timeline keeps. */
  const HistorySize: nat := 30

  datatype Env<!W, !A> = Env(alive: (W, ObjId) -> bool, run: (W, ObjId, A, bool) -> (W, bool))

  /** Item<T>: a weakly referenced target and the callback to run on it. */
  datatype Item<A> = Item(target: ObjId, action: A)

  /** Item::call: the callback runs only while the target is alive. */
  function ItemCall<W, A>(env: Env<W, A>, w: W, it: Item<A>, isUndo: bool): (W, bool)
  {
    if env.alive(w, it.target) then env.run(w, it.target, it.action, isUndo) else (w, false)
  }

  /** Item::isEmpty: the target is gone. */
  predicate ItemIsEmpty<W, A>(env: Env<W, A>, w: W, it: Item<A>)
  {
    !env.alive(w, it.target)
  }

  lemma EmptyItemDoesNothing<W, A>(env: Env<W, A>, w: W, it: Item<A>, isUndo: bool)
    requires ItemIsEmpty(env, w, it)
    ensures ItemCall(env, w, it, isUndo) == (w, false)
  {
  }

  lemma LiveItemRunsCallback<W, A>(env: Env<W, A>, w: W, it: Item<A>, isUndo: bool)
    requires !ItemIsEmpty(env, w, it)
    ensures ItemCall(env, w, it, isUndo) == env.run(w, it.target, it.action, isUndo)
  {
  }

  // ---------------------------------------------------------------------------
  // Groups (CoallascatedItem)

  /** The outcome of calling a group: the new world, the children that were kept
      and, per child in the group's order, whether its call returned true. */
  datatype GroupRun<W, A> = GroupRun(world: W, kept: seq<Item<A>>, outcomes: seq<bool>)

  /** The elements of s whose mask entry is true, in order. */
  function Select<T>(s: seq<T>, mask: seq<bool>): (r: seq<T>)
    requires |mask| == |s|
    ensures |r| <= |s|
  {
    if |s| == 0 then [] else (if mask[0] then [s[0]] else []) + Select(s[1..], mask[1..])
  }

  lemma {:induction false} SelectAppend<T>(a: seq<T>, ma: seq<bool>, b: seq<T>, mb: seq<bool>)
    requires |ma| == |a| && |mb| == |b|
    ensures Select(a + b, ma + mb) == Select(a, ma) + Select(b, mb)
  {
    if |a| > 0 {
      assert (a + b)[1..] == a[1..] + b;
      assert (ma + mb)[1..] == ma[1..] + mb;
      SelectAppend(a[1..], ma[1..], b, mb);
    } else {
      assert a + b == b && ma + mb == mb;
    }
  }

  lemma {:induction false} SelectAll<T>(s: seq<T>, mask: seq<bool>)
    requires |mask| == |s|
    requires forall i :: 0 <= i < |mask| ==> mask[i]
    ensures Select(s, mask) == s
  {
    if |s| > 0 {
      SelectAll(s[1..], mask[1..]);
    }
  }

  /** A group called forward (redo): children first to last; a child whose call
      returns false is dropped. */
  function GroupForward<W, A>(env: Env<W, A>, w: W, items: seq<Item<A>>): (r: GroupRun<W, A>)
    ensures |r.outcomes| == |items|
    decreases |items|
  {
    if |items| == 0 then GroupRun(w, [], [])
    else
      var call := ItemCall(env, w, items[0], false);
      var rest := GroupForward(env, call.0, items[1..]);
      GroupRun(rest.world, (if call.1 then [items[0]] else []) + rest.kept, [call.1] + rest.outcomes)
  }

  /** A group called backward (undo): children last to first; a child whose call
      returns false is dropped. */
  function GroupBackward<W, A>(env: Env<W, A>, w: W, items: seq<Item<A>>): (r: GroupRun<W, A>)
    ensures |r.outcomes| == |items|
    decreases |items|
  {
    if |items| == 0 then GroupRun(w, [], [])
    else
      var n := |items| - 1;
      var call := ItemCall(env, w, items[n], true);
      var rest := GroupBackward(env, call.0, items[..n]);
      GroupRun(rest.world, rest.kept + (if call.1 then [items[n]] else []), rest.outcomes + [call.1])
  }

  /** Calling the group in one direction or the other. */
  function GroupCall<W, A>(env: Env<W, A>, w: W, items: seq<Item<A>>, isUndo: bool): GroupRun<W, A>
  {
    if isUndo then GroupBackward(env, w, items) else GroupForward(env, w, items)
  }

  /** One forward step: the first child runs, then the rest. */
  lemma GroupForwardStep<W, A>(env: Env<W, A>, w: W, items: seq<Item<A>>)
    requires |items| > 0
    ensures var call := ItemCall(env, w, items[0], false);
            var rest := GroupForward(env, call.0, items[1..]);
            && GroupForward(env, w, items).world == rest.world
            && GroupForward(env, w, items).kept == (if call.1 then [items[0]] else []) + rest.kept
  {
  }

  /** One backward step: the last child runs, then the others. */
  lemma GroupBackwardStep<W, A>(env: Env<W, A>, w: W, items: seq<Item<A>>)
    requires |items| > 0
    ensures var n := |items| - 1;
            var call := ItemCall(env, w, items[n], true);
            var rest := GroupBackward(env, call.0, items[..n]);
            && GroupBackward(env, w, items).world == rest.world
            && GroupBackward(env, w, items).kept == rest.kept + (if call.1 then [items[n]] else [])
  {
  }

  /** Redo runs the earlier children before the later ones. */
  lemma {:induction false} GroupForwardAppend<W, A>(env: Env<W, A>, w: W, a: seq<Item<A>>, b: seq<Item<A>>)
    ensures GroupForward(env, w, a + b).world == GroupForward(env, GroupForward(env, w, a).world, b).world
    ensures GroupForward(env, w, a + b).kept == GroupForward(env, w, a).kept + GroupForward(env, GroupForward(env, w, a).world, b).kept
    decreases |a|
  {
    if |a| == 0 {
      assert a + b == b;
    } else {
      assert (a + b)[0] == a[0];
      assert (a + b)[1..] == a[1..] + b;
      var call := ItemCall(env, w, a[0], false);
      GroupForwardStep(env, w, a + b);
      GroupForwardStep(env, w, a);
      GroupForwardAppend(env, call.0, a[1..], b);
      var head: seq<Item<A>> := if call.1 then [a[0]] else [];
      var ka := GroupForward(env, call.0, a[1..]).kept;
      var kb := GroupForward(env, GroupForward(env, w, a).world, b).kept;
      assert head + (ka + kb) == (head + ka) + kb;
    }
  }

  /** Undo runs the later children before the earlier ones. */
  lemma {:induction false} GroupBackwardAppend<W, A>(env: Env<W, A>, w: W, a: seq<Item<A>>, b: seq<Item<A>>)
    ensures GroupBackward(env, w, a + b).world == GroupBackward(env, GroupBackward(env, w, b).world, a).world
    ensures GroupBackward(env, w, a + b).kept == GroupBackward(env, GroupBackward(env, w, b).world, a).kept + GroupBackward(env, w, b).kept
    decreases |b|
  {
    if |b| == 0 {
      assert a + b == a;
    } else {
      var n := |b| - 1;
      assert (a + b)[|a + b| - 1] == b[n];
      assert (a + b)[..|a + b| - 1] == a + b[..n];
      var call := ItemCall(env, w, b[n], true);
      GroupBackwardAppend(env, call.0, a, b[..n]);
    }
  }

  /** Redo keeps exactly the children whose call returned true, in order. */
  lemma {:induction false} GroupForwardSelects<W, A>(env: Env<W, A>, w: W, items: seq<Item<A>>)
    ensures GroupForward(env, w, items).kept == Select(items, GroupForward(env, w, items).outcomes)
    decreases |items|
  {
    if |items| > 0 {
      GroupForwardSelects(env, ItemCall(env, w, items[0], false).0, items[1..]);
    }
  }

  /** Undo keeps exactly the children whose call returned true, in order. */
  lemma {:induction false} GroupBackwardSelects<W, A>(env: Env<W, A>, w: W, items: seq<Item<A>>)
    ensures GroupBackward(env, w, items).kept == Select(items, GroupBackward(env, w, items).outcomes)
    decreases |items|
  {
    if |items| > 0 {
      var n := |items| - 1;
      var call := ItemCall(env, w, items[n], true);
      var rest := GroupBackward(env, call.0, items[..n]);
      GroupBackwardSelects(env, call.0, items[..n]);
      SelectAppend(items[..n], rest.outcomes, [items[n]], [call.1]);
      assert items[..n] + [items[n]] == items;
    }
  }

  /** A group whose every child call succeeds keeps all of its children. */
  lemma GroupKeepsSucceedingChildren<W, A>(env: Env<W, A>, w: W, items: seq<Item<A>>, isUndo: bool)
    requires forall i :: 0 <= i < |items| ==> GroupCall(env, w, items, isUndo).outcomes[i]
    ensures GroupCall(env, w, items, isUndo).kept == items
  {
    var r := GroupCall(env, w, items, isUndo);
    if isUndo {
      GroupBackwardSelects(env, w, items);
    } else {
      GroupForwardSelects(env, w, items);
    }
    SelectAll(items, r.outcomes);
  }

  /** A property of the world that every callback keeps is kept by a group
      called in either direction. */
  lemma {:induction false} GroupCallPreserves<W, A>(env: Env<W, A>, w: W, items: seq<Item<A>>, isUndo: bool, inv: W -> bool)
    requires inv(w)
    requires forall v, o, a, u :: inv(v) ==> inv(env.run(v, o, a, u).0)
    ensures inv(GroupCall(env, w, items, isUndo).world)
    decreases |items|
  {
    if |items| > 0 {
      if isUndo {
        var n := |items| - 1;
        GroupCallPreserves(env, ItemCall(env, w, items[n], true).0, items[..n], true, inv);
      } else {
        GroupCallPreserves(env, ItemCall(env, w, items[0], false).0, items[1..], false, inv);
      }
    }
  }

  /** The slices the backward loop moves between when it erases or keeps
      the child at i. */
  lemma BackwardSlices<T>(items: seq<T>, done: seq<T>, i: nat)
    requires i < |items|
    ensures items[..i + 1][..i] == items[..i] && items[..i + 1][i] == items[i]
    ensures (items[..i + 1] + done)[i] == items[i]
    ensures (items[..i + 1] + done)[..i] + (items[..i + 1] + done)[i + 1..] == items[..i] + done
    ensures items[..i + 1] + done == items[..i] + ([items[i]] + done)
  {
    assert items[..i + 1] == items[..i] + [items[i]];
  }

  /** The backward loop erases the child at i, whose call failed. */
  lemma BackwardEraseStep<W, A>(env: Env<W, A>, goal: GroupRun<W, A>, w: W, items: seq<Item<A>>, done: seq<Item<A>>, i: nat)
    requires i < |items| && !ItemCall(env, w, items[i], true).1
    requires goal.world == GroupBackward(env, w, items[..i + 1]).world
    requires goal.kept == GroupBackward(env, w, items[..i + 1]).kept + done
    ensures var kept := items[..i + 1] + done;
            var w' := ItemCall(env, w, items[i], true).0;
            && kept[i] == items[i]
            && kept[..i] + kept[i + 1..] == items[..i] + done
            && goal.world == GroupBackward(env, w', items[..i]).world
            && goal.kept == GroupBackward(env, w', items[..i]).kept + done
  {
    BackwardSlices(items, done, i);
    GroupBackwardStep(env, w, items[..i + 1]);
  }

  /** The backward loop keeps the child at i, whose call succeeded. */
  lemma BackwardKeepStep<W, A>(env: Env<W, A>, goal: GroupRun<W, A>, w: W, items: seq<Item<A>>, done: seq<Item<A>>, i: nat)
    requires i < |items| && ItemCall(env, w, items[i], true).1
    requires goal.world == GroupBackward(env, w, items[..i + 1]).world
    requires goal.kept == GroupBackward(env, w, items[..i + 1]).kept + done
    ensures var w' := ItemCall(env, w, items[i], true).0;
            && (items[..i + 1] + done)[i] == items[i]
            && items[..i + 1] + done == items[..i] + ([items[i]] + done)
            && goal.world == GroupBackward(env, w', items[..i]).world
            && goal.kept == GroupBackward(env, w', items[..i]).kept + ([items[i]] + done)
  {
    BackwardSlices(items, done, i);
    GroupBackwardStep(env, w, items[..i + 1]);
    var rest := GroupBackward(env, ItemCall(env, w, items[i], true).0, items[..i]).kept;
    assert (rest + [items[i]]) + done == rest + ([items[i]] + done);
  }

  /** The undo half of CoallascatedItem::call: a backward index loop that
      removes, in place, every child whose call returns false. */
  method CallBackward<W, A>(env: Env<W, A>, w: W, items: seq<Item<A>>) returns (w': W, kept: seq<Item<A>>)
    ensures w' == GroupBackward(env, w, items).world
    ensures kept == GroupBackward(env, w, items).kept
  {
    kept := items;
    w' := w;
    var i := |kept| - 1;
    ghost var done: seq<Item<A>> := [];
    ghost var goal := GroupBackward(env, w, items);
    assert items[..i + 1] == items;
    while i >= 0
      invariant -1 <= i < |items|
      invariant kept == items[..i + 1] + done
      invariant goal.world == GroupBackward(env, w', items[..i + 1]).world
      invariant goal.kept == GroupBackward(env, w', items[..i + 1]).kept + done
    {
      var call := ItemCall(env, w', kept[i], true);
      if !call.1 {
        BackwardEraseStep(env, goal, w', items, done, i);
        kept := kept[..i] + kept[i + 1..];
      } else {
        BackwardKeepStep(env, goal, w', items, done, i);
        done := [items[i]] + done;
      }
      w' := call.0;
      i := i - 1;
    }
    assert items[..0] == [];
  }

  /** The slices the forward loop moves between when it erases or keeps the
      child at i, while kept[i..] is the unvisited part items[j..]. */
  lemma ForwardSlices<T>(kept: seq<T>, items: seq<T>, i: nat, j: nat)
    requires i < |kept| && j <= |items| && kept[i..] == items[j..]
    ensures j < |items| && kept[i] == items[j]
    ensures items[j..][0] == items[j] && items[j..][1..] == items[j + 1..]
    ensures kept[i + 1..] == items[j + 1..] && kept[..i + 1] == kept[..i] + [kept[i]]
    ensures (kept[..i] + kept[i + 1..])[i..] == items[j + 1..] && (kept[..i] + kept[i + 1..])[..i] == kept[..i]
  {
    assert kept[i..][0] == kept[i];
    assert kept[i..][1..] == kept[i + 1..];
  }

  /** The forward loop erases the child at i, whose call failed; j moves on. */
  lemma ForwardEraseStep<W, A>(env: Env<W, A>, goal: GroupRun<W, A>, w: W, items: seq<Item<A>>, kept: seq<Item<A>>, i: nat, j: nat)
    requires i < |kept| && j <= |items| && kept[i..] == items[j..]
    requires !ItemCall(env, w, kept[i], false).1
    requires goal.world == GroupForward(env, w, items[j..]).world
    requires goal.kept == kept[..i] + GroupForward(env, w, items[j..]).kept
    ensures var kept' := kept[..i] + kept[i + 1..];
            var w' := ItemCall(env, w, kept[i], false).0;
            && j < |items| && kept'[i..] == items[j + 1..]
            && goal.world == GroupForward(env, w', items[j + 1..]).world
            && goal.kept == kept'[..i] + GroupForward(env, w', items[j + 1..]).kept
  {
    ForwardSlices(kept, items, i, j);
    GroupForwardStep(env, w, items[j..]);
  }

  /** The forward loop keeps the child at i, whose call succeeded. */
  lemma ForwardKeepStep<W, A>(env: Env<W, A>, goal: GroupRun<W, A>, w: W, items: seq<Item<A>>, kept: seq<Item<A>>, i: nat, j: nat)
    requires i < |kept| && j <= |items| && kept[i..] == items[j..]
    requires ItemCall(env, w, kept[i], false).1
    requires goal.world == GroupForward(env, w, items[j..]).world
    requires goal.kept == kept[..i] + GroupForward(env, w, items[j..]).kept
    ensures var w' := ItemCall(env, w, kept[i], false).0;
            && j < |items| && kept[i + 1..] == items[j + 1..]
            && goal.world == GroupForward(env, w', items[j + 1..]).world
            && goal.kept == kept[..i + 1] + GroupForward(env, w', items[j + 1..]).kept
  {
    ForwardSlices(kept, items, i, j);
    GroupForwardStep(env, w, items[j..]);
    var rest := GroupForward(env, ItemCall(env, w, kept[i], false).0, items[j + 1..]).kept;
    assert kept[..i] + ([kept[i]] + rest) == kept[..i + 1] + rest;
  }

  /** The redo half of CoallascatedItem::call: a forward index loop that
      removes, in place, every child whose call returns false (the index stays
      put after a removal). */
  method CallForward<W, A>(env: Env<W, A>, w: W, items: seq<Item<A>>) returns (w': W, kept: seq<Item<A>>)
    ensures w' == GroupForward(env, w, items).world
    ensures kept == GroupForward(env, w, items).kept
  {
    kept := items;
    w' := w;
    var i := 0;
    ghost var j := 0;
    ghost var goal := GroupForward(env, w, items);
    while i < |kept|
      invariant 0 <= i <= |kept| && 0 <= j <= |items|
      invariant kept[i..] == items[j..]
      invariant goal.world == GroupForward(env, w', items[j..]).world
      invariant goal.kept == kept[..i] + GroupForward(env, w', items[j..]).kept
      decreases |kept| - i
    {
      var call := ItemCall(env, w', kept[i], false);
      if !call.1 {
        ForwardEraseStep(env, goal, w', items, kept, i, j);
        kept := kept[..i] + kept[i + 1..];
      } else {
        ForwardKeepStep(env, goal, w', items, kept, i, j);
        i := i + 1;
      }
      w' := call.0;
      j := j + 1;
    }
    assert kept[..i] == kept;
  }

  /** CoallascatedItem::call: run the children in the given direction, drop
      those whose call fails, and report whether any child remains. */
  method CallGroup<W, A>(env: Env<W, A>, w: W, items: seq<Item<A>>, isUndo: bool)
    returns (w': W, kept: seq<Item<A>>, nonEmpty: bool)
    ensures w' == GroupCall(env, w, items, isUndo).world
    ensures kept == GroupCall(env, w, items, isUndo).kept
    ensures nonEmpty == (|kept| > 0)
  {
    if isUndo {
      w', kept := CallBackward(env, w, items);
    } else {
      w', kept := CallForward(env, w, items);
    }
    nonEmpty := |kept| > 0;
  }

  // ---------------------------------------------------------------------------
  // The timeline

  /** The manager's recorded state: the committed groups, the group being built
      (currentlyBuiltAction) and the two cursors. */
  datatype Timeline<A> = Timeline(history: seq<seq<Item<A>>>, pending: seq<Item<A>>, nextUndo: int, nextRedo: int)

  /** Cursors are either both at their initial -1 over an empty timeline, or
      adjacent; the timeline never exceeds HistorySize. */
  predicate TimelineValid<A>(t: Timeline<A>)
  {
    && |t.history| <= HistorySize
    && -1 <= t.nextUndo
    && ((t.nextUndo == -1 && t.nextRedo == -1 && t.history == []) || t.nextRedo == t.nextUndo + 1)
  }

  predicate Adjacent<A>(t: Timeline<A>)
  {
    t.nextRedo == t.nextUndo + 1
  }

  /** The timeline after committing p: everything from the redo cursor on is
      dropped, p is appended and the oldest entries are evicted. */
  function FlushedHistory<A>(h: seq<seq<Item<A>>>, nextRedo: int, p: seq<Item<A>>): (r: seq<seq<Item<A>>>)
    ensures 0 < |r| <= HistorySize
    ensures r[|r| - 1] == p
  {
    var grown := h[..Clamp(0, |h|, nextRedo)] + [p];
    if |grown| > HistorySize then grown[|grown| - HistorySize..] else grown
  }

  /** flushCurrentAction. */
  function Flush<A>(t: Timeline<A>): (r: Timeline<A>)
    ensures t.pending == [] ==> r == t
    ensures t.pending != [] ==> r.pending == [] && r.nextUndo == |r.history| - 1 && r.nextRedo == |r.history|
  {
    if t.pending == [] then t
    else
      var h := FlushedHistory(t.history, t.nextRedo, t.pending);
      Timeline(h, [], |h| - 1, |h|)
  }

  /** Committing keeps the entries before the redo cursor (at most the newest
      HistorySize - 1 of them) and puts the pending group last. */
  lemma FlushKeepsUndoBranch<A>(t: Timeline<A>)
    requires t.pending != []
    ensures var c := Clamp(0, |t.history|, t.nextRedo);
            var h := Flush(t).history;
            (c < HistorySize ==> h == t.history[..c] + [t.pending])
            && (c >= HistorySize ==> h == t.history[c - (HistorySize - 1)..c] + [t.pending])
  {
    var c := Clamp(0, |t.history|, t.nextRedo);
    var grown := t.history[..c] + [t.pending];
    if c >= HistorySize {
      assert grown[|grown| - HistorySize..] == t.history[c - (HistorySize - 1)..c] + [t.pending];
    }
  }

  lemma FlushPreservesValid<A>(t: Timeline<A>)
    requires TimelineValid(t)
    ensures TimelineValid(Flush(t))
    ensures t.pending != [] ==> Adjacent(Flush(t))
  {
  }

  /** perform, on the timeline: a synchronous manager commits first; an action
      whose call succeeded joins the pending group unless recording is
      suspended. */
  function Record<A>(t: Timeline<A>, it: Item<A>, ok: bool, isSynchronous: bool, suspended: bool): (r: Timeline<A>)
  {
    var t1 := if isSynchronous then Flush(t) else t;
    if ok && !suspended then t1.(pending := t1.pending + [it]) else t1
  }

  lemma RecordAppendsOnlySuccesses<A>(t: Timeline<A>, it: Item<A>, ok: bool, isSynchronous: bool, suspended: bool)
    requires !isSynchronous
    ensures Record(t, it, ok, isSynchronous, suspended).history == t.history
    ensures Record(t, it, ok, isSynchronous, suspended).pending
            == (if ok && !suspended then t.pending + [it] else t.pending)
  {
  }

  /** In synchronous mode every recorded action ends up alone in its group. */
  lemma {:induction false} SynchronousRecordIsolates<A>(t: Timeline<A>, it: Item<A>)
    requires TimelineValid(t)
    ensures Record(t, it, true, true, false).pending == [it]
    ensures t.pending != [] ==> Record(t, it, true, true, false).history[|Record(t, it, true, true, false).history| - 1] == t.pending
  {
  }

  lemma RecordPreservesValid<A>(t: Timeline<A>, it: Item<A>, ok: bool, isSynchronous: bool, suspended: bool)
    requires TimelineValid(t)
    ensures TimelineValid(Record(t, it, ok, isSynchronous, suspended))
  {
  }

  /** The outcome of undo / redo on world and timeline. */
  datatype Step<W, A> = Step(world: W, timeline: Timeline<A>, ok: bool)

  /** internalUndo: commit, then call the entry under the relevant cursor in that
      direction and shift both cursors; without such an entry nothing moves. */
  function Navigate<W, A>(env: Env<W, A>, w: W, t: Timeline<A>, isUndo: bool): Step<W, A>
  {
    var t1 := Flush(t);
    var idx := if isUndo then t1.nextUndo else t1.nextRedo;
    if 0 <= idx < |t1.history| then
      var g := GroupCall(env, w, t1.history[idx], isUndo);
      var d := if isUndo then -1 else 1;
      Step(g.world, Timeline(t1.history[idx := g.kept], t1.pending, t1.nextUndo + d, t1.nextRedo + d), true)
    else
      Step(w, t1, false)
  }

  /** undo / redo succeed exactly when the committed timeline has an entry under
      the cursor; on failure the world and cursors are untouched. */
  lemma NavigateOutcome<W, A>(env: Env<W, A>, w: W, t: Timeline<A>, isUndo: bool)
    ensures var t1 := Flush(t);
            var idx := if isUndo then t1.nextUndo else t1.nextRedo;
            var s := Navigate(env, w, t, isUndo);
            && (s.ok <==> 0 <= idx < |t1.history|)
            && (!s.ok ==> s.world == w && s.timeline == t1)
            && (s.ok ==>
                  && s.world == GroupCall(env, w, t1.history[idx], isUndo).world
                  && s.timeline.nextUndo == t1.nextUndo + (if isUndo then -1 else 1)
                  && s.timeline.nextRedo == t1.nextRedo + (if isUndo then -1 else 1)
                  && |s.timeline.history| == |t1.history|)
  {
  }

  /** Once anything was committed the cursors stay adjacent through undo and redo. */
  lemma NavigatePreservesValid<W, A>(env: Env<W, A>, w: W, t: Timeline<A>, isUndo: bool)
    requires TimelineValid(t)
    ensures TimelineValid(Navigate(env, w, t, isUndo).timeline)
    ensures Adjacent(t) || t.pending != [] ==> Adjacent(Navigate(env, w, t, isUndo).timeline)
  {
  }

  /** Undo and redo keep every property of the world that each callback keeps. */
  lemma NavigatePreserves<W, A>(env: Env<W, A>, w: W, t: Timeline<A>, isUndo: bool, inv: W -> bool)
    requires inv(w)
    requires forall v, o, a, u :: inv(v) ==> inv(env.run(v, o, a, u).0)
    ensures inv(Navigate(env, w, t, isUndo).world)
  {
    var t1 := Flush(t);
    var idx := if isUndo then t1.nextUndo else t1.nextRedo;
    if 0 <= idx < |t1.history| {
      GroupCallPreserves(env, w, t1.history[idx], isUndo, inv);
    }
  }

  /** A fresh manager has nothing to undo or redo. */
  lemma InitialTimelineIsInert<W, A>(env: Env<W, A>, w: W, isUndo: bool)
    ensures Navigate(env, w, Timeline([], [], -1, -1), isUndo) == Step(w, Timeline([], [], -1, -1), false)
  {
  }

  /** A successful undo leaves the redo cursor on the entry it just undid. */
  lemma UndoThenRedoTargetsSameEntry<W, A>(env: Env<W, A>, w: W, t: Timeline<A>)
    requires TimelineValid(t)
    requires Navigate(env, w, t, true).ok
    ensures var s := Navigate(env, w, t, true);
            Flush(s.timeline) == s.timeline && s.timeline.nextRedo == Flush(t).nextUndo
  {
  }

  // ---------------------------------------------------------------------------
  // setEnabled, as written and as intended

  /** setEnabled as written, on the pending-group pointer (None is nullptr):
      disabling resets it to nullptr. */
  function PendingAfterSetEnabledAsWritten<A>(timerRunning: bool, pending: Option<seq<Item<A>>>, shouldBeEnabled: bool)
    : (r: Option<seq<Item<A>>>)
    ensures timerRunning == shouldBeEnabled ==> r == pending
  {
    if timerRunning != shouldBeEnabled then (if shouldBeEnabled then Some([]) else None) else pending
  }

  /** flushCurrentAction as written reads the pending group through its pointer
      before anything else, so it needs one to exist. */
  predicate FlushAsWrittenIsDefined<A>(pending: Option<seq<Item<A>>>)
  {
    pending.Some?
  }

  /** An enabled manager that is disabled keeps no pending group, so the next
      perform, undo, redo or timer flush reads through a null pointer. */
  lemma DisablingLeavesNoPendingGroup<A>(p: seq<Item<A>>)
    ensures PendingAfterSetEnabledAsWritten(true, Some(p), false) == None
    ensures !FlushAsWrittenIsDefined(PendingAfterSetEnabledAsWritten(true, Some(p), false))
  {
  }

  // ---------------------------------------------------------------------------
  // The manager object

  class UndoManager<W, A> {
    const env: Env<W, A>
    var history: seq<seq<Item<A>>>
    var pending: seq<Item<A>>
    var nextUndoAction: int
    var nextRedoAction: int
    var isSynchronous: bool
    var suspended: bool
    var timerRunning: bool

    function Snapshot(): Timeline<A>
      reads this
    {
      Timeline(history, pending, nextUndoAction, nextRedoAction)
    }

    ghost predicate Valid()
      reads this
    {
      TimelineValid(Snapshot())
    }

    /** UndoManager(startTimer): an empty timeline, both cursors at -1 and an
        empty pending group; the flush timer runs iff startTimer. */
    constructor (env: Env<W, A>, startTimer: bool)
      ensures Valid() && this.env == env
      ensures Snapshot() == Timeline([], [], -1, -1)
      ensures timerRunning == startTimer && !isSynchronous && !suspended
    {
      this.env := env;
      history := [];
      pending := [];
      nextUndoAction := -1;
      nextRedoAction := -1;
      isSynchronous := false;
      suspended := false;
      timerRunning := startTimer;
    }

    /** flushCurrentAction (also what each timer tick does). */
    method FlushCurrentAction() returns (flushed: bool)
      requires Valid()
      modifies this`history, this`pending, this`nextUndoAction, this`nextRedoAction
      ensures Valid()
      ensures flushed == (old(pending) != [])
      ensures Snapshot() == Flush(old(Snapshot()))
    {
      if pending == [] {
        return false;
      }
      if nextRedoAction < |history| {
        history := history[..Clamp(0, |history|, nextRedoAction)];
      }
      history := history + [pending];
      pending := [];
      var numToRemove := Max(0, |history| - HistorySize);
      if numToRemove > 0 {
        history := history[numToRemove..];
      }
      nextUndoAction := |history| - 1;
      nextRedoAction := |history|;
      flushed := true;
    }

    /** perform(ActionBase::Ptr): commit first in synchronous mode, call the
        action forward, record it if it succeeded and recording is not
        suspended; the result is the action's. */
    method Perform(w: W, it: Item<A>) returns (w': W, ok: bool)
      requires Valid()
      modifies this`history, this`pending, this`nextUndoAction, this`nextRedoAction
      ensures Valid()
      ensures (w', ok) == ItemCall(env, w, it, false)
      ensures Snapshot() == Record(old(Snapshot()), it, ok, isSynchronous, suspended)
    {
      if isSynchronous {
        var _ := FlushCurrentAction();
      }
      var call := ItemCall(env, w, it, false);
      w', ok := call.0, call.1;
      if ok {
        if !suspended {
          pending := pending + [it];
        }
      }
    }

    /** The template perform(obj, f): wrap the target and the callback in an
        Item and forward. */
    method PerformOn(w: W, obj: ObjId, action: A) returns (w': W, ok: bool)
      requires Valid()
      modifies this`history, this`pending, this`nextUndoAction, this`nextRedoAction
      ensures Valid()
      ensures (w', ok) == ItemCall(env, w, Item(obj, action), false)
      ensures Snapshot() == Record(old(Snapshot()), Item(obj, action), ok, isSynchronous, suspended)
    {
      w', ok := Perform(w, Item(obj, action));
    }

    /** internalUndo. */
    method InternalUndo(w: W, isUndo: bool) returns (w': W, ok: bool)
      requires Valid()
      modifies this`history, this`pending, this`nextUndoAction, this`nextRedoAction
      ensures Valid()
      ensures Step(w', Snapshot(), ok) == Navigate(env, w, old(Snapshot()), isUndo)
    {
      ghost var t := Snapshot();
      var _ := FlushCurrentAction();
      var idx := if isUndo then nextUndoAction else nextRedoAction;
      if 0 <= idx < |history| {
        var kept, nonEmpty;
        w', kept, nonEmpty := CallGroup(env, w, history[idx], isUndo);
        history := history[idx := kept];
        var delta := if isUndo then -1 else 1;
        nextUndoAction := nextUndoAction + delta;
        nextRedoAction := nextRedoAction + delta;
        ok := true;
      } else {
        w', ok := w, false;
      }
      NavigatePreservesValid(env, w, t, isUndo);
    }

    method Undo(w: W) returns (w': W, ok: bool)
      requires Valid()
      modifies this`history, this`pending, this`nextUndoAction, this`nextRedoAction
      ensures Valid()
      ensures Step(w', Snapshot(), ok) == Navigate(env, w, old(Snapshot()), true)
    {
      w', ok := InternalUndo(w, true);
    }

    method Redo(w: W) returns (w': W, ok: bool)
      requires Valid()
      modifies this`history, this`pending, this`nextUndoAction, this`nextRedoAction
      ensures Valid()
      ensures Step(w', Snapshot(), ok) == Navigate(env, w, old(Snapshot()), false)
    {
      w', ok := InternalUndo(w, false);
    }

    /** setSynchronousMode, whose body is not part of this model: it sets the
        flag perform consults. */
    method SetSynchronousMode(shouldBeSynchronous: bool)
      modifies this`isSynchronous
      ensures isSynchronous == shouldBeSynchronous
    {
      isSynchronous := shouldBeSynchronous;
    }

    /** The flag a scoped suspension sets for its lifetime and then restores. */
    method SetSuspended(shouldBeSuspended: bool)
      modifies this`suspended
      ensures suspended == shouldBeSuspended
    {
      suspended := shouldBeSuspended;
    }

    /** setEnabled, with the pending group reset to an empty one when disabling
        (the source resets it to nullptr). Acts only on a change of state;
        disabling clears the whole timeline but leaves the cursors. */
    method SetEnabled(shouldBeEnabled: bool)
      requires Valid()
      modifies this`history, this`pending, this`timerRunning
      ensures Valid()
      ensures timerRunning == shouldBeEnabled
      ensures old(timerRunning) == shouldBeEnabled ==> Snapshot() == old(Snapshot())
      ensures old(timerRunning) != shouldBeEnabled ==>
                pending == [] && history == (if shouldBeEnabled then old(history) else [])
    {
      if timerRunning != shouldBeEnabled {
        timerRunning := shouldBeEnabled;
        pending := [];
        if !shouldBeEnabled {
          history := [];
        }
      }
    }
  }
}

/** Listener notification of the property tree: sendPropertyChangeMessage
    (with its pruning of dangling lambda listeners and its walk up the parent
    chain) and sendChildChangeMessage. A callback is recorded as an Event
    appended to the world's log. */
module TreeDispatch {
  import opened Common
  import opened TreeModel

  // ---------------------------------------------------------------------------
  // Pruning dangling lambda listeners

  /** The pruning loop of sendPropertyChangeMessage as a function: every
      dangling lambda listener leaves the owned list, and its first occurrence
      leaves the property listener list. */
  function Prune(w: World, lambdas: seq<Listener>, props: seq<Listener>): (r: (seq<Listener>, seq<Listener>))
    ensures |r.0| <= |lambdas| && |r.1| <= |props|
    decreases |lambdas|
  {
    if |lambdas| == 0 then ([], props)
    else if IsDangling(w, lambdas[0]) then Prune(w, lambdas[1..], RemoveFirst(props, lambdas[0]))
    else
      var rest := Prune(w, lambdas[1..], props);
      ([lambdas[0]] + rest.0, rest.1)
  }

  /** Pruning keeps exactly the owned listeners that are not dangling, drops
      nothing else from the property list, and adds nothing to either. */
  lemma {:induction false} PruneKeeps(w: World, lambdas: seq<Listener>, props: seq<Listener>)
    ensures var r := Prune(w, lambdas, props);
            && (forall i :: 0 <= i < |r.0| ==> r.0[i] in lambdas && !IsDangling(w, r.0[i]))
            && (forall i :: 0 <= i < |lambdas| && !IsDangling(w, lambdas[i]) ==> lambdas[i] in r.0)
            && (forall i :: 0 <= i < |r.1| ==> r.1[i] in props)
            && (forall i :: 0 <= i < |props| && !IsDangling(w, props[i]) ==> props[i] in r.1)
    decreases |lambdas|
  {
    if |lambdas| == 0 {
    } else if IsDangling(w, lambdas[0]) {
      var ps := RemoveFirst(props, lambdas[0]);
      PruneKeeps(w, lambdas[1..], ps);
      var r := Prune(w, lambdas[1..], ps);
      forall i | 0 <= i < |props| && !IsDangling(w, props[i])
        ensures props[i] in r.1
      {
        assert props[i] in ps;
        var j :| 0 <= j < |ps| && ps[j] == props[i];
      }
      forall i | 0 <= i < |r.1|
        ensures r.1[i] in props
      {
        assert r.1[i] in ps;
        var j :| 0 <= j < |ps| && ps[j] == r.1[i];
      }
    } else {
      PruneKeeps(w, lambdas[1..], props);
    }
  }

  /** Pruning a node's listeners. */
  function PruneListeners(w: World, ls: Listeners): Listeners
  {
    var p := Prune(w, ls.lambdas, ls.props);
    Listeners(p.0, p.1, ls.childs)
  }

  lemma {:induction false} PruneNothingDangling(w: World, lambdas: seq<Listener>, props: seq<Listener>)
    requires forall i :: 0 <= i < |lambdas| ==> !IsDangling(w, lambdas[i])
    ensures Prune(w, lambdas, props) == (lambdas, props)
    decreases |lambdas|
  {
    if |lambdas| > 0 {
      PruneNothingDangling(w, lambdas[1..], props);
      assert [lambdas[0]] + lambdas[1..] == lambdas;
    }
  }

  /** Pruning twice prunes nothing more. */
  lemma PruneIdempotent(w: World, ls: Listeners)
    ensures PruneListeners(w, PruneListeners(w, ls)) == PruneListeners(w, ls)
  {
    var p := Prune(w, ls.lambdas, ls.props);
    PruneKeeps(w, ls.lambdas, ls.props);
    PruneNothingDangling(w, p.0, p.1);
  }

  lemma {:induction false} RemoveFirstNoDup<T>(s: seq<T>, x: T)
    requires NoDup(s)
    ensures NoDup(RemoveFirst(s, x)) && x !in RemoveFirst(s, x)
  {
    if x in s {
      var k := IndexOf(s, x);
      var r := s[..k] + s[k + 1..];
      assert RemoveFirst(s, x) == r;
      assert |r| == |s| - 1;
      forall i | 0 <= i < |r|
        ensures r[i] == s[if i < k then i else i + 1]
      {
        if i < k {
          assert r[i] == s[..k][i];
        } else {
          assert r[i] == s[k + 1..][i - k];
        }
      }
      forall i, j | 0 <= i < j < |r|
        ensures r[i] != r[j]
      {
        var i' := if i < k then i else i + 1;
        var j' := if j < k then j else j + 1;
        assert r[i] == s[i'] && r[j] == s[j'] && i' < j' < |s|;
      }
      forall i | 0 <= i < |r|
        ensures r[i] != x
      {
        var i' := if i < k then i else i + 1;
        assert r[i] == s[i'] && i' != k && s[k] == x;
      }
    }
  }

  /** A node's listeners are well formed when no property listener is listed
      twice (ListenerList::add adds only absent ones) and every property
      listener that can dangle is one of the node's owned lambda listeners
      (addLambdaPropertyListenerT puts it in both lists). */
  predicate ListenersValid(ls: Listeners)
  {
    && NoDup(ls.props)
    && forall i :: 0 <= i < |ls.props| && ls.props[i].weakTarget.Some? ==> ls.props[i] in ls.lambdas
  }

  /** On well-formed listeners, pruning keeps exactly the property listeners
      that are not dangling. */
  lemma {:induction false} PruneKeepsLive(w: World, lambdas: seq<Listener>, props: seq<Listener>, l: Listener)
    requires NoDup(props)
    requires forall i :: 0 <= i < |props| && IsDangling(w, props[i]) ==> props[i] in lambdas
    ensures l in Prune(w, lambdas, props).1 <==> l in props && !IsDangling(w, l)
    decreases |lambdas|
  {
    var r := Prune(w, lambdas, props);
    if |lambdas| == 0 {
    } else if IsDangling(w, lambdas[0]) {
      var ps := RemoveFirst(props, lambdas[0]);
      RemoveFirstNoDup(props, lambdas[0]);
      forall i | 0 <= i < |ps| && IsDangling(w, ps[i])
        ensures ps[i] in lambdas[1..]
      {
        assert ps[i] in props && ps[i] != lambdas[0];
        var j :| 0 <= j < |props| && props[j] == ps[i];
        assert props[j] in lambdas;
      }
      PruneKeepsLive(w, lambdas[1..], ps, l);
      if l in props && !IsDangling(w, l) {
        var i :| 0 <= i < |props| && props[i] == l;
        assert l in ps;
      }
      if l in ps {
        var i :| 0 <= i < |ps| && ps[i] == l;
        assert l in props;
      }
    } else {
      forall i | 0 <= i < |props| && IsDangling(w, props[i])
        ensures props[i] in lambdas[1..]
      {
        assert props[i] in lambdas && props[i] != lambdas[0];
      }
      PruneKeepsLive(w, lambdas[1..], props, l);
    }
  }

  /** One step of the pruning, component by component. */
  lemma PruneStep(w: World, lambdas: seq<Listener>, props: seq<Listener>)
    requires |lambdas| > 0
    ensures IsDangling(w, lambdas[0]) ==>
              Prune(w, lambdas, props) == Prune(w, lambdas[1..], RemoveFirst(props, lambdas[0]))
    ensures !IsDangling(w, lambdas[0]) ==>
              && Prune(w, lambdas, props).0 == [lambdas[0]] + Prune(w, lambdas[1..], props).0
              && Prune(w, lambdas, props).1 == Prune(w, lambdas[1..], props).1
  {
  }

  /** The loop erases a dangling lambda listener at i and removes it from the
      property listeners; the rest of the pruning is unchanged. */
  lemma PruneEraseStep(w: World, goal: (seq<Listener>, seq<Listener>), cur: seq<Listener>, props: seq<Listener>, i: nat)
    requires i < |cur| && IsDangling(w, cur[i])
    requires goal.0 == cur[..i] + Prune(w, cur[i..], props).0 && goal.1 == Prune(w, cur[i..], props).1
    ensures var cur' := cur[..i] + cur[i + 1..];
            var props' := RemoveFirst(props, cur[i]);
            goal.0 == cur'[..i] + Prune(w, cur'[i..], props').0 && goal.1 == Prune(w, cur'[i..], props').1
  {
    EraseSlices(cur, i);
    PruneStep(w, cur[i..], props);
  }

  /** The loop steps past a live lambda listener at i. */
  lemma PruneKeepStep(w: World, goal: (seq<Listener>, seq<Listener>), cur: seq<Listener>, props: seq<Listener>, i: nat)
    requires i < |cur| && !IsDangling(w, cur[i])
    requires goal.0 == cur[..i] + Prune(w, cur[i..], props).0 && goal.1 == Prune(w, cur[i..], props).1
    ensures goal.0 == cur[..i + 1] + Prune(w, cur[i + 1..], props).0 && goal.1 == Prune(w, cur[i + 1..], props).1
  {
    EraseSlices(cur, i);
    PruneStep(w, cur[i..], props);
    var rest := Prune(w, cur[i + 1..], props).0;
    assert cur[..i] + ([cur[i]] + rest) == cur[..i + 1] + rest;
  }

  /** The same loop as the source runs it: an index over the owned list that
      steps back after each removal. */
  method PruneDangling(w: World, lambdas: seq<Listener>, props: seq<Listener>)
    returns (lambdas': seq<Listener>, props': seq<Listener>)
    ensures (lambdas', props') == Prune(w, lambdas, props)
  {
    lambdas', props' := lambdas, props;
    var i := 0;
    ghost var goal := Prune(w, lambdas, props);
    assert lambdas'[..i] == [] && lambdas'[i..] == lambdas;
    assert [] + goal.0 == goal.0;
    while i < |lambdas'|
      invariant 0 <= i <= |lambdas'|
      invariant goal.0 == lambdas'[..i] + Prune(w, lambdas'[i..], props').0
      invariant goal.1 == Prune(w, lambdas'[i..], props').1
      decreases |lambdas'| - i
    {
      if IsDangling(w, lambdas'[i]) {
        PruneEraseStep(w, goal, lambdas', props', i);
        var pl := lambdas'[i];
        lambdas' := lambdas'[..i] + lambdas'[i + 1..];
        i := i - 1;
        props' := RemoveFirst(props', pl);
      } else {
        PruneKeepStep(w, goal, lambdas', props', i);
      }
      i := i + 1;
    }
    assert lambdas'[..i] == lambdas' && lambdas'[i..] == [];
    assert lambdas' + [] == lambdas';
  }

  // ---------------------------------------------------------------------------
  // Property change messages

  /** The firing rule of sendPropertyChangeMessage at node n for a change of
      key that originated at origin: a recursive listener, or one on the
      originating node, whose filter matches. */
  predicate ShouldFire(l: Listener, n: NodeId, origin: NodeId, key: Key)
  {
    (l.recursive || origin == n) && l.Matches(key)
  }

  /** The callbacks made at node n, in list order. Each listener is called with
      n itself (not the originating node) as the changed tree. */
  function FireAt(n: NodeId, origin: NodeId, key: Key, props: seq<Listener>): (r: seq<Event>)
    ensures |r| <= |props|
  {
    if |props| == 0 then []
    else (if ShouldFire(props[0], n, origin, key) then [PropertyFired(props[0], n, key)] else []) + FireAt(n, origin, key, props[1..])
  }

  /** A listener is called at n exactly when it is in the list and the rule
      admits it; nothing else is called. */
  lemma {:induction false} FireAtExactly(n: NodeId, origin: NodeId, key: Key, props: seq<Listener>, e: Event)
    ensures e in FireAt(n, origin, key, props) <==>
              e.PropertyFired? && e.tree == n && e.key == key && e.listener in props && ShouldFire(e.listener, n, origin, key)
  {
    if |props| > 0 {
      FireAtExactly(n, origin, key, props[1..], e);
      assert props == [props[0]] + props[1..];
    }
  }

  /** The work at one node: prune its lambda listeners, then call the property
      listeners the rule admits. A node without listeners is left alone. */
  function DispatchAt(w: World, n: NodeId, origin: NodeId, key: Key): (r: World)
    ensures r.nodes == w.nodes && r.handles == w.handles && r.objects == w.objects
    ensures r.registry.Keys == w.registry.Keys
    ensures n !in w.registry ==> r == w
    ensures n in w.registry ==> r.registry == w.registry[n := PruneListeners(w, w.registry[n])]
    ensures n in w.registry ==> r.events == w.events + FireAt(n, origin, key, PruneListeners(w, w.registry[n]).props)
  {
    if n in w.registry then
      var ls := PruneListeners(w, w.registry[n]);
      w.(registry := w.registry[n := ls], events := w.events + FireAt(n, origin, key, ls.props))
    else w
  }

  /** The nodes the message visits: n, then its ancestors, at most fuel of
      them. */
  function Chain(w: World, n: NodeId, fuel: nat): (r: seq<NodeId>)
    ensures |r| > 0 && r[0] == n
    decreases fuel
  {
    var p := GetParent(w, Some(n));
    [n] + (if p.Some? && fuel > 0 then Chain(w, p.value, fuel - 1) else [])
  }

  /** sendPropertyChangeMessage(v, key) on node n: dispatch at n, then at the
      parent, up to the root. The fuel bounds the walk; the arena does not rule
      out a cycle of parent links. */
  function SendPropertyChange(w: World, n: NodeId, origin: NodeId, key: Key, fuel: nat): (r: World)
    ensures r.nodes == w.nodes && r.handles == w.handles && r.objects == w.objects
    ensures r.registry.Keys == w.registry.Keys
    ensures |w.events| <= |r.events| && r.events[..|w.events|] == w.events
    decreases fuel
  {
    var w1 := DispatchAt(w, n, origin, key);
    var p := GetParent(w, Some(n));
    if p.Some? && fuel > 0 then SendPropertyChange(w1, p.value, origin, key, fuel - 1) else w1
  }

  /** The listener lists along the way are the original ones or their pruned
      form. */
  ghost predicate Narrows(w0: World, w: World)
  {
    && w.nodes == w0.nodes && w.handles == w0.handles && w.objects == w0.objects
    && w.registry.Keys == w0.registry.Keys
    && forall m :: m in w.registry ==> w.registry[m] == w0.registry[m] || w.registry[m] == PruneListeners(w0, w0.registry[m])
  }

  /** Whichever of the two a node holds, dispatching there uses the pruned form. */
  lemma DispatchAtNarrows(w0: World, w: World, n: NodeId, origin: NodeId, key: Key)
    requires Narrows(w0, w)
    ensures Narrows(w0, DispatchAt(w, n, origin, key))
    ensures n in w.registry ==> PruneListeners(w, w.registry[n]) == PruneListeners(w0, w0.registry[n])
  {
    if n in w.registry {
      PruneIdempotent(w0, w0.registry[n]);
      PruneSeesOnlyLiveness(w, w0, w.registry[n].lambdas, w.registry[n].props);
    }
  }

  lemma {:induction false} PruneSeesOnlyLiveness(w: World, w': World, lambdas: seq<Listener>, props: seq<Listener>)
    requires w.handles == w'.handles && w.objects == w'.objects
    ensures Prune(w, lambdas, props) == Prune(w', lambdas, props)
    decreases |lambdas|
  {
    if |lambdas| > 0 {
      PruneSeesOnlyLiveness(w, w', lambdas[1..], RemoveFirst(props, lambdas[0]));
      PruneSeesOnlyLiveness(w, w', lambdas[1..], props);
    }
  }

  /** e is a call the rule makes at one of the nodes of chain, from that
      node's pruned property listeners. */
  ghost predicate FiredBy(w0: World, chain: seq<NodeId>, origin: NodeId, key: Key, e: Event)
  {
    && e.PropertyFired? && e.key == key && e.tree in chain
    && e.tree in w0.registry && e.listener in PruneListeners(w0, w0.registry[e.tree]).props
    && ShouldFire(e.listener, e.tree, origin, key)
  }

  lemma FiredByAppend(w0: World, a: seq<NodeId>, b: seq<NodeId>, origin: NodeId, key: Key, e: Event)
    ensures FiredBy(w0, a + b, origin, key, e) <==> FiredBy(w0, a, origin, key, e) || FiredBy(w0, b, origin, key, e)
  {
  }

  /** The events added at one node are the calls FiredBy names there. */
  lemma DispatchAtFires(w0: World, w: World, n: NodeId, origin: NodeId, key: Key, e: Event)
    requires Narrows(w0, w)
    ensures var w1 := DispatchAt(w, n, origin, key);
            && Narrows(w0, w1) && |w.events| <= |w1.events| && w1.events[..|w.events|] == w.events
            && (e in w1.events[|w.events|..] <==> FiredBy(w0, [n], origin, key, e))
  {
    DispatchAtNarrows(w0, w, n, origin, key);
    var w1 := DispatchAt(w, n, origin, key);
    if n in w.registry {
      var here := FireAt(n, origin, key, PruneListeners(w0, w0.registry[n]).props);
      assert w1.events[|w.events|..] == here;
      FireAtExactly(n, origin, key, PruneListeners(w0, w0.registry[n]).props, e);
    } else {
      assert w1.events[|w.events|..] == [];
    }
  }

  /** The events after a, split at the end of b. */
  lemma SuffixSplit<T>(a: seq<T>, b: seq<T>, c: seq<T>)
    requires |a| <= |b| <= |c| && b[..|a|] == a && c[..|b|] == b
    ensures c[|a|..] == b[|a|..] + c[|b|..]
  {
  }

  lemma {:induction false} SendPropertyChangeNarrowed(w0: World, w: World, n: NodeId, origin: NodeId, key: Key, fuel: nat, e: Event)
    requires Narrows(w0, w)
    ensures var r := SendPropertyChange(w, n, origin, key, fuel);
            e in r.events[|w.events|..] <==> FiredBy(w0, Chain(w0, n, fuel), origin, key, e)
    decreases fuel
  {
    var w1 := DispatchAt(w, n, origin, key);
    DispatchAtFires(w0, w, n, origin, key, e);
    var p := GetParent(w, Some(n));
    assert p == GetParent(w0, Some(n));
    if p.Some? && fuel > 0 {
      var c := Chain(w0, p.value, fuel - 1);
      SendPropertyChangeNarrowed(w0, w1, p.value, origin, key, fuel - 1, e);
      var r := SendPropertyChange(w1, p.value, origin, key, fuel - 1);
      SuffixSplit(w.events, w1.events, r.events);
      assert Chain(w0, n, fuel) == [n] + c;
      FiredByAppend(w0, [n], c, origin, key, e);
    } else {
      assert Chain(w0, n, fuel) == [n];
    }
  }

  /** sendPropertyChangeMessage calls exactly the listeners, on the written
      node and its ancestors, that survive pruning and that the rule admits;
      each call names the node whose list it came from. */
  lemma SendPropertyChangeFires(w: World, n: NodeId, key: Key, fuel: nat, e: Event)
    ensures var r := SendPropertyChange(w, n, n, key, fuel);
            e in r.events[|w.events|..] <==>
              && e.PropertyFired? && e.key == key && e.tree in Chain(w, n, fuel)
              && e.tree in w.registry && e.listener in PruneListeners(w, w.registry[e.tree]).props
              && ShouldFire(e.listener, e.tree, n, key)
  {
    SendPropertyChangeNarrowed(w, w, n, n, key, fuel, e);
  }

  /** On well-formed listeners the pruned list is the live part of the
      original one: a dangling lambda listener is never called. */
  lemma PrunedListIsLiveListeners(w: World, ls: Listeners, l: Listener)
    requires ListenersValid(ls)
    ensures l in PruneListeners(w, ls).props <==> l in ls.props && !IsDangling(w, l)
  {
    PruneKeepsLive(w, ls.lambdas, ls.props, l);
  }

  // ---------------------------------------------------------------------------
  // Child change messages

  function ChildEvents(n: NodeId, child: NodeId, wasAdded: bool, childs: seq<Listener>): (r: seq<Event>)
    ensures |r| == |childs|
    ensures forall i :: 0 <= i < |r| ==> r[i] == ChildFired(childs[i], n, child, wasAdded)
  {
    if |childs| == 0 then [] else [ChildFired(childs[0], n, child, wasAdded)] + ChildEvents(n, child, wasAdded, childs[1..])
  }

  /** sendChildChangeMessage(child, wasAdded) on node n: every child listener
      of n, in order, with no type or filter check and no walk to the
      ancestors. */
  function SendChildChange(w: World, n: NodeId, child: NodeId, wasAdded: bool): (r: World)
    ensures r.nodes == w.nodes && r.registry == w.registry && r.handles == w.handles && r.objects == w.objects
    ensures |w.events| <= |r.events| && r.events[..|w.events|] == w.events
  {
    if n in w.registry then w.(events := w.events + ChildEvents(n, child, wasAdded, w.registry[n].childs)) else w
  }

  /** A child change calls exactly the child listeners of the parent itself. */
  lemma SendChildChangeFires(w: World, n: NodeId, child: NodeId, wasAdded: bool, e: Event)
    ensures var r := SendChildChange(w, n, child, wasAdded);
            e in r.events[|w.events|..] <==>
              && e == ChildFired(e.listener, n, child, wasAdded)
              && n in w.registry && e.listener in w.registry[n].childs
  {
    var r := SendChildChange(w, n, child, wasAdded);
    if n in w.registry {
      var cs := w.registry[n].childs;
      assert r.events[|w.events|..] == ChildEvents(n, child, wasAdded, cs);
      if e.ChildFired? && e == ChildFired(e.listener, n, child, wasAdded) && e.listener in cs {
        var i :| 0 <= i < |cs| && cs[i] == e.listener;
        assert ChildEvents(n, child, wasAdded, cs)[i] == e;
      }
    }
  }
}

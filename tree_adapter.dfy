/** ValueTreeAdapter: the juce::ValueTree-shaped wrapper around a handle. It
    keeps its own list of adapter listeners (each one both a property and a
    child listener), decides per call whether the caller's wish for undo fits
    the node's binding, and compares adapters by node identity. */
module TreeAdapter {
  import opened Common
  import opened TreeModel
  import opened TreeActions
  import opened TreeForest

  /** ValueTreeAdapter::Listener: one object with a property-listener base and
      a child-listener base, each with its own attachment count; both notify
      at child events and the property part has no key filter. */
  class AdapterListener {
    const asProperty: Listener
    const asChild: Listener

    constructor ()
      ensures fresh(asProperty) && fresh(asChild)
      ensures asProperty.recursive && asProperty.ids == [] && asProperty.weakTarget.None?
      ensures asChild.recursive && asChild.weakTarget.None?
      ensures asProperty.numAttachments == 0 && asChild.numAttachments == 0
    {
      asProperty := new Listener(true, [], None);
      asChild := new Listener(true, [], None);
    }
  }

  /** How performWithUndo treats a call, from the caller's wish for undo and
      whether the node has a manager. */
  datatype UndoDecision =
    | RunDirect       // the wish matches the binding: run the mutation
    | Misuse          // undo wanted but the node has no manager: jassertfalse
    | RunDeactivated  // the node has a manager the caller does not want

  function Decide(wantsUndo: bool, bound: bool): (r: UndoDecision)
    ensures r == RunDirect <==> wantsUndo == bound
    ensures r == Misuse <==> wantsUndo && !bound
    ensures r == RunDeactivated <==> !wantsUndo && bound
  {
    if wantsUndo == bound then RunDirect
    else if !bound && wantsUndo then Misuse
    else RunDeactivated
  }

  /** operator== and isEquivalentTo: both adapters' handles hold the same data
      pointer (two empty handles are equal). */
  predicate SameNode(w: World, a: ObjId, b: ObjId)
  {
    HandleOf(w, a) == HandleOf(w, b)
  }

  /** Equality is identity, not equal contents: a property write through one
      handle is seen through every equal handle and leaves the node of every
      unequal handle as it was, even when that node had the same contents;
      and the write does not change which handles are equal. */
  lemma SameNodeSeesWrites(w: World, a: ObjId, b: ObjId, key: Key, v: Value)
    requires Closed(w) && a in w.handles
    ensures var n := w.handles[a];
            var w1 := TreeRun(w, a, SetProp(key, Lookup(w.nodes[n].properties, key), v), false).0;
            && SameNode(w1, a, b) == SameNode(w, a, b)
            && (SameNode(w, a, b) ==> b in w1.handles && Lookup(w1.nodes[w1.handles[b]].properties, key) == v)
            && (b in w.handles && !SameNode(w, a, b) ==> w1.nodes[w1.handles[b]] == w.nodes[w.handles[b]])
  {
    SetPropEffect(w, a, key, v);
  }

  class ValueTreeAdapter {
    const forest: Forest
    /** The wrapped handle object. */
    const data: ObjId
    var listeners: seq<AdapterListener>

    /** ValueTreeAdapter(data): no listeners yet. */
    constructor (forest: Forest, data: ObjId)
      ensures this.forest == forest && this.data == data && listeners == []
    {
      this.forest := forest;
      this.data := data;
      listeners := [];
    }

    /** The adapter's own list never holds a listener twice. */
    ghost predicate Valid()
      reads this, forest, forest.um
    {
      forest.Valid() && NoDup(listeners)
    }

    /** isValid: the handle is not empty. */
    predicate IsValid()
      reads this, forest
    {
      data in forest.world.handles && forest.world.handles[data] in forest.world.nodes
    }

    /** addListener: only a listener not yet in the adapter's list is added,
        and then it is registered on the node as a property listener and as a
        child listener; adding it again changes nothing. */
    method AddListener(l: AdapterListener)
      requires Valid() && IsValid()
      requires l.asProperty != l.asChild && l.asProperty.numAttachments >= 0 && l.asChild.numAttachments >= 0
      modifies this`listeners, forest`world, l.asProperty, l.asChild
      ensures Valid()
      ensures l in old(listeners) ==>
                && listeners == old(listeners) && forest.world == old(forest.world)
                && l.asProperty.numAttachments == old(l.asProperty.numAttachments)
                && l.asChild.numAttachments == old(l.asChild.numAttachments)
      ensures l !in old(listeners) ==>
                var n := old(forest.world.handles[data]);
                var ls := ListenersOf(old(forest.world), n);
                && listeners == old(listeners) + [l]
                && forest.world == old(forest.world).(registry := old(forest.world.registry)[n :=
                     ls.(props := AddIfAbsent(ls.props, l.asProperty), childs := AddIfAbsent(ls.childs, l.asChild))])
                && l.asProperty.numAttachments == old(l.asProperty.numAttachments) + 1
                && l.asChild.numAttachments == old(l.asChild.numAttachments) + 1
    {
      if l !in listeners {
        listeners := listeners + [l];
        Register(l);
      }
    }

    /** The node-side half of addListener: the property part and then the
        child part are registered on the node. */
    method Register(l: AdapterListener)
      requires forest.Valid() && data in forest.world.handles
      requires l.asProperty != l.asChild && l.asProperty.numAttachments >= 0 && l.asChild.numAttachments >= 0
      modifies forest`world, l.asProperty, l.asChild
      ensures forest.Valid()
      ensures var n := old(forest.world.handles[data]);
              var ls := ListenersOf(old(forest.world), n);
              && forest.world == old(forest.world).(registry := old(forest.world.registry)[n :=
                   ls.(props := AddIfAbsent(ls.props, l.asProperty), childs := AddIfAbsent(ls.childs, l.asChild))])
              && l.asProperty.numAttachments == old(l.asProperty.numAttachments) + 1
              && l.asChild.numAttachments == old(l.asChild.numAttachments) + 1
    {
      var n := forest.world.handles[data];
      var ls := ListenersOf(forest.world, n);
      forest.AddPropertyListener(data, l.asProperty);
      assert ListenersOf(forest.world, n) == ls.(props := AddIfAbsent(ls.props, l.asProperty));
      forest.AddChildListener(data, l.asChild);
    }

    /** removeListener: every instance leaves the adapter's list, and the node
        registrations are dropped only when exactly one was removed, which on
        a list without repetitions is exactly when the listener was there. */
    method RemoveListener(l: AdapterListener)
      requires Valid()
      requires l.asProperty != l.asChild && l.asProperty.numAttachments >= 0 && l.asChild.numAttachments >= 0
      modifies this`listeners, forest`world, l.asProperty, l.asChild
      ensures Valid()
      ensures listeners == RemoveAll(old(listeners), l) && l !in listeners
      ensures l !in old(listeners) ==>
                && forest.world == old(forest.world)
                && l.asProperty.numAttachments == old(l.asProperty.numAttachments)
                && l.asChild.numAttachments == old(l.asChild.numAttachments)
      ensures l in old(listeners) ==>
                if data in old(forest.world.handles) && old(forest.world.handles[data]) in old(forest.world.registry) then
                  var n := old(forest.world.handles[data]);
                  var ls := old(forest.world.registry[n]);
                  && forest.world == old(forest.world).(registry := old(forest.world.registry)[n :=
                       ls.(props := RemoveFirst(ls.props, l.asProperty), childs := RemoveFirst(ls.childs, l.asChild))])
                  && l.asProperty.numAttachments == Max(0, old(l.asProperty.numAttachments) - 1)
                  && l.asChild.numAttachments == Max(0, old(l.asChild.numAttachments) - 1)
                else
                  && forest.world == old(forest.world)
                  && l.asProperty.numAttachments == old(l.asProperty.numAttachments)
                  && l.asChild.numAttachments == old(l.asChild.numAttachments)
    {
      var removed := Count(listeners, l);
      NoDupCount(listeners, l);
      RemoveAllNoDup(listeners, l);
      listeners := RemoveAll(listeners, l);
      if removed == 1 {
        Unregister(l);
      }
    }

    /** The node-side half of removeListener: the property part and then the
        child part leave the node's lists, when the handle is not empty and
        its node has lists. */
    method Unregister(l: AdapterListener)
      requires forest.Valid()
      requires l.asProperty != l.asChild && l.asProperty.numAttachments >= 0 && l.asChild.numAttachments >= 0
      modifies forest`world, l.asProperty, l.asChild
      ensures forest.Valid()
      ensures if data in old(forest.world.handles) && old(forest.world.handles[data]) in old(forest.world.registry) then
                var n := old(forest.world.handles[data]);
                var ls := old(forest.world.registry[n]);
                && forest.world == old(forest.world).(registry := old(forest.world.registry)[n :=
                     ls.(props := RemoveFirst(ls.props, l.asProperty), childs := RemoveFirst(ls.childs, l.asChild))])
                && l.asProperty.numAttachments == Max(0, old(l.asProperty.numAttachments) - 1)
                && l.asChild.numAttachments == Max(0, old(l.asChild.numAttachments) - 1)
              else
                && forest.world == old(forest.world)
                && l.asProperty.numAttachments == old(l.asProperty.numAttachments)
                && l.asChild.numAttachments == old(l.asChild.numAttachments)
    {
      forest.RemovePropertyListener(data, l.asProperty);
      if data in old(forest.world.handles) {
        var n := forest.world.handles[data];
        assert n in old(forest.world.registry) ==>
                 forest.world.registry[n] == old(forest.world.registry[n]).(props := RemoveFirst(old(forest.world.registry[n]).props, l.asProperty));
      }
      forest.RemoveChildListener(data, l.asChild);
    }

    /** performWithUndo around a property write: run it when the wish matches
        the binding, do nothing on misuse, and otherwise run it with recording
        suspended for the call and the previous suspension restored. */
    method SetProperty(id: Key, v: Value, wantsUndo: bool)
      requires Valid() && IsValid()
      modifies forest`world, forest.um`history, forest.um`pending, forest.um`nextUndoAction, forest.um`nextRedoAction,
               forest.um`suspended
      ensures Valid()
      ensures forest.um.suspended == old(forest.um.suspended)
      ensures var n := old(forest.world.handles[data]);
              var bound := old(forest.world.nodes[n].bound);
              var a := SetProp(id, Lookup(old(forest.world.nodes[n].properties), id), v);
              match Decide(wantsUndo, bound)
              case Misuse => forest.world == old(forest.world) && forest.um.Snapshot() == old(forest.um.Snapshot())
              case RunDirect =>
                && forest.world == TreeRun(old(forest.world), data, a, false).0
                && forest.um.Snapshot() == AfterPerform(old(forest.um.Snapshot()), bound, data, a,
                                                        forest.um.isSynchronous, forest.um.suspended)
              case RunDeactivated =>
                && forest.world == TreeRun(old(forest.world), data, a, false).0
                && forest.um.Snapshot() == AfterPerform(old(forest.um.Snapshot()), bound, data, a,
                                                        forest.um.isSynchronous, true)
    {
      var bound := forest.world.nodes[forest.world.handles[data]].bound;
      match Decide(wantsUndo, bound)
      case RunDirect =>
        forest.SetProperty(data, id, v);
      case Misuse =>
      case RunDeactivated =>
        SetPropertyDeactivated(id, v);
    }

    /** The ScopedDeactivator path: the write runs with recording suspended
        and the previous suspension is restored afterwards. */
    method SetPropertyDeactivated(id: Key, v: Value)
      requires Valid() && IsValid()
      modifies forest`world, forest.um`history, forest.um`pending, forest.um`nextUndoAction, forest.um`nextRedoAction,
               forest.um`suspended
      ensures Valid()
      ensures forest.um.suspended == old(forest.um.suspended)
      ensures var n := old(forest.world.handles[data]);
              var a := SetProp(id, Lookup(old(forest.world.nodes[n].properties), id), v);
              && forest.world == TreeRun(old(forest.world), data, a, false).0
              && forest.um.Snapshot() == AfterPerform(old(forest.um.Snapshot()), old(forest.world.nodes[n].bound), data, a,
                                                      forest.um.isSynchronous, true)
    {
      ghost var w0, t0 := forest.world, forest.um.Snapshot();
      ghost var n := w0.handles[data];
      ghost var a := SetProp(id, Lookup(w0.nodes[n].properties, id), v);
      var previous := forest.um.suspended;
      forest.um.SetSuspended(true);
      forest.SetProperty(data, id, v);
      assert forest.world == TreeRun(w0, data, a, false).0;
      assert forest.um.Snapshot() == AfterPerform(t0, w0.nodes[n].bound, data, a, forest.um.isSynchronous, true);
      forest.um.SetSuspended(previous);
    }

    /** getProperty and operator[]: the stored value, Void when absent or
        when the handle is empty. */
    function GetProperty(id: Key): (r: Value)
      reads this, forest
      ensures IsValid() && Defines(forest.world.nodes[forest.world.handles[data]].properties, id) ==>
                (id, r) in forest.world.nodes[forest.world.handles[data]].properties
      ensures !IsValid() || !Defines(forest.world.nodes[forest.world.handles[data]].properties, id) ==> r == Void
    {
      if IsValid() then
        var ps := forest.world.nodes[forest.world.handles[data]].properties;
        assert Defines(ps, id) ==> ps[KeyIndex(ps, id)] == (id, Lookup(ps, id));
        Lookup(ps, id)
      else Void
    }
  }
}

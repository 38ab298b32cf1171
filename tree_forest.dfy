/** The handles of the property tree (DataModelTree) as operations on one
    arena shared with the single undo manager the bound nodes use: creating
    trees and handles, perform, property writes through Property::operator=,
    addChild / removeChild / getOrCreateChildWithName, listener
    registration, and undo / redo of what was recorded. */
module TreeForest {
  import opened Common
  import opened TreeModel
  import opened TreeDispatch
  import opened TreeActions
  import UM = Undo

  /** Every handle, child link and parent link names a node of the arena. */
  predicate Closed(w: World)
  {
    && (forall o :: o in w.handles ==> w.handles[o] in w.nodes)
    && (forall n, c :: n in w.nodes && c in w.nodes[n].children ==> c in w.nodes)
    && (forall n :: n in w.nodes && w.nodes[n].parent.Some? ==> w.nodes[n].parent.value in w.nodes)
  }

  lemma AttachKeepsClosed(w: World, p: NodeId, c: NodeId, index: int)
    requires Closed(w)
    ensures Closed(Attach(w, p, c, index))
  {
    if p in w.nodes && c in w.nodes {
      var r := Attach(w, p, c, index);
      forall n, d | n in r.nodes && d in r.nodes[n].children
        ensures d in r.nodes
      {
        if n == p {
          InsertAtMembers(w.nodes[p].children, index, c, d);
        }
      }
    }
  }

  lemma DetachKeepsClosed(w: World, p: NodeId, c: NodeId)
    requires Closed(w)
    ensures Closed(Detach(w, p, c))
  {
    if p in w.nodes && c in w.nodes && c in w.nodes[p].children {
      var r := Detach(w, p, c);
      var kids := RemoveFirst(w.nodes[p].children, c);
      forall n | n in r.nodes
        ensures r.nodes[n].children == (if n == p then kids else w.nodes[n].children)
        ensures r.nodes[n].parent == (if n == c then None else w.nodes[n].parent)
      {
      }
      forall n, d | n in r.nodes && d in r.nodes[n].children
        ensures d in r.nodes
      {
        if n == p {
          assert d in w.nodes[p].children;
        }
      }
    }
  }

  /** Every tree action, in either direction, keeps the arena closed and
      leaves the set of nodes, the handles and the other objects alone. */
  lemma TreeRunKeepsClosed(w: World, h: ObjId, a: TreeAction, isUndo: bool)
    requires Closed(w)
    ensures Closed(TreeRun(w, h, a, isUndo).0)
  {
    if h in w.handles && w.handles[h] in w.nodes {
      var n := w.handles[h];
      match a
      case SetProp(key, oldValue, newValue) =>
      case AddChild(c, index) =>
        if isUndo {
          DetachKeepsClosed(SendChildChange(w, n, c, false), n, c);
        } else {
          AttachKeepsClosed(w, n, c, index);
        }
      case RemoveChild(c, idx) =>
        if isUndo {
          AttachKeepsClosed(w, n, c, idx);
        } else {
          DetachKeepsClosed(SendChildChange(w, n, c, false), n, c);
        }
    }
  }

  /** What an arena invariant has to survive for undo and redo to keep it. */
  ghost predicate Stable(nodes: set<NodeId>, handles: map<ObjId, NodeId>, objects: set<ObjId>, w: World)
  {
    Closed(w) && w.nodes.Keys == nodes && w.handles == handles && w.objects == objects
  }

  /** Undo and redo keep the arena closed and its nodes, handles and objects. */
  lemma NavigateKeepsStable(w: World, t: UM.Timeline<TreeAction>, isUndo: bool)
    requires Closed(w)
    ensures Stable(w.nodes.Keys, w.handles, w.objects, UM.Navigate(TreeEnv(), w, t, isUndo).world)
  {
    var inv := v => Stable(w.nodes.Keys, w.handles, w.objects, v);
    forall v, o, a, u | inv(v)
      ensures inv(TreeEnv().run(v, o, a, u).0)
    {
      TreeRunKeepsClosed(v, o, a, u);
    }
    UM.NavigatePreserves(TreeEnv(), w, t, isUndo, inv);
  }

  /** A node of type id appended by getOrCreateChildWithName to a node with
      no child of that type is what getChildWithName finds afterwards. */
  lemma CreatedChildIsFound(w: World, h: ObjId, c: NodeId, id: Key)
    requires Closed(w) && h in w.handles && c !in w.nodes
    requires GetChildWithName(w, Some(w.handles[h]), id).None?
    ensures var n := w.handles[h];
            var w1 := w.(nodes := w.nodes[c := Node(id, [], [], None, false)]);
            var w2 := TreeRun(w1, h, AddChild(c, -1), false).0;
            && GetChildWithName(w2, Some(n), id) == Some(c)
            && w2.nodes[n].children == w.nodes[n].children + [c]
            && w2.nodes[c].parent == Some(n)
  {
    var n := w.handles[h];
    var cs := w.nodes[n].children;
    var w1 := w.(nodes := w.nodes[c := Node(id, [], [], None, false)]);
    AddChildNodes(w1, h, c, -1, false);
    var w2 := TreeRun(w1, h, AddChild(c, -1), false).0;
    assert w2.nodes == Attach(w1, n, c, -1).nodes;
    assert w2.nodes[n].children == cs + [c];
    var s := cs + [c];
    forall i | 0 <= i < |cs|
      ensures !HasType(w2, s[i], id)
    {
      assert s[i] == cs[i] && cs[i] in cs;
      assert !HasType(w, cs[i], id);
    }
    assert n != c;
    assert HasType(w2, s[|cs|], id);
    assert FirstWithType(w2, s, id) == |cs|;
  }

  /** Every node id and object id in use is below the counters. */
  predicate Below(w: World, nextNode: nat, nextObject: nat)
  {
    && (forall n :: n in w.nodes ==> n < nextNode)
    && (forall o :: o in w.handles ==> o < nextObject)
    && (forall o :: o in w.objects ==> o < nextObject)
  }

  /** The id bounds only look at the arena's keys, handles and objects. */
  lemma BelowKeeps(w: World, w': World, nextNode: nat, nextObject: nat)
    requires Below(w, nextNode, nextObject)
    requires w'.nodes.Keys == w.nodes.Keys && w'.handles == w.handles && w'.objects == w.objects
    ensures Below(w', nextNode, nextObject)
  {
  }

  /** The manager calls a recorded tree action on a live handle as TreeRun
      does, and the call succeeds. */
  lemma TreeEnvCall(w: World, h: ObjId, a: TreeAction)
    requires h in w.handles && w.handles[h] in w.nodes
    ensures UM.ItemCall(TreeEnv(), w, UM.Item(h, a), false) == TreeRun(w, h, a, false)
    ensures TreeRun(w, h, a, false).1
  {
  }

  /** What perform needs to know about running an action on a live handle:
      the arena stays closed and within the id bounds, and the manager's call
      is TreeRun and succeeds. */
  lemma PerformFacts(w: World, h: ObjId, a: TreeAction, nextNode: nat, nextObject: nat)
    requires Closed(w) && Below(w, nextNode, nextObject) && h in w.handles
    ensures Closed(TreeRun(w, h, a, false).0) && Below(TreeRun(w, h, a, false).0, nextNode, nextObject)
    ensures UM.ItemCall(TreeEnv(), w, UM.Item(h, a), false) == TreeRun(w, h, a, false)
    ensures TreeRun(w, h, a, false).1
  {
    TreeRunKeepsClosed(w, h, a, false);
    BelowKeeps(w, TreeRun(w, h, a, false).0, nextNode, nextObject);
    TreeEnvCall(w, h, a);
  }

  /** The data pointer of handle object h: an object id that points at no
      node (see Forest.NewObject) is an empty DataModelTree. */
  function HandleOf(w: World, h: ObjId): (r: Handle)
    ensures r.None? <==> h !in w.handles
    ensures r.Some? ==> r.value == w.handles[h]
    ensures Closed(w) && r.Some? ==> Bound(w, r)
  {
    if h in w.handles then Some(w.handles[h]) else None
  }

  /** getListeners(true): the node's listener lists, empty ones when the node
      has none yet. */
  function ListenersOf(w: World, n: NodeId): Listeners
  {
    if n in w.registry then w.registry[n] else Listeners([], [], [])
  }

  /** What perform leaves in the manager: a successful call on handle h
      recorded when the node is bound, nothing otherwise. */
  function AfterPerform(t: UM.Timeline<TreeAction>, bound: bool, h: ObjId, a: TreeAction, isSynchronous: bool, suspended: bool)
    : UM.Timeline<TreeAction>
  {
    if bound then UM.Record(t, UM.Item(h, a), true, isSynchronous, suspended) else t
  }

  class Forest {
    var world: World
    /** Fresh-id counters: every node id and object id in use is below them. */
    var nextNode: nat
    var nextObject: nat
    /** The manager every bound node refers to. */
    const um: UM.UndoManager<World, TreeAction>

    ghost predicate Valid()
      reads this, um
    {
      && um.Valid() && um.env == TreeEnv()
      && Closed(world)
      && Below(world, nextNode, nextObject)
    }

    /** An empty arena and a new manager. */
    constructor (startTimer: bool)
      ensures Valid() && fresh(um)
      ensures world == World(map[], map[], map[], {}, [])
      ensures um.Snapshot() == UM.Timeline([], [], -1, -1)
    {
      um := new UM.UndoManager(TreeEnv(), startTimer);
      world := World(map[], map[], map[], {}, []);
      nextNode := 0;
      nextObject := 0;
    }

    /** DataModelTree(id, um): a new node with no properties, children or
        parent, bound to the manager iff withUndo, and a handle to it. */
    method CreateTree(id: Key, withUndo: bool) returns (h: ObjId, n: NodeId)
      requires Valid()
      modifies this
      ensures Valid()
      ensures n !in old(world.nodes) && h !in old(world.handles) && h !in old(world.objects)
      ensures world == old(world).(nodes := old(world.nodes)[n := Node(id, [], [], None, withUndo)],
                                   handles := old(world.handles)[h := n])
    {
      n := nextNode;
      h := nextObject;
      world := world.(nodes := world.nodes[n := Node(id, [], [], None, withUndo)], handles := world.handles[h := n]);
      nextNode := nextNode + 1;
      nextObject := nextObject + 1;
    }

    /** The copy constructor (and DataModelTree(DataObject::Ptr)): another
        handle to an existing node. */
    method NewHandle(n: NodeId) returns (h: ObjId)
      requires Valid() && n in world.nodes
      modifies this`world, this`nextObject
      ensures Valid()
      ensures h !in old(world.handles) && h !in old(world.objects)
      ensures world == old(world).(handles := old(world.handles)[h := n])
    {
      h := nextObject;
      world := world.(handles := world.handles[h := n]);
      nextObject := nextObject + 1;
    }

    /** A new object that points at no node: a default-constructed, empty
        DataModelTree, or any other weakly referenceable object. */
    method NewObject() returns (o: ObjId)
      requires Valid()
      modifies this`world, this`nextObject
      ensures Valid()
      ensures o !in old(world.handles) && o !in old(world.objects)
      ensures world == old(world).(objects := old(world.objects) + {o})
    {
      o := nextObject;
      world := world.(objects := world.objects + {o});
      nextObject := nextObject + 1;
    }

    /** Destroying a handle or object: weak references to it read null from
        now on, so recorded actions on it and lambda listeners on it die. */
    method Release(o: ObjId)
      requires Valid()
      modifies this`world
      ensures Valid()
      ensures world == old(world).(handles := old(world.handles) - {o}, objects := old(world.objects) - {o})
      ensures !Alive(world, o) && !HandleAlive(world, o)
    {
      world := world.(handles := world.handles - {o}, objects := world.objects - {o});
    }

    /** perform: through the manager when the node is bound, directly
        otherwise; either way the action runs forward on the handle. */
    method Perform(h: ObjId, a: TreeAction)
      requires Valid() && h in world.handles
      modifies this`world, um`history, um`pending, um`nextUndoAction, um`nextRedoAction
      ensures Valid()
      ensures world == TreeRun(old(world), h, a, false).0
      ensures um.Snapshot() == AfterPerform(old(um.Snapshot()), old(world.nodes[world.handles[h]].bound), h, a,
                                            um.isSynchronous, um.suspended)
    {
      if world.nodes[world.handles[h]].bound {
        PerformRecorded(h, a);
      } else {
        PerformDirect(h, a);
      }
    }

    /** perform on a bound node: the manager runs the action and records it. */
    method PerformRecorded(h: ObjId, a: TreeAction)
      requires Valid() && h in world.handles
      modifies this`world, um`history, um`pending, um`nextUndoAction, um`nextRedoAction
      ensures Valid()
      ensures world == TreeRun(old(world), h, a, false).0
      ensures um.Snapshot() == UM.Record(old(um.Snapshot()), UM.Item(h, a), true, um.isSynchronous, um.suspended)
    {
      PerformFacts(world, h, a, nextNode, nextObject);
      var w', ok := um.PerformOn(world, h, a);
      world := w';
    }

    /** perform on an unbound node: the action just runs. */
    method PerformDirect(h: ObjId, a: TreeAction)
      requires Valid() && h in world.handles
      modifies this`world
      ensures Valid()
      ensures world == TreeRun(old(world), h, a, false).0
    {
      PerformFacts(world, h, a, nextNode, nextObject);
      world := TreeRun(world, h, a, false).0;
    }

    /** Property::operator=: read the old value, then perform a write whose
        forward direction stores the new value and whose undo stores the old
        one. Afterwards the key reads the new value and nothing else of any
        node changed. */
    method SetProperty(h: ObjId, key: Key, v: Value)
      requires Valid() && h in world.handles
      modifies this`world, um`history, um`pending, um`nextUndoAction, um`nextRedoAction
      ensures Valid()
      ensures var n := old(world.handles[h]);
              var a := SetProp(key, Lookup(old(world.nodes[n].properties), key), v);
              && world == TreeRun(old(world), h, a, false).0
              && um.Snapshot() == AfterPerform(old(um.Snapshot()), old(world.nodes[n].bound), h, a, um.isSynchronous, um.suspended)
      ensures var n := old(world.handles[h]);
              && Lookup(world.nodes[n].properties, key) == v
              && (forall k :: k != key ==> Lookup(world.nodes[n].properties, k) == Lookup(old(world.nodes[n].properties), k))
              && (forall m :: m in world.nodes && m != n ==> world.nodes[m] == old(world.nodes[m]))
    {
      var n := world.handles[h];
      var a := SetProp(key, Lookup(world.nodes[n].properties, key), v);
      SetPropEffect(world, h, key, v);
      Perform(h, a);
    }

    /** addChild: with a child and a non-empty handle, perform an attach at
        index (undo detaches); when either handle is empty nothing happens.
        The child is returned. */
    method AddChild(h: ObjId, child: Handle, index: int) returns (r: Handle)
      requires Valid()
      requires child.Some? && h in world.handles ==> child.value in world.nodes && world.nodes[child.value].parent.None?
      modifies this`world, um`history, um`pending, um`nextUndoAction, um`nextRedoAction
      ensures Valid()
      ensures r == child
      ensures child.None? || h !in old(world.handles) ==> world == old(world) && um.Snapshot() == old(um.Snapshot())
      ensures child.Some? && h in old(world.handles) ==>
                var a := TreeAction.AddChild(child.value, index);
                && world == TreeRun(old(world), h, a, false).0
                && um.Snapshot() == AfterPerform(old(um.Snapshot()), old(world.nodes[world.handles[h]].bound), h, a,
                                                 um.isSynchronous, um.suspended)
    {
      if child.Some? && h in world.handles {
        Perform(h, TreeAction.AddChild(child.value, index));
      }
      r := child;
    }

    /** removeChild: when the handle is not empty and the child is listed,
        perform a detach that undo re-inserts at the index it had; the result
        is always false. */
    method RemoveChild(h: ObjId, child: Handle) returns (r: bool)
      requires Valid()
      modifies this`world, um`history, um`pending, um`nextUndoAction, um`nextRedoAction
      ensures Valid()
      ensures !r
      ensures var cs := if h in old(world.handles) then old(world.nodes[world.handles[h]].children) else [];
              if h in old(world.handles) && child.Some? && child.value in cs then
                var a := TreeAction.RemoveChild(child.value, IndexOf(cs, child.value));
                && world == TreeRun(old(world), h, a, false).0
                && um.Snapshot() == AfterPerform(old(um.Snapshot()), old(world.nodes[world.handles[h]].bound), h, a,
                                                 um.isSynchronous, um.suspended)
              else world == old(world) && um.Snapshot() == old(um.Snapshot())
    {
      if child.Some? && h in world.handles {
        var idx := IndexOf(world.nodes[world.handles[h]].children, child.value);
        if idx != -1 {
          Perform(h, TreeAction.RemoveChild(child.value, idx));
        }
      }
      r := false;
    }

    /** getOrCreateChildWithName: the first child of that type if there is
        one (and then nothing changes), otherwise a new unbound node of that
        type appended as the last child through addChild. Either way the
        child found by name afterwards is the one returned, so a second call
        returns the same node and changes nothing. On an empty handle no
        child is found and addChild does nothing: the new node stays
        detached. */
    method GetOrCreateChildWithName(h: ObjId, id: Key) returns (c: NodeId)
      requires Valid()
      modifies this, um`history, um`pending, um`nextUndoAction, um`nextRedoAction
      ensures Valid()
      ensures world.handles == old(world.handles)
      ensures h in world.handles ==> GetChildWithName(world, Some(world.handles[h]), id) == Some(c)
      ensures var found := GetChildWithName(old(world), HandleOf(old(world), h), id);
              && (found.Some? ==> c == found.value && world == old(world) && um.Snapshot() == old(um.Snapshot()))
              && (found.None? ==>
                    var w1 := old(world).(nodes := old(world.nodes)[c := Node(id, [], [], None, false)]);
                    var a := TreeAction.AddChild(c, -1);
                    && c !in old(world.nodes)
                    && world == TreeRun(w1, h, a, false).0
                    && (h in old(world.handles) ==>
                          && um.Snapshot() == AfterPerform(old(um.Snapshot()), old(world.nodes[world.handles[h]].bound), h, a,
                                                           um.isSynchronous, um.suspended)
                          && world.nodes[world.handles[h]].children == old(world.nodes[world.handles[h]].children) + [c]
                          && world.nodes[c].parent == Some(world.handles[h]))
                    && (h !in old(world.handles) ==> world == w1 && um.Snapshot() == old(um.Snapshot())))
    {
      var found := GetChildWithName(world, HandleOf(world, h), id);
      if found.Some? {
        return found.value;
      }
      ghost var w0 := world;
      c := NewNode(id);
      if h in world.handles {
        CreatedChildIsFound(w0, h, c, id);
      }
      var _ := AddChild(h, Some(c), -1);
    }

    /** new DataObject(type): a node with the type id and nothing else, not
        bound to a manager, that no handle points at yet. */
    method NewNode(id: Key) returns (c: NodeId)
      requires Valid()
      modifies this`world, this`nextNode
      ensures Valid()
      ensures c !in old(world.nodes)
      ensures world == old(world).(nodes := old(world.nodes)[c := Node(id, [], [], None, false)])
    {
      c := nextNode;
      world := world.(nodes := world.nodes[c := Node(id, [], [], None, false)]);
      nextNode := nextNode + 1;
    }

    /** addPropertyListener: into the node's property listeners unless it is
        already there; its attachment count goes up either way. */
    method AddPropertyListener(h: ObjId, l: Listener)
      requires Valid() && h in world.handles && l.numAttachments >= 0
      modifies this`world, l
      ensures Valid()
      ensures var n := old(world.handles[h]);
              var ls := ListenersOf(old(world), n);
              world == old(world).(registry := old(world.registry)[n := ls.(props := AddIfAbsent(ls.props, l))])
      ensures l.numAttachments == old(l.numAttachments) + 1
    {
      var n := world.handles[h];
      var ls := ListenersOf(world, n);
      world := world.(registry := world.registry[n := ls.(props := AddIfAbsent(ls.props, l))]);
      l.Attach(true);
    }

    /** removePropertyListener: only on a non-empty handle whose node has
        listener lists; the first occurrence goes and the attachment count
        goes down (not below 0). */
    method RemovePropertyListener(h: ObjId, l: Listener)
      requires Valid() && l.numAttachments >= 0
      modifies this`world, l
      ensures Valid()
      ensures if h in old(world.handles) && old(world.handles[h]) in old(world.registry) then
                var n := old(world.handles[h]);
                var ls := old(world.registry[n]);
                && world == old(world).(registry := old(world.registry)[n := ls.(props := RemoveFirst(ls.props, l))])
                && l.numAttachments == Max(0, old(l.numAttachments) - 1)
              else world == old(world) && l.numAttachments == old(l.numAttachments)
    {
      if h in world.handles && world.handles[h] in world.registry {
        var n := world.handles[h];
        var ls := world.registry[n];
        world := world.(registry := world.registry[n := ls.(props := RemoveFirst(ls.props, l))]);
        l.Attach(false);
      }
    }

    /** addChildListener. */
    method AddChildListener(h: ObjId, l: Listener)
      requires Valid() && h in world.handles && l.numAttachments >= 0
      modifies this`world, l
      ensures Valid()
      ensures var n := old(world.handles[h]);
              var ls := ListenersOf(old(world), n);
              world == old(world).(registry := old(world.registry)[n := ls.(childs := AddIfAbsent(ls.childs, l))])
      ensures l.numAttachments == old(l.numAttachments) + 1
    {
      var n := world.handles[h];
      var ls := ListenersOf(world, n);
      world := world.(registry := world.registry[n := ls.(childs := AddIfAbsent(ls.childs, l))]);
      l.Attach(true);
    }

    /** removeChildListener: as removePropertyListener, on the child
        listeners. */
    method RemoveChildListener(h: ObjId, l: Listener)
      requires Valid() && l.numAttachments >= 0
      modifies this`world, l
      ensures Valid()
      ensures if h in old(world.handles) && old(world.handles[h]) in old(world.registry) then
                var n := old(world.handles[h]);
                var ls := old(world.registry[n]);
                && world == old(world).(registry := old(world.registry)[n := ls.(childs := RemoveFirst(ls.childs, l))])
                && l.numAttachments == Max(0, old(l.numAttachments) - 1)
              else world == old(world) && l.numAttachments == old(l.numAttachments)
    {
      if h in world.handles && world.handles[h] in world.registry {
        var n := world.handles[h];
        var ls := world.registry[n];
        world := world.(registry := world.registry[n := ls.(childs := RemoveFirst(ls.childs, l))]);
        l.Attach(false);
      }
    }

    /** addLambdaPropertyListenerT: a new listener on the weakly referenced
        target, owned by the node and appended to both the owned list and
        the property listeners (its attachment count is not touched). */
    method AddLambdaPropertyListener(h: ObjId, target: ObjId, recursive: bool, ids: seq<Key>) returns (l: Listener)
      requires Valid() && h in world.handles
      modifies this`world
      ensures Valid() && fresh(l)
      ensures l.weakTarget == Some(target) && l.recursive == recursive && l.ids == ids && l.numAttachments == 0
      ensures var n := old(world.handles[h]);
              var ls := ListenersOf(old(world), n);
              world == old(world).(registry := old(world.registry)[n := Listeners(ls.lambdas + [l], ls.props + [l], ls.childs)])
    {
      l := new Listener(recursive, ids, Some(target));
      var n := world.handles[h];
      var ls := ListenersOf(world, n);
      assert l !in ls.props;
      world := world.(registry := world.registry[n := Listeners(ls.lambdas + [l], AddIfAbsent(ls.props, l), ls.childs)]);
    }

    /** addLambdaPropertyListener: the handle itself is the target, so the
        listener dies with the handle it was registered through. */
    method AddLambdaPropertyListenerOnSelf(h: ObjId, recursive: bool, ids: seq<Key>) returns (l: Listener)
      requires Valid() && h in world.handles
      modifies this`world
      ensures Valid() && fresh(l)
      ensures l.weakTarget == Some(h) && l.recursive == recursive && l.ids == ids
      ensures var n := old(world.handles[h]);
              var ls := ListenersOf(old(world), n);
              world == old(world).(registry := old(world.registry)[n := Listeners(ls.lambdas + [l], ls.props + [l], ls.childs)])
    {
      l := AddLambdaPropertyListener(h, h, recursive, ids);
    }

    /** undo on the shared manager, applied to the arena. */
    method Undo() returns (ok: bool)
      requires Valid()
      modifies this`world, um`history, um`pending, um`nextUndoAction, um`nextRedoAction
      ensures Valid()
      ensures UM.Step(world, um.Snapshot(), ok) == UM.Navigate(TreeEnv(), old(world), old(um.Snapshot()), true)
    {
      NavigateKeepsStable(world, um.Snapshot(), true);
      world, ok := um.Undo(world);
    }

    /** redo on the shared manager, applied to the arena. */
    method Redo() returns (ok: bool)
      requires Valid()
      modifies this`world, um`history, um`pending, um`nextUndoAction, um`nextRedoAction
      ensures Valid()
      ensures UM.Step(world, um.Snapshot(), ok) == UM.Navigate(TreeEnv(), old(world), old(um.Snapshot()), false)
    {
      NavigateKeepsStable(world, um.Snapshot(), false);
      world, ok := um.Redo(world);
    }
  }
}

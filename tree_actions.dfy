/** The structural edits of the property tree (DataObject::add and ::remove)
    and the three undoable actions built on them (the closures of
    Property::operator=, addChild and removeChild), run through the undo
    engine with the handle object as the weakly referenced target. */
module TreeActions {
  import opened Common
  import opened TreeModel
  import opened TreeDispatch
  import Undo

  // ---------------------------------------------------------------------------
  // DataObject::add / DataObject::remove

  /** DataObject::add: the child's parent becomes p, it inherits p's undo
      binding, and it is inserted at index (index -1, or any index outside
      [0, |children|], appends). */
  function Attach(w: World, p: NodeId, c: NodeId, index: int): (r: World)
    ensures r.registry == w.registry && r.handles == w.handles && r.objects == w.objects && r.events == w.events
    ensures r.nodes.Keys == w.nodes.Keys
    ensures p in w.nodes && c in w.nodes && p != c ==>
              && r.nodes == w.nodes[c := w.nodes[c].(parent := Some(p), bound := w.nodes[p].bound)]
                                   [p := w.nodes[p].(children := InsertAt(w.nodes[p].children, index, c))]
    ensures !(p in w.nodes && c in w.nodes) ==> r == w
  {
    if p in w.nodes && c in w.nodes then
      var nodes1 := w.nodes[c := w.nodes[c].(parent := Some(p), bound := w.nodes[p].bound)];
      w.(nodes := nodes1[p := nodes1[p].(children := InsertAt(nodes1[p].children, index, c))])
    else w
  }

  /** DataObject::remove with the removal made from p's own child list: when
      c is a child of p it leaves the list and loses its parent and binding. */
  function Detach(w: World, p: NodeId, c: NodeId): (r: World)
    ensures r.registry == w.registry && r.handles == w.handles && r.objects == w.objects && r.events == w.events
    ensures r.nodes.Keys == w.nodes.Keys
    ensures p in w.nodes && c in w.nodes && p != c && c in w.nodes[p].children ==>
              && r.nodes == w.nodes[p := w.nodes[p].(children := RemoveFirst(w.nodes[p].children, c))]
                                   [c := w.nodes[c].(parent := None, bound := false)]
    ensures !(p in w.nodes && c in w.nodes && c in w.nodes[p].children) ==> r == w
  {
    if p in w.nodes && c in w.nodes && c in w.nodes[p].children then
      var nodes1 := w.nodes[p := w.nodes[p].(children := RemoveFirst(w.nodes[p].children, c))];
      w.(nodes := nodes1[c := nodes1[c].(parent := None, bound := false)])
    else w
  }

  /** DataObject::remove as written: the removal is made from the child's own
      child list. */
  function DetachAsWritten(w: World, p: NodeId, c: NodeId): (r: World)
    ensures r.nodes.Keys == w.nodes.Keys
    ensures p in w.nodes && p != c ==> r.nodes[p] == w.nodes[p]
  {
    if p in w.nodes && c in w.nodes && c in w.nodes[p].children then
      var nodes1 := w.nodes[c := w.nodes[c].(children := RemoveFirst(w.nodes[c].children, c))];
      w.(nodes := nodes1[c := nodes1[c].(parent := None, bound := false)])
    else w
  }

  /** A parent p with the single child c. */
  function OneChildWorld(p: NodeId, c: NodeId): World
  {
    World(map[p := Node("parent", [], [c], None, false), c := Node("child", [], [], Some(p), false)], map[], map[], {}, [])
  }

  /** As written, removing c leaves it in p's list though its parent link is
      cleared, and undoing the removal (add at the old index) lists it twice. */
  lemma DetachAsWrittenKeepsChild(p: NodeId, c: NodeId)
    requires p != c
    ensures var w := DetachAsWritten(OneChildWorld(p, c), p, c);
            && w.nodes[p].children == [c] && w.nodes[c].parent.None?
            && Attach(w, p, c, 0).nodes[p].children == [c, c]
  {
  }

  lemma RemoveInserted<T>(s: seq<T>, index: int, x: T)
    requires x !in s
    ensures RemoveFirst(InsertAt(s, index, x), x) == s
  {
    var r := InsertAt(s, index, x);
    var k := if 0 <= index <= |s| then index else |s|;
    assert r[..k] == s[..k] && r[k] == x && r[k + 1..] == s[k..];
    assert x !in r[..k];
    assert IndexOf(r, x) == k;
    assert s[..k] + s[k..] == s;
  }

  lemma InsertRemoved<T>(s: seq<T>, x: T)
    requires x in s
    ensures InsertAt(RemoveFirst(s, x), IndexOf(s, x), x) == s
  {
    var k := IndexOf(s, x);
    SpliceBack(s, k);
  }

  /** With the corrected removal, detaching an attached child restores the
      parent's list and the child's parent link. */
  lemma AttachDetachRoundTrip(w: World, p: NodeId, c: NodeId, index: int)
    requires p in w.nodes && c in w.nodes && p != c
    requires c !in w.nodes[p].children && w.nodes[c].parent.None?
    ensures Detach(Attach(w, p, c, index), p, c).nodes == w.nodes[c := w.nodes[c].(bound := false)]
  {
    var w1 := Attach(w, p, c, index);
    assert c in w1.nodes[p].children;
    RemoveInserted(w.nodes[p].children, index, c);
  }

  /** Detaching a child and attaching it back at the index it had restores
      every node as it was. */
  lemma DetachAttachRestores(w: World, p: NodeId, c: NodeId)
    requires p in w.nodes && c in w.nodes && p != c && c in w.nodes[p].children
    requires w.nodes[c].parent == Some(p) && w.nodes[c].bound == w.nodes[p].bound
    ensures Attach(Detach(w, p, c), p, c, IndexOf(w.nodes[p].children, c)).nodes == w.nodes
  {
    var cs := w.nodes[p].children;
    InsertRemoved(cs, c);
    var w1 := Detach(w, p, c);
    assert w1.nodes[p] == w.nodes[p].(children := RemoveFirst(cs, c));
    var w2 := Attach(w1, p, c, IndexOf(cs, c));
    assert w2.nodes[p] == w.nodes[p];
    assert w2.nodes[c] == w.nodes[c];
  }

  // ---------------------------------------------------------------------------
  // The undoable actions

  /** The three closures handed to perform. SetProp carries the value read
      before the write; RemoveChild carries the index found before removal. */
  datatype TreeAction =
    | SetProp(key: Key, oldValue: Value, newValue: Value)
    | AddChild(child: NodeId, index: int)
    | RemoveChild(child: NodeId, idx: int)

  /** Running an action through the handle object h, in one direction. A live
      handle always points at a node of the arena; the (w, false) fallback is
      only there to make the function total. */
  function TreeRun(w: World, h: ObjId, a: TreeAction, isUndo: bool): (r: (World, bool))
    ensures r.0.handles == w.handles && r.0.objects == w.objects && r.0.nodes.Keys == w.nodes.Keys
  {
    if h in w.handles && w.handles[h] in w.nodes then
      var n := w.handles[h];
      match a
      case SetProp(key, oldValue, newValue) =>
        var v := if isUndo then oldValue else newValue;
        var w1 := w.(nodes := w.nodes[n := w.nodes[n].(properties := Store(w.nodes[n].properties, key, v))]);
        (SendPropertyChange(w1, n, n, key, |w.nodes|), true)
      case AddChild(c, index) =>
        if isUndo then (Detach(SendChildChange(w, n, c, false), n, c), true)
        else (SendChildChange(Attach(w, n, c, index), n, c, true), true)
      case RemoveChild(c, idx) =>
        if isUndo then (SendChildChange(Attach(w, n, c, idx), n, c, true), true)
        else (Detach(SendChildChange(w, n, c, false), n, c), true)
    else (w, false)
  }

  /** A recorded action stays valid while its handle object exists. */
  predicate HandleAlive(w: World, o: ObjId)
  {
    o in w.handles
  }

  /** What the undo engine needs to know about the tree. */
  function TreeEnv(): Undo.Env<World, TreeAction>
  {
    Undo.Env(HandleAlive, TreeRun)
  }

  /** What a property write does to the nodes: only the written node's
      properties change. */
  lemma SetPropNodes(w: World, h: ObjId, key: Key, oldValue: Value, newValue: Value, isUndo: bool)
    requires h in w.handles && w.handles[h] in w.nodes
    ensures var n := w.handles[h];
            TreeRun(w, h, SetProp(key, oldValue, newValue), isUndo).0.nodes
              == w.nodes[n := w.nodes[n].(properties := Store(w.nodes[n].properties, key, if isUndo then oldValue else newValue))]
  {
  }

  /** What adding a child does to the nodes, in each direction. */
  lemma AddChildNodes(w: World, h: ObjId, c: NodeId, index: int, isUndo: bool)
    requires h in w.handles && w.handles[h] in w.nodes
    ensures var n := w.handles[h];
            TreeRun(w, h, AddChild(c, index), isUndo).0.nodes
              == if isUndo then Detach(w, n, c).nodes else Attach(w, n, c, index).nodes
  {
    var n := w.handles[h];
    if isUndo {
      var w1 := SendChildChange(w, n, c, false);
      assert Detach(w1, n, c).nodes == Detach(w, n, c).nodes;
    }
  }

  /** What removing a child does to the nodes, in each direction. */
  lemma RemoveChildNodes(w: World, h: ObjId, c: NodeId, idx: int, isUndo: bool)
    requires h in w.handles && w.handles[h] in w.nodes
    ensures var n := w.handles[h];
            TreeRun(w, h, RemoveChild(c, idx), isUndo).0.nodes
              == if isUndo then Attach(w, n, c, idx).nodes else Detach(w, n, c).nodes
  {
    var n := w.handles[h];
    if !isUndo {
      var w1 := SendChildChange(w, n, c, false);
      assert Detach(w1, n, c).nodes == Detach(w, n, c).nodes;
    }
  }

  /** What a property write leaves behind: the key reads the new value, every
      other key reads what it read, and every other node is untouched. */
  lemma SetPropEffect(w: World, h: ObjId, key: Key, v: Value)
    requires h in w.handles && w.handles[h] in w.nodes
    ensures var n := w.handles[h];
            var a := SetProp(key, Lookup(w.nodes[n].properties, key), v);
            var w1 := TreeRun(w, h, a, false).0;
            && n in w1.nodes
            && Lookup(w1.nodes[n].properties, key) == v
            && (forall k :: k != key ==> Lookup(w1.nodes[n].properties, k) == Lookup(w.nodes[n].properties, k))
            && (forall m :: m in w1.nodes && m != n ==> m in w.nodes && w1.nodes[m] == w.nodes[m])
  {
    var n := w.handles[h];
    SetPropRoundTrip(w, h, key, v);
    SetPropNodes(w, h, key, Lookup(w.nodes[n].properties, key), v, false);
  }

  /** Read after write, and the undo of a write: it puts back the value read
      before the write (a key that was absent comes back defined as Void),
      and redoing it writes the new value again. */
  lemma SetPropRoundTrip(w: World, h: ObjId, key: Key, v: Value)
    requires h in w.handles && w.handles[h] in w.nodes
    ensures var n := w.handles[h];
            var ps := w.nodes[n].properties;
            var a := SetProp(key, Lookup(ps, key), v);
            var w1 := TreeRun(w, h, a, false).0;
            var w2 := TreeRun(w1, h, a, true).0;
            && Lookup(w1.nodes[n].properties, key) == v
            && (forall k :: k != key ==> Lookup(w1.nodes[n].properties, k) == Lookup(ps, k))
            && w2.nodes == w.nodes[n := w.nodes[n].(properties := if Defines(ps, key) then ps else ps + [(key, Void)])]
            && TreeRun(w2, h, a, false).0.nodes == w1.nodes
  {
    var n := w.handles[h];
    var ps := w.nodes[n].properties;
    var a := SetProp(key, Lookup(ps, key), v);
    StoreRoundTrip(ps, key, v);
    SetPropNodes(w, h, key, Lookup(ps, key), v, false);
    var w1 := TreeRun(w, h, a, false).0;
    SetPropNodes(w1, h, key, Lookup(ps, key), v, true);
    var w2 := TreeRun(w1, h, a, true).0;
    SetPropNodes(w2, h, key, Lookup(ps, key), v, false);
    NodesStoreRoundTrip(w.nodes, n, key, v);
  }

  /** The node map after a write to one node's property, after its undo and
      after its redo. */
  lemma NodesStoreRoundTrip(nodes: map<NodeId, Node>, n: NodeId, key: Key, v: Value)
    requires n in nodes
    ensures var ps := nodes[n].properties;
            var m1 := nodes[n := nodes[n].(properties := Store(ps, key, v))];
            var m2 := m1[n := m1[n].(properties := Store(m1[n].properties, key, Lookup(ps, key)))];
            && m2 == nodes[n := nodes[n].(properties := if Defines(ps, key) then ps else ps + [(key, Void)])]
            && m2[n := m2[n].(properties := Store(m2[n].properties, key, v))] == m1
  {
    StoreRoundTrip(nodes[n].properties, key, v);
  }

  /** The property set after a write, after its undo and after its redo. */
  lemma StoreRoundTrip(ps: Properties, key: Key, v: Value)
    ensures var stored := Store(ps, key, v);
            var restored := Store(stored, key, Lookup(ps, key));
            && Lookup(stored, key) == v
            && (forall k :: k != key ==> Lookup(stored, k) == Lookup(ps, k))
            && restored == (if Defines(ps, key) then ps else ps + [(key, Void)])
            && Store(restored, key, v) == stored
  {
    var stored := Store(ps, key, v);
    forall k | k != key
      ensures Lookup(stored, k) == Lookup(ps, k)
    {
      StoreKeepsOtherKeys(ps, key, v, k);
    }
    StoreRestores(ps, key, v);
    var restored := Store(stored, key, Lookup(ps, key));
    if !Defines(ps, key) {
      assert restored == ps + [(key, Void)];
      KeyIndexAppended(ps, key, Void);
      KeyIndexAppended(ps, key, v);
    }
  }


  /** addChild and its undo: the child is listed at the requested place with
      this node as parent and this node's binding; undoing detaches it again,
      leaving it unbound. */
  lemma AddChildRoundTrip(w: World, h: ObjId, c: NodeId, index: int)
    requires h in w.handles && w.handles[h] in w.nodes && c in w.nodes && c != w.handles[h]
    requires c !in w.nodes[w.handles[h]].children && w.nodes[c].parent.None?
    ensures var n := w.handles[h];
            var cs := w.nodes[n].children;
            var w1 := TreeRun(w, h, AddChild(c, index), false).0;
            && w1.nodes[c].parent == Some(n) && w1.nodes[c].bound == w.nodes[n].bound
            && (0 <= index <= |cs| ==> w1.nodes[n].children == cs[..index] + [c] + cs[index..])
            && (!(0 <= index <= |cs|) ==> w1.nodes[n].children == cs + [c])
            && TreeRun(w1, h, AddChild(c, index), true).0.nodes == w.nodes[c := w.nodes[c].(bound := false)]
  {
    var n := w.handles[h];
    AddChildNodes(w, h, c, index, false);
    var w1 := TreeRun(w, h, AddChild(c, index), false).0;
    AddChildNodes(w1, h, c, index, true);
    AttachDetachRoundTrip(w, n, c, index);
    assert Detach(w1, n, c).nodes == Detach(Attach(w, n, c, index), n, c).nodes;
  }

  /** removeChild and its undo: the child leaves the list and loses its parent;
      undoing re-inserts it at the index it had, which restores every node as
      it was, and redoing removes it again. */
  lemma RemoveChildRoundTrip(w: World, h: ObjId, c: NodeId)
    requires h in w.handles && w.handles[h] in w.nodes && c in w.nodes && c != w.handles[h]
    requires c in w.nodes[w.handles[h]].children && NoDup(w.nodes[w.handles[h]].children)
    requires w.nodes[c].parent == Some(w.handles[h]) && w.nodes[c].bound == w.nodes[w.handles[h]].bound
    ensures var n := w.handles[h];
            var a := RemoveChild(c, IndexOf(w.nodes[n].children, c));
            var w1 := TreeRun(w, h, a, false).0;
            var w2 := TreeRun(w1, h, a, true).0;
            && c !in w1.nodes[n].children && w1.nodes[c].parent.None?
            && w2.nodes == w.nodes
            && TreeRun(w2, h, a, false).0.nodes == w1.nodes
  {
    var n := w.handles[h];
    var cs := w.nodes[n].children;
    var a := RemoveChild(c, IndexOf(cs, c));
    RemoveFirstNoDup(cs, c);
    RemoveChildNodes(w, h, c, IndexOf(cs, c), false);
    var w1 := TreeRun(w, h, a, false).0;
    assert w1.nodes == Detach(w, n, c).nodes;
    RemoveChildNodes(w1, h, c, IndexOf(cs, c), true);
    var w2 := TreeRun(w1, h, a, true).0;
    DetachAttachRestores(w, n, c);
    assert w2.nodes == Attach(Detach(w, n, c), n, c, IndexOf(cs, c)).nodes;
    RemoveChildNodes(w2, h, c, IndexOf(cs, c), false);
  }
}

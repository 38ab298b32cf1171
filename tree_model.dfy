/** The data of the property tree (yup::DataModelTree): nodes in an arena keyed
    by node id, their listeners, the live handle objects, and the log of
    listener callbacks. Reference counting is replaced by the arena (a node
    is never freed while anything can reach it), a node's `parent` weak
    reference by an optional id, and a handle object (`DataModelTree`) by
    an object id that maps to the node it points at. */
module TreeModel {
  import opened Common

  type NodeId = nat
  type ObjId = nat
  type Key = string

  /** var: the kinds of value stored; Void is also what a missing key reads as. */
  datatype Value = Void | IntValue(i: int) | BoolValue(b: bool) | TextValue(s: string)

  /** NamedValueSet: the properties in insertion order. */
  type Properties = seq<(Key, Value)>

  /** DataObject: type id, properties, children, parent, and whether an undo
      manager is bound (the `undoManager` pointer). */
  datatype Node = Node(typeId: Key, properties: Properties, children: seq<NodeId>, parent: Option<NodeId>, bound: bool)

  /** A property or child listener (ListenerBase and its subclasses). */
  class Listener {
    /** NotifyAtChildEvents when true, NotifyAtOwnEvents when false. */
    const recursive: bool
    /** The property filter; empty means every key. */
    const ids: seq<Key>
    /** The weakly referenced object of a LambdaPropertyListener; None for a
        listener that is never dangling. */
    const weakTarget: Option<ObjId>
    var numAttachments: int

    constructor (recursive: bool, ids: seq<Key>, weakTarget: Option<ObjId>)
      ensures this.recursive == recursive && this.ids == ids && this.weakTarget == weakTarget
      ensures numAttachments == 0
    {
      this.recursive := recursive;
      this.ids := ids;
      this.weakTarget := weakTarget;
      numAttachments := 0;
    }

    /** PropertyListener::matches. */
    predicate Matches(id: Key)
    {
      |ids| == 0 || id in ids
    }

    /** ListenerBase::attach: count one registration up or down, never below 0. */
    method Attach(addAsListener: bool)
      requires numAttachments >= 0
      modifies this
      ensures numAttachments >= 0
      ensures addAsListener ==> numAttachments == old(numAttachments) + 1
      ensures !addAsListener ==> numAttachments == Max(0, old(numAttachments) - 1)
    {
      numAttachments := numAttachments + (if addAsListener then 1 else -1);
      numAttachments := Max(0, numAttachments);
    }

    /** The destructor's assertion: no registration may be outstanding. */
    ghost predicate MayBeDestroyed()
      reads this
    {
      numAttachments == 0
    }
  }

  /** DataObject::Listeners: the owned lambda listeners, the property listener
      list and the child listener list. */
  datatype Listeners = Listeners(lambdas: seq<Listener>, props: seq<Listener>, childs: seq<Listener>)

  /** One listener callback: propertyChanged(tree, key) or
      childAddedOrRemoved(child, wasAdded) on the listeners of `parent`. */
  datatype Event =
    | PropertyFired(listener: Listener, tree: NodeId, key: Key)
    | ChildFired(listener: Listener, parent: NodeId, child: NodeId, wasAdded: bool)

  /** The nodes, the listeners per node (a node without a Listeners object has
      no entry), the live handle objects and the node each points at, the
      other live objects a lambda listener may reference, and the callbacks
      made so far. */
  datatype World = World(
    nodes: map<NodeId, Node>,
    registry: map<NodeId, Listeners>,
    handles: map<ObjId, NodeId>,
    objects: set<ObjId>,
    events: seq<Event>)

  /** A handle's data pointer: None is an empty handle. */
  type Handle = Option<NodeId>

  /** The object behind a weak reference still exists. */
  predicate Alive(w: World, o: ObjId)
  {
    o in w.handles || o in w.objects
  }

  /** LambdaPropertyListener::isDangling (false for every other listener). */
  predicate IsDangling(w: World, l: Listener)
  {
    l.weakTarget.Some? && !Alive(w, l.weakTarget.value)
  }

  // ---------------------------------------------------------------------------
  // NamedValueSet

  /** The position of key k, or -1. */
  function KeyIndex(ps: Properties, k: Key): (r: int)
    ensures -1 <= r < |ps|
    ensures 0 <= r ==> ps[r].0 == k && forall i :: 0 <= i < r ==> ps[i].0 != k
    ensures r == -1 ==> forall i :: 0 <= i < |ps| ==> ps[i].0 != k
  {
    if |ps| == 0 then -1
    else if ps[0].0 == k then 0
    else
      var r := KeyIndex(ps[1..], k);
      if r == -1 then -1 else r + 1
  }

  /** NamedValueSet::contains. */
  predicate Defines(ps: Properties, k: Key)
  {
    KeyIndex(ps, k) >= 0
  }

  /** NamedValueSet::operator[]: the stored value, or Void when absent. */
  function Lookup(ps: Properties, k: Key): Value
  {
    var i := KeyIndex(ps, k);
    if i >= 0 then ps[i].1 else Void
  }

  /** NamedValueSet::set: replace in place, otherwise append. */
  function Store(ps: Properties, k: Key, v: Value): (r: Properties)
    ensures Defines(r, k) && Lookup(r, k) == v
    ensures |r| == if Defines(ps, k) then |ps| else |ps| + 1
    ensures forall i :: 0 <= i < |ps| ==> r[i].0 == ps[i].0
  {
    var i := KeyIndex(ps, k);
    if i >= 0 then
      KeyIndexSameKeys(ps, ps[i := (k, v)], k);
      ps[i := (k, v)]
    else
      KeyIndexAppended(ps, k, v);
      ps + [(k, v)]
  }

  lemma {:induction false} KeyIndexAppended(ps: Properties, k: Key, v: Value)
    requires KeyIndex(ps, k) == -1
    ensures KeyIndex(ps + [(k, v)], k) == |ps|
  {
    if |ps| > 0 {
      assert (ps + [(k, v)])[1..] == ps[1..] + [(k, v)];
      KeyIndexAppended(ps[1..], k, v);
    }
  }

  lemma {:induction false} KeyIndexSameKeys(ps: Properties, qs: Properties, k: Key)
    requires |ps| <= |qs|
    requires forall i :: 0 <= i < |ps| ==> ps[i].0 == qs[i].0
    requires KeyIndex(ps, k) >= 0 || |ps| == |qs|
    ensures KeyIndex(qs, k) == KeyIndex(ps, k)
  {
    if |ps| > 0 && ps[0].0 != k {
      KeyIndexSameKeys(ps[1..], qs[1..], k);
    }
  }

  /** Writing k leaves every other key as it was, defined or not. */
  lemma StoreKeepsOtherKeys(ps: Properties, k: Key, v: Value, k2: Key)
    requires k2 != k
    ensures Defines(Store(ps, k, v), k2) == Defines(ps, k2)
    ensures Lookup(Store(ps, k, v), k2) == Lookup(ps, k2)
  {
    var r := Store(ps, k, v);
    if KeyIndex(ps, k2) >= 0 || !Defines(ps, k) {
      if !Defines(ps, k) && KeyIndex(ps, k2) < 0 {
        assert forall i :: 0 <= i < |r| ==> r[i].0 != k2;
      } else {
        KeyIndexSameKeys(ps, r, k2);
      }
    } else {
      KeyIndexSameKeys(ps, r, k2);
    }
  }

  /** Writing back the value a defined key had restores the set exactly; for
      a key that was absent it leaves the key defined as Void. */
  lemma StoreRestores(ps: Properties, k: Key, v: Value)
    ensures Defines(ps, k) ==> Store(Store(ps, k, v), k, Lookup(ps, k)) == ps
    ensures !Defines(ps, k) ==> Store(Store(ps, k, v), k, Lookup(ps, k)) == ps + [(k, Void)]
  {
    var r := Store(ps, k, v);
    if Defines(ps, k) {
      KeyIndexSameKeys(ps, r, k);
    } else {
      assert forall i :: 0 <= i < |ps| ==> ps[i].0 != k;
      assert KeyIndex(r, k) == |ps| by {
        KeyIndexSameKeys(r, r, k);
      }
    }
  }

  // ---------------------------------------------------------------------------
  // Queries on a handle

  /** operator bool, restricted to handles whose node is in the arena. */
  predicate Bound(w: World, t: Handle)
  {
    t.Some? && t.value in w.nodes
  }

  /** getNumChildren: the length of the child list, 0 for an empty handle. */
  function GetNumChildren(w: World, t: Handle): (r: nat)
    ensures Bound(w, t) ==> r == |w.nodes[t.value].children|
    ensures !Bound(w, t) ==> r == 0
  {
    if Bound(w, t) then |w.nodes[t.value].children| else 0
  }

  /** getChild: an out-of-range index or an empty handle gives an empty handle. */
  function GetChild(w: World, t: Handle, index: int): (r: Handle)
    ensures r.Some? <==> Bound(w, t) && 0 <= index < |w.nodes[t.value].children|
    ensures r.Some? ==> r == Some(w.nodes[t.value].children[index])
  {
    if Bound(w, t) && 0 <= index < |w.nodes[t.value].children| then Some(w.nodes[t.value].children[index]) else None
  }

  /** indexOf: the child's position, -1 when absent or either handle is empty. */
  function IndexOfChild(w: World, t: Handle, child: Handle): (r: int)
    ensures !Bound(w, t) || child.None? ==> r == -1
    ensures r >= 0 ==> r < GetNumChildren(w, t) && GetChild(w, t, r) == child
    ensures r == -1 && Bound(w, t) && child.Some? ==> child.value !in w.nodes[t.value].children
  {
    if Bound(w, t) && child.Some? then IndexOf(w.nodes[t.value].children, child.value) else -1
  }

  /** The indices getChild answers are exactly 0 .. getNumChildren - 1, and
      every child is answered at some index. */
  lemma ChildIndicesAreCount(w: World, t: Handle)
    ensures forall i :: GetChild(w, t, i).Some? <==> 0 <= i < GetNumChildren(w, t)
    ensures Bound(w, t) ==> forall c :: c in w.nodes[t.value].children ==>
              exists i :: 0 <= i < GetNumChildren(w, t) && GetChild(w, t, i) == Some(c)
  {
    if Bound(w, t) {
      var cs := w.nodes[t.value].children;
      forall c | c in cs
        ensures exists i :: 0 <= i < GetNumChildren(w, t) && GetChild(w, t, i) == Some(c)
      {
        var i := IndexOf(cs, c);
        assert GetChild(w, t, i) == Some(c);
      }
    }
  }

  /** getChild and indexOf are inverse on a list without repetitions. */
  lemma GetChildIndexOf(w: World, t: Handle, index: int)
    requires Bound(w, t) && NoDup(w.nodes[t.value].children)
    requires 0 <= index < GetNumChildren(w, t)
    ensures IndexOfChild(w, t, GetChild(w, t, index)) == index
  {
    var cs := w.nodes[t.value].children;
    assert cs[index] in cs;
  }

  predicate HasType(w: World, c: NodeId, id: Key)
  {
    c in w.nodes && w.nodes[c].typeId == id
  }

  /** The position of the first of cs whose node has type id, or -1. */
  function FirstWithType(w: World, cs: seq<NodeId>, id: Key): (r: int)
    ensures -1 <= r < |cs|
    ensures r >= 0 ==> HasType(w, cs[r], id)
    ensures forall i :: 0 <= i < |cs| && (r == -1 || i < r) ==> !HasType(w, cs[i], id)
  {
    if |cs| == 0 then -1
    else if HasType(w, cs[0], id) then 0
    else
      var r := FirstWithType(w, cs[1..], id);
      if r == -1 then -1 else r + 1
  }

  /** getChildWithName: the first child with the given type id. */
  function GetChildWithName(w: World, t: Handle, id: Key): (r: Handle)
    ensures r.Some? ==> Bound(w, t) && r.value in w.nodes[t.value].children && HasType(w, r.value, id)
    ensures r.Some? ==> exists i :: 0 <= i < |w.nodes[t.value].children| && w.nodes[t.value].children[i] == r.value
                                    && forall k :: 0 <= k < i ==> !HasType(w, w.nodes[t.value].children[k], id)
    ensures r.None? && Bound(w, t) ==>
              forall c :: c in w.nodes[t.value].children ==> !HasType(w, c, id)
  {
    if Bound(w, t) then
      var cs := w.nodes[t.value].children;
      var i := FirstWithType(w, cs, id);
      if i >= 0 then Some(cs[i]) else None
    else None
  }

  /** getParent. */
  function GetParent(w: World, t: Handle): (r: Handle)
    ensures Bound(w, t) ==> r == w.nodes[t.value].parent
    ensures !Bound(w, t) ==> r.None?
  {
    if Bound(w, t) then w.nodes[t.value].parent else None
  }

  /** getType: the empty identifier for an empty handle. */
  function GetType(w: World, t: Handle): Key
  {
    if Bound(w, t) then w.nodes[t.value].typeId else ""
  }

  /** isChildOf: compares the parent link with the other handle's data
      pointer, so a root counts as a child of the empty handle. */
  function IsChildOf(w: World, t: Handle, possibleParent: Handle): (r: bool)
    ensures !Bound(w, t) ==> !r
    ensures r && possibleParent.Some? ==> GetParent(w, t) == possibleParent
  {
    Bound(w, t) && w.nodes[t.value].parent == possibleParent
  }

  /** With a bound node, isChildOf(p) for a non-empty p is exactly "p is the
      parent" and the empty handle is the parent of every root. */
  lemma IsChildOfParent(w: World, t: Handle, p: Handle)
    requires Bound(w, t)
    ensures p.Some? ==> (IsChildOf(w, t, p) <==> GetParent(w, t) == p)
    ensures p.None? ==> (IsChildOf(w, t, p) <==> GetParent(w, t).None?)
  {
  }
}

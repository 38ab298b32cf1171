/** Property access on the property tree: the stack accessor Property<T>
    that operator[] hands out and the PropertyIterator over a node's stored
    properties. Writing through an accessor is Forest.SetProperty. */
module TreeProperty {
  import opened Common
  import opened TreeModel

  /** Property<T>: the parent pointer and the key. The pointer is null (None)
      or points at a handle object, given here by that handle's own data
      pointer, which is None when the handle is empty. */
  datatype Property = Property(parent: Option<Handle>, id: Key)

  /** The accessor can be read without dereferencing null: it is unbound, or
      its handle points at a node of the arena. */
  predicate Readable(w: World, p: Property)
  {
    p.parent.Some? ==> p.parent.value.Some? && p.parent.value.value in w.nodes
  }

  /** operator[](id): an accessor bound to the handle, or an unbound accessor
      with the empty key for an empty handle. */
  function Access(t: Handle, id: Key): (r: Property)
    ensures r.parent.Some? <==> t.Some?
    ensures t.Some? ==> r.parent == Some(t) && r.id == id
    ensures t.None? ==> r.id == ""
  {
    if t.Some? then Property(Some(t), id) else Property(None, "")
  }

  /** operator bool: the parent pointer is not null, whether or not the handle
      it points at is empty. */
  predicate IsBound(p: Property)
  {
    p.parent.Some?
  }

  /** get(default): the stored value when bound (Void for an absent key, the
      default is then not used), the default otherwise. */
  function Get(w: World, p: Property, default: Value): Value
    requires Readable(w, p)
  {
    if p.parent.Some? then Lookup(w.nodes[p.parent.value.value].properties, p.id) else default
  }

  /** isDefined: bound and the key is stored. */
  predicate IsDefined(w: World, p: Property)
    requires Readable(w, p)
  {
    p.parent.Some? && Defines(w.nodes[p.parent.value.value].properties, p.id)
  }

  /** The default only matters for an unbound accessor; a bound accessor whose
      key is not stored reads Void, and one whose key is stored reads the
      stored value. */
  lemma GetUsesDefaultOnlyWhenUnbound(w: World, p: Property, d1: Value, d2: Value)
    requires Readable(w, p)
    ensures IsBound(p) ==> Get(w, p, d1) == Get(w, p, d2)
    ensures !IsBound(p) ==> Get(w, p, d1) == d1
    ensures IsBound(p) && !IsDefined(w, p) ==> Get(w, p, d1) == Void
    ensures IsDefined(w, p) ==>
              exists i :: 0 <= i < |w.nodes[p.parent.value.value].properties|
                          && w.nodes[p.parent.value.value].properties[i] == (p.id, Get(w, p, d1))
  {
    if IsDefined(w, p) {
      var ps := w.nodes[p.parent.value.value].properties;
      var i := KeyIndex(ps, p.id);
      assert ps[i] == (p.id, Get(w, p, d1));
    }
  }

  /** PropertyIterator: one accessor per stored property, in stored order.
      `parent` is the data pointer of the handle the iterator refers to. */
  class PropertyIterator {
    var properties: seq<Property>
    const parent: Handle

    /** The constructor's loop over the node's properties. */
    constructor (w: World, parent: Handle)
      requires parent.Some? ==> parent.value in w.nodes
      ensures this.parent == parent
      ensures parent.None? ==> properties == []
      ensures parent.Some? ==> |properties| == |w.nodes[parent.value].properties|
      ensures parent.Some? ==> forall i :: 0 <= i < |properties| ==>
                                 properties[i] == Property(Some(parent), w.nodes[parent.value].properties[i].0)
    {
      this.parent := parent;
      properties := [];
      new;
      if parent.Some? {
        var ps := w.nodes[parent.value].properties;
        var i := 0;
        while i < |ps|
          invariant 0 <= i <= |ps| && |properties| == i
          invariant forall j :: 0 <= j < i ==> properties[j] == Property(Some(parent), ps[j].0)
        {
          properties := properties + [Property(Some(parent), ps[i].0)];
          i := i + 1;
        }
      }
    }

    /** All accessors refer to the iterator's handle. */
    ghost predicate Valid()
      reads this
    {
      forall i :: 0 <= i < |properties| ==> properties[i].parent == Some(parent)
    }

    /** operator[](id): the stored accessor for id if there is one, otherwise a
        new accessor bound to the iterator's handle and id. On an iterator over
        an empty handle the accessor is bound, yet reading it would
        dereference the handle's null data pointer. */
    method Find(ghost w: World, id: Key) returns (p: Property)
      requires Valid()
      ensures p == Property(Some(parent), id)
      ensures (exists i :: 0 <= i < |properties| && properties[i].id == id) ==> p in properties
      ensures IsBound(p)
      ensures Readable(w, p) <==> parent.Some? && parent.value in w.nodes
    {
      var i := 0;
      while i < |properties|
        invariant 0 <= i <= |properties|
        invariant forall j :: 0 <= j < i ==> properties[j].id != id
      {
        if properties[i].id == id {
          return properties[i];
        }
        i := i + 1;
      }
      return Property(Some(parent), id);
    }

    /** size(). */
    function Size(): (r: nat)
      reads this
    {
      |properties|
    }

    /** operator[](index), which asserts the index is in range. */
    method At(index: int) returns (p: Property)
      requires 0 <= index < |properties|
      requires Valid()
      ensures p == properties[index] && p.parent == Some(parent)
    {
      p := properties[index];
    }
  }

  /** Iterating a node's properties yields as many accessors as it stores, each
      naming a stored key, each reading the stored value. */
  method IterateProperties(w: World, n: NodeId) returns (it: PropertyIterator)
    requires n in w.nodes
    ensures it.Valid() && it.Size() == |w.nodes[n].properties|
    ensures forall i :: 0 <= i < it.Size() ==> Defines(w.nodes[n].properties, it.properties[i].id)
  {
    it := new PropertyIterator(w, Some(n));
    var ps := w.nodes[n].properties;
    forall i | 0 <= i < it.Size()
      ensures Defines(ps, it.properties[i].id)
    {
      assert it.properties[i].id == ps[i].0;
      assert KeyIndex(ps, ps[i].0) >= 0;
    }
  }
}

/** Recursive iteration over the property tree: forEach (the subtree in
    depth-first pre-order), forEachParent (the node and its ancestors) and
    getRoot. A visitor is a predicate on the node; returning true stops the
    iteration. Depth is bounded by a fuel argument, since the arena itself does
    not rule out a cycle of links. */
module TreeTraversal {
  import opened Common
  import opened TreeModel
  import opened TreeDispatch

  /** The position of the first node the visitor accepts, or -1. */
  function FirstHit(s: seq<NodeId>, f: NodeId -> bool): (r: int)
    ensures -1 <= r < |s|
    ensures r >= 0 ==> f(s[r])
    ensures forall i :: 0 <= i < |s| && (r == -1 || i < r) ==> !f(s[i])
  {
    if |s| == 0 then -1
    else if f(s[0]) then 0
    else
      var r := FirstHit(s[1..], f);
      if r == -1 then -1 else r + 1
  }

  /** What a stopping scan over s reports: whether it stopped, and the nodes
      it visited (up to and including the first accepted one). */
  function Scan(s: seq<NodeId>, f: NodeId -> bool): (r: (bool, seq<NodeId>))
    ensures r.0 <==> exists i :: 0 <= i < |s| && f(s[i])
    ensures r.0 ==> 0 < |r.1| && f(r.1[|r.1| - 1]) && forall i :: 0 <= i < |r.1| - 1 ==> !f(r.1[i])
    ensures !r.0 ==> r.1 == s
    ensures r.1 <= s
  {
    var k := FirstHit(s, f);
    if k >= 0 then (true, s[..k + 1]) else (false, s)
  }

  lemma ScanAppend(a: seq<NodeId>, b: seq<NodeId>, f: NodeId -> bool)
    ensures Scan(a + b, f) == if Scan(a, f).0 then Scan(a, f) else (Scan(b, f).0, a + Scan(b, f).1)
  {
    var ka := FirstHit(a, f);
    var k := FirstHit(a + b, f);
    if ka >= 0 {
      assert (a + b)[ka] == a[ka];
      assert k == ka;
      assert (a + b)[..k + 1] == a[..k + 1];
    } else {
      var kb := FirstHit(b, f);
      if kb >= 0 {
        assert (a + b)[|a| + kb] == b[kb];
        assert k == |a| + kb;
        assert (a + b)[..k + 1] == a + b[..kb + 1];
      }
    }
  }

  /** The subtree of n in depth-first pre-order, to depth fuel. */
  function PreOrder(w: World, n: NodeId, fuel: nat): seq<NodeId>
    decreases fuel, 0, 0
  {
    if n !in w.nodes then []
    else [n] + (if fuel == 0 then [] else PreOrderList(w, w.nodes[n].children, fuel - 1))
  }

  function PreOrderList(w: World, cs: seq<NodeId>, fuel: nat): seq<NodeId>
    decreases fuel, 1, |cs|
  {
    if |cs| == 0 then [] else PreOrder(w, cs[0], fuel) + PreOrderList(w, cs[1..], fuel)
  }

  /** forEach, as the source recurses: the node, then each child's subtree in
      order, stopping at the first node the visitor accepts. The result is
      whether it stopped and the nodes visited. */
  function ForEach(w: World, t: Handle, f: NodeId -> bool, fuel: nat): (r: (bool, seq<NodeId>))
    decreases fuel, 0, 0
  {
    if !Bound(w, t) then (false, [])
    else if f(t.value) then (true, [t.value])
    else if fuel == 0 then (false, [t.value])
    else
      var r := ForEachChildren(w, w.nodes[t.value].children, f, fuel - 1);
      (r.0, [t.value] + r.1)
  }

  function ForEachChildren(w: World, cs: seq<NodeId>, f: NodeId -> bool, fuel: nat): (r: (bool, seq<NodeId>))
    decreases fuel, 1, |cs|
  {
    if |cs| == 0 then (false, [])
    else
      var r := ForEach(w, Some(cs[0]), f, fuel);
      if r.0 then r
      else
        var q := ForEachChildren(w, cs[1..], f, fuel);
        (q.0, r.1 + q.1)
  }

  /** forEach is a stopping scan of the pre-order: it returns true exactly when
      the visitor accepts some node of the subtree, and it visits the
      pre-order up to the first accepted node. An empty handle visits nothing
      and returns false. */
  lemma {:induction false} ForEachIsPreOrderScan(w: World, n: NodeId, f: NodeId -> bool, fuel: nat)
    ensures ForEach(w, Some(n), f, fuel) == Scan(PreOrder(w, n, fuel), f)
    decreases fuel, 0, 0
  {
    if n in w.nodes && !f(n) && fuel > 0 {
      var cs := w.nodes[n].children;
      ForEachChildrenIsPreOrderScan(w, cs, f, fuel - 1);
      ScanAppend([n], PreOrderList(w, cs, fuel - 1), f);
    } else if n in w.nodes && !f(n) {
      ScanAppend([n], [], f);
      assert [n] + [] == [n];
    } else if n in w.nodes {
      ScanAppend([n], if fuel == 0 then [] else PreOrderList(w, w.nodes[n].children, fuel - 1), f);
    }
  }

  lemma {:induction false} ForEachChildrenIsPreOrderScan(w: World, cs: seq<NodeId>, f: NodeId -> bool, fuel: nat)
    ensures ForEachChildren(w, cs, f, fuel) == Scan(PreOrderList(w, cs, fuel), f)
    decreases fuel, 1, |cs|
  {
    if |cs| > 0 {
      ForEachIsPreOrderScan(w, cs[0], f, fuel);
      ForEachChildrenIsPreOrderScan(w, cs[1..], f, fuel);
      ScanAppend(PreOrder(w, cs[0], fuel), PreOrderList(w, cs[1..], fuel), f);
    }
  }

  /** forEachParent: the node, then its parent, and so on, stopping at the
      first node the visitor accepts. */
  function ForEachParent(w: World, t: Handle, f: NodeId -> bool, fuel: nat): (r: (bool, seq<NodeId>))
    decreases fuel
  {
    if !Bound(w, t) then (false, [])
    else if f(t.value) then (true, [t.value])
    else
      var p := GetParent(w, t);
      if p.Some? && fuel > 0 then
        var r := ForEachParent(w, p, f, fuel - 1);
        (r.0, [t.value] + r.1)
      else (false, [t.value])
  }

  /** Every node on the parent chain is in the arena. */
  predicate ChainInArena(w: World, n: NodeId, fuel: nat)
  {
    forall i :: 0 <= i < |Chain(w, n, fuel)| ==> Chain(w, n, fuel)[i] in w.nodes
  }

  /** forEachParent is a stopping scan of the node and its ancestors. */
  lemma {:induction false} ForEachParentIsChainScan(w: World, n: NodeId, f: NodeId -> bool, fuel: nat)
    requires ChainInArena(w, n, fuel)
    ensures ForEachParent(w, Some(n), f, fuel) == Scan(Chain(w, n, fuel), f)
    decreases fuel
  {
    var p := GetParent(w, Some(n));
    assert Chain(w, n, fuel)[0] == n;
    if p.Some? && fuel > 0 {
      var rest := Chain(w, p.value, fuel - 1);
      assert Chain(w, n, fuel) == [n] + rest;
      assert forall i :: 0 <= i < |rest| ==> rest[i] == Chain(w, n, fuel)[i + 1];
      if !f(n) {
        ForEachParentIsChainScan(w, p.value, f, fuel - 1);
      }
      ScanAppend([n], rest, f);
    } else {
      assert Chain(w, n, fuel) == [n];
    }
  }

  /** The parent chain from n ends at a root within fuel steps. */
  predicate EndsAtRoot(w: World, n: NodeId, fuel: nat)
  {
    var c := Chain(w, n, fuel);
    GetParent(w, Some(c[|c| - 1])).None?
  }

  ghost predicate ReachesRoot(w: World, n: NodeId)
  {
    exists fuel: nat :: EndsAtRoot(w, n, fuel)
  }

  lemma EndsAtRootStep(w: World, n: NodeId, fuel: nat)
    requires EndsAtRoot(w, n, fuel) && GetParent(w, Some(n)).Some?
    ensures fuel > 0 && EndsAtRoot(w, GetParent(w, Some(n)).value, fuel - 1)
  {
  }

  /** getRoot: follow parent links while there is a parent. An empty handle
      gives itself; so does a root. */
  method GetRoot(w: World, t: Handle) returns (r: Handle)
    requires t.Some? ==> ReachesRoot(w, t.value)
    ensures r.None? <==> t.None?
    ensures GetParent(w, r).None?
    ensures GetParent(w, t).None? ==> r == t
    ensures r.Some? ==> exists fuel: nat :: r.value in Chain(w, t.value, fuel)
  {
    var p := t;
    var parent := GetParent(w, p);
    if t.None? {
      return t;
    }
    ghost var fuel: nat :| EndsAtRoot(w, t.value, fuel);
    ghost var walked: nat := 0;
    while parent.Some?
      invariant p.Some? && EndsAtRoot(w, p.value, fuel)
      invariant parent == GetParent(w, p)
      invariant p.value in Chain(w, t.value, walked)
      decreases fuel
    {
      EndsAtRootStep(w, p.value, fuel);
      ChainExtends(w, t.value, walked, p.value);
      p := parent;
      parent := GetParent(w, p);
      fuel := fuel - 1;
      walked := walked + 1;
    }
    return p;
  }

  /** If m is on the chain of length k, its parent is on the chain of length
      k + 1. */
  lemma {:induction false} ChainExtends(w: World, n: NodeId, k: nat, m: NodeId)
    requires m in Chain(w, n, k) && GetParent(w, Some(m)).Some?
    ensures GetParent(w, Some(m)).value in Chain(w, n, k + 1)
    decreases k
  {
    var p := GetParent(w, Some(n));
    if m == n {
    } else {
      assert p.Some? && k > 0;
      ChainExtends(w, p.value, k - 1, m);
    }
  }
}

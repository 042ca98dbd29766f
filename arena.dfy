/** The tree `anytree.NodeMixin` maintains, as an arena: node 0 is the root
    and has no parent, and every other node's parent is an earlier node.
    Nodes are only ever appended, so the children of a node, in the order
    they were attached, are the nodes whose parent it is, in increasing
    order. Setting `node.parent = p` appends `node` to `p.children`, which
    is `Attach`. */
module Arena {

  datatype Forest<N> = Forest(nodes: seq<N>, parents: seq<int>)

  /** The nodes `i < n` whose parent is `p`, in increasing order. */
  function IndicesWithParent(parents: seq<int>, p: int, n: nat): seq<nat>
    requires n <= |parents|
  {
    if n == 0 then []
    else IndicesWithParent(parents, p, n - 1) + (if parents[n - 1] == p then [n - 1] else [])
  }

  /** `IndicesWithParent` lists exactly the nodes below `n` whose parent is
      `p`, each once, in increasing order. */
  lemma {:induction false} IndicesWithParentSpec(parents: seq<int>, p: int, n: nat)
    requires n <= |parents|
    ensures var r := IndicesWithParent(parents, p, n);
      && (forall k :: 0 <= k < |r| ==> r[k] < n && parents[r[k]] == p)
      && (forall i :: 0 <= i < n && parents[i] == p ==> i in r)
      && (forall j, k :: 0 <= j < k < |r| ==> r[j] < r[k])
  {
    if n > 0 {
      IndicesWithParentSpec(parents, p, n - 1);
    }
  }

  /** Nodes appended after `n` do not change the list of the first `n`. */
  lemma {:induction false} IndicesWithParentPrefix(parents: seq<int>, extra: seq<int>, p: int, n: nat)
    requires n <= |parents|
    ensures IndicesWithParent(parents + extra, p, n) == IndicesWithParent(parents, p, n)
  {
    if n > 0 {
      IndicesWithParentPrefix(parents, extra, p, n - 1);
      assert (parents + extra)[n - 1] == parents[n - 1];
    }
  }

  predicate Valid<N>(f: Forest<N>) {
    && |f.nodes| >= 1 && |f.parents| == |f.nodes|
    && f.parents[0] == -1
    && (forall i :: 1 <= i < |f.parents| ==> 0 <= f.parents[i] < i)
  }

  /** `node.children`: the nodes whose parent is `p`, oldest first. */
  function Children<N>(f: Forest<N>, p: nat): seq<nat> {
    IndicesWithParent(f.parents, p, |f.parents|)
  }

  /** A tree made of its root alone. */
  function Single<N>(root: N): (f: Forest<N>)
    ensures Valid(f) && f.nodes == [root]
  {
    Forest([root], [-1])
  }

  /** A node has no children among the nodes before it, when every node's
      parent comes earlier. */
  lemma {:induction false} NoChildrenYet(parents: seq<int>, p: int, n: nat)
    requires n <= |parents| && n <= p
    requires forall i :: 0 <= i < n ==> parents[i] < i
    ensures IndicesWithParent(parents, p, n) == []
  {
    if n > 0 {
      NoChildrenYet(parents, p, n - 1);
    }
  }

  /** `node.parent = nodes[p]` for a new node: it is appended with `p` as
      its parent. */
  function Attach<N>(f: Forest<N>, node: N, p: nat): (r: Forest<N>)
    requires Valid(f) && p < |f.nodes|
    ensures Valid(r)
    ensures r.nodes == f.nodes + [node] && r.parents == f.parents + [p]
  {
    Forest(f.nodes + [node], f.parents + [p])
  }

  /** After `Attach`, the new node is the last child of `p`, every other
      node keeps its children, and the new node has none. */
  lemma AttachChildren<N>(f: Forest<N>, node: N, p: nat)
    requires Valid(f) && p < |f.nodes|
    ensures var r := Attach(f, node, p);
      && Children(r, p) == Children(f, p) + [|f.nodes|]
      && (forall q :: 0 <= q < |f.nodes| && q != p ==> Children(r, q) == Children(f, q))
      && Children(r, |f.nodes|) == []
  {
    var n := |f.nodes|;
    var r := Attach(f, node, p);
    forall q | 0 <= q <= n
      ensures Children(r, q) == IndicesWithParent(f.parents, q, n) + (if q == p then [n] else [])
    {
      IndicesWithParentPrefix(f.parents, [p], q, n);
      assert r.parents[n] == p;
    }
    NoChildrenYet(f.parents, n, n);
  }

  /** The children of a node come after it. */
  lemma ChildrenAfterParent<N>(f: Forest<N>, n: nat)
    requires Valid(f) && n < |f.nodes|
    ensures forall j :: 0 <= j < |Children(f, n)| ==>
      n < Children(f, n)[j] < |f.nodes| && f.parents[Children(f, n)[j]] == n
    ensures forall j, k :: 0 <= j < k < |Children(f, n)| ==> Children(f, n)[j] < Children(f, n)[k]
  {
    var ks := Children(f, n);
    assert ks == IndicesWithParent(f.parents, n, |f.parents|);
    IndicesWithParentSpec(f.parents, n, |f.parents|);
    forall j | 0 <= j < |ks| ensures n < ks[j] {
      var c := ks[j];
      assert f.parents[c] == n;
      assert c != 0;
    }
  }

  /** The number of edges from node `i` up to the root. */
  function Depth<N>(f: Forest<N>, i: nat): nat
    requires Valid(f) && i < |f.nodes|
    decreases i
  {
    if i == 0 then 0 else 1 + Depth(f, f.parents[i])
  }

  /** The ancestor of `i` at depth `d`, or `i` itself when it is no deeper
      than `d`. */
  function AncestorAt<N>(f: Forest<N>, i: nat, d: nat): (r: nat)
    requires Valid(f) && i < |f.nodes|
    ensures r < |f.nodes|
    decreases i
  {
    if Depth(f, i) <= d then i else AncestorAt(f, f.parents[i], d)
  }

  /** Every node reaches the root. */
  lemma {:induction false} ReachesRoot<N>(f: Forest<N>, i: nat)
    requires Valid(f) && i < |f.nodes|
    ensures AncestorAt(f, i, 0) == 0
    decreases i
  {
    if i != 0 {
      ReachesRoot(f, f.parents[i]);
    }
  }

  /** Every node is the root or sits below a child of the root or below a
      grandchild of the root and no deeper. */
  predicate Shallow<N>(f: Forest<N>)
    requires Valid(f)
  {
    forall i :: 0 <= i < |f.nodes| ==> Depth(f, i) <= 2
  }

  /** Attaching a node keeps every depth, and the new node is one deeper
      than its parent. */
  lemma {:induction false} AttachDepth<N>(f: Forest<N>, node: N, p: nat, i: nat)
    requires Valid(f) && p < |f.nodes| && i <= |f.nodes|
    ensures var r := Attach(f, node, p);
      Depth(r, i) == if i < |f.nodes| then Depth(f, i) else 1 + Depth(f, p)
    decreases i
  {
    var r := Attach(f, node, p);
    if 0 < i < |f.nodes| {
      AttachDepth(f, node, p, f.parents[i]);
    } else if i == |f.nodes| {
      AttachDepth(f, node, p, p);
    }
  }

  /** Attaching a node under the root or under a child of the root keeps the
      tree shallow. */
  lemma AttachKeepsShallow<N>(f: Forest<N>, node: N, p: nat)
    requires Valid(f) && Shallow(f) && p < |f.nodes| && Depth(f, p) <= 1
    ensures Shallow(Attach(f, node, p))
  {
    var r := Attach(f, node, p);
    forall i | 0 <= i < |r.nodes| ensures Depth(r, i) <= 2 {
      AttachDepth(f, node, p, i);
    }
  }
}

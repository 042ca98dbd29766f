/** `anytree.RenderTree(root)` with its default `ContStyle`: the nodes in
    pre-order, each with the prefix drawn before its name (`pre`) and the
    continuation drawn under it (`fill`). A node's `continues` flags say, for
    each of its ancestors below the root and for itself, whether a later
    sibling follows. */
module RenderTree {
  import opened Arena

  const Vertical: string := "\U{2502}   "
  const Cont: string := "\U{251C}\U{2500}\U{2500} "
  const End: string := "\U{2514}\U{2500}\U{2500} "
  const Blank: string := "    "

  datatype Row = Row(pre: string, fill: string, node: nat)

  /** `''.join(vertical if cont else empty for cont in continues)`. */
  function Glyphs(continues: seq<bool>): (r: string)
    ensures |r| == 4 * |continues|
  {
    if continues == [] then ""
    else
      Glyphs(continues[..|continues| - 1]) + (if continues[|continues| - 1] then Vertical else Blank)
  }

  /** The row of one node: nothing for the root; otherwise the glyphs of
      its ancestors, then a branch that is `Cont` when a later sibling
      follows and `End` when it is the last child. */
  function Item(node: nat, continues: seq<bool>): (r: Row)
    ensures r.node == node
    ensures |r.pre| == 4 * |continues| && |r.fill| == 4 * |continues|
  {
    if continues == [] then Row("", "", node)
    else
      var last := |continues| - 1;
      Row(Glyphs(continues[..last]) + (if continues[last] then Cont else End), Glyphs(continues), node)
  }

  /** The rows of `n` and of everything below it, in pre-order. */
  function Visit<N>(f: Forest<N>, n: nat, continues: seq<bool>): seq<Row>
    requires Valid(f) && n < |f.nodes|
    decreases |f.nodes| - n, 1, 0
  {
    ChildrenAfterParent(f, n);
    [Item(n, continues)] + VisitChildren(f, n, Children(f, n), continues)
  }

  /** The rows of the siblings `ks` (all after `lo`) and their subtrees;
      each is followed by a later sibling except the last. */
  function VisitChildren<N>(f: Forest<N>, lo: nat, ks: seq<nat>, continues: seq<bool>): seq<Row>
    requires Valid(f)
    requires forall j :: 0 <= j < |ks| ==> lo < ks[j] < |f.nodes|
    decreases |f.nodes| - lo, 0, |ks|
  {
    if ks == [] then []
    else Visit(f, ks[0], continues + [|ks| > 1]) + VisitChildren(f, lo, ks[1..], continues)
  }

  /** `RenderTree(root)`. */
  function Render<N>(f: Forest<N>): seq<Row>
    requires Valid(f)
  {
    Visit(f, 0, [])
  }

  function NodesOf(rows: seq<Row>): seq<int> {
    seq(|rows|, k requires 0 <= k < |rows| => rows[k].node)
  }

  /** `i` lies in the subtree of `n`. */
  predicate InSubtree<N>(f: Forest<N>, i: nat, n: nat)
    requires Valid(f) && i < |f.nodes| && n < |f.nodes|
  {
    Depth(f, i) >= Depth(f, n) && AncestorAt(f, i, Depth(f, n)) == n
  }

  /** The ancestor at depth `d` lies at depth `d` when `i` is that deep. */
  lemma {:induction false} AncestorAtDepth<N>(f: Forest<N>, i: nat, d: nat)
    requires Valid(f) && i < |f.nodes|
    ensures Depth(f, AncestorAt(f, i, d)) == if Depth(f, i) <= d then Depth(f, i) else d
    decreases i
  {
    if Depth(f, i) > d {
      AncestorAtDepth(f, f.parents[i], d);
    }
  }

  /** Climbing to depth `e` and then to a shallower depth `d` is climbing to
      depth `d`. */
  lemma {:induction false} AncestorAtCompose<N>(f: Forest<N>, i: nat, d: nat, e: nat)
    requires Valid(f) && i < |f.nodes| && d <= e
    ensures AncestorAt(f, AncestorAt(f, i, e), d) == AncestorAt(f, i, d)
    decreases i
  {
    AncestorAtDepth(f, i, e);
    if Depth(f, i) > e {
      AncestorAtCompose(f, f.parents[i], d, e);
    }
  }

  /** A node `i` strictly below `n` lies below exactly one child of `n`:
      its ancestor one level below `n`. */
  lemma BelowChild<N>(f: Forest<N>, i: nat, n: nat)
    requires Valid(f) && i < |f.nodes| && n < |f.nodes|
    requires InSubtree(f, i, n) && i != n
    ensures var k := AncestorAt(f, i, Depth(f, n) + 1);
      k < |f.nodes| && f.parents[k] == n && InSubtree(f, i, k)
  {
    var d := Depth(f, n);
    var k := AncestorAt(f, i, d + 1);
    AncestorAtDepth(f, i, d + 1);
    AncestorAtDepth(f, i, d);
    assert Depth(f, i) > d;
    assert Depth(f, k) == d + 1;
    assert k != 0;
    AncestorAtCompose(f, i, d, d + 1);
    assert AncestorAt(f, k, d) == AncestorAt(f, f.parents[k], d);
    AncestorAtDepth(f, f.parents[k], d);
  }

  /** A node in the subtree of a child of `n` lies in the subtree of `n`. */
  lemma SubtreeOfChild<N>(f: Forest<N>, i: nat, k: nat)
    requires Valid(f) && i < |f.nodes| && 0 < k < |f.nodes|
    requires InSubtree(f, i, k)
    ensures InSubtree(f, i, f.parents[k]) && i != f.parents[k]
  {
    var n := f.parents[k];
    var d := Depth(f, n);
    AncestorAtCompose(f, i, d, d + 1);
    assert AncestorAt(f, k, d) == AncestorAt(f, n, d);
  }

  /** `x` is a node in the subtree of `n`. */
  predicate Contains<N>(f: Forest<N>, n: nat, x: int)
    requires Valid(f) && n < |f.nodes|
  {
    0 <= x < |f.nodes| && InSubtree(f, x, n)
  }

  lemma ContainsSelf<N>(f: Forest<N>, n: nat)
    requires Valid(f) && n < |f.nodes|
    ensures Contains(f, n, n)
  {
    AncestorAtDepth(f, n, Depth(f, n));
  }

  /** How many of `ks` contain `x` in their subtree. */
  function CountContaining<N>(f: Forest<N>, x: int, ks: seq<nat>): nat
    requires Valid(f)
  {
    if ks == [] then 0
    else (if ks[0] < |f.nodes| && Contains(f, ks[0], x) then 1 else 0) + CountContaining(f, x, ks[1..])
  }

  /** Among the children of `n`, exactly one contains `x` when `x` lies
      strictly below `n`, and none otherwise. */
  lemma ChildrenContaining<N>(f: Forest<N>, x: int, n: nat)
    requires Valid(f) && n < |f.nodes|
    ensures CountContaining(f, x, Children(f, n)) == if Contains(f, n, x) && x != n then 1 else 0
  {
    ChildrenAfterParent(f, n);
    var ks := Children(f, n);
    if 0 <= x < |f.nodes| {
      var i: nat := x;
      forall j | 0 <= j < |ks| && InSubtree(f, i, ks[j])
        ensures InSubtree(f, i, n) && i != n && ks[j] == AncestorAt(f, i, Depth(f, n) + 1)
      {
        SubtreeOfChild(f, i, ks[j]);
      }
      if InSubtree(f, i, n) && i != n {
        BelowChild(f, i, n);
        var k := AncestorAt(f, i, Depth(f, n) + 1);
        IndicesWithParentSpec(f.parents, n, |f.parents|);
        assert k in ks;
        var j :| 0 <= j < |ks| && ks[j] == k;
        CountOne(f, x, ks, j);
      } else {
        CountNone(f, x, ks);
      }
    } else {
      CountNone(f, x, ks);
    }
  }

  /** No element of `ks` contains `x`. */
  lemma {:induction false} CountNone<N>(f: Forest<N>, x: int, ks: seq<nat>)
    requires Valid(f)
    requires forall j :: 0 <= j < |ks| ==> ks[j] < |f.nodes| && !Contains(f, ks[j], x)
    ensures CountContaining(f, x, ks) == 0
  {
    if ks != [] {
      CountNone(f, x, ks[1..]);
    }
  }

  /** Only `ks[j]`, which occurs once, contains `x`. */
  lemma {:induction false} CountOne<N>(f: Forest<N>, x: int, ks: seq<nat>, j: nat)
    requires Valid(f) && j < |ks|
    requires forall m :: 0 <= m < |ks| ==> ks[m] < |f.nodes|
    requires forall m :: 0 <= m < |ks| && Contains(f, ks[m], x) ==> ks[m] == ks[j]
    requires forall a, b :: 0 <= a < b < |ks| ==> ks[a] < ks[b]
    requires Contains(f, ks[j], x)
    ensures CountContaining(f, x, ks) == 1
  {
    if j == 0 {
      CountNone(f, x, ks[1..]);
    } else {
      assert ks[0] < ks[j];
      CountOne(f, x, ks[1..], j - 1);
    }
  }

  lemma NodesOfAppend(a: seq<Row>, b: seq<Row>)
    ensures NodesOf(a + b) == NodesOf(a) + NodesOf(b)
  {
  }

  /** The rows of `Visit(n)` show every node of the subtree of `n` once and
      nothing else. */
  lemma {:induction false} VisitCount<N>(f: Forest<N>, n: nat, continues: seq<bool>, x: int)
    requires Valid(f) && n < |f.nodes|
    ensures multiset(NodesOf(Visit(f, n, continues)))[x] == if Contains(f, n, x) then 1 else 0
    decreases |f.nodes| - n, 1, 0
  {
    ChildrenAfterParent(f, n);
    var ks := Children(f, n);
    var rest := VisitChildren(f, n, ks, continues);
    NodesOfAppend([Item(n, continues)], rest);
    assert NodesOf([Item(n, continues)]) == [n];
    VisitChildrenCount(f, n, ks, continues, x);
    ChildrenContaining(f, x, n);
    ContainsSelf(f, n);
  }

  lemma {:induction false} VisitChildrenCount<N>(f: Forest<N>, lo: nat, ks: seq<nat>, continues: seq<bool>, x: int)
    requires Valid(f)
    requires forall j :: 0 <= j < |ks| ==> lo < ks[j] < |f.nodes|
    ensures multiset(NodesOf(VisitChildren(f, lo, ks, continues)))[x] == CountContaining(f, x, ks)
    decreases |f.nodes| - lo, 0, |ks|
  {
    if ks != [] {
      var first := Visit(f, ks[0], continues + [|ks| > 1]);
      var rest := VisitChildren(f, lo, ks[1..], continues);
      NodesOfAppend(first, rest);
      VisitCount(f, ks[0], continues + [|ks| > 1], x);
      VisitChildrenCount(f, lo, ks[1..], continues, x);
    }
  }

  /** `range(n)` holds each of `0 .. n-1` once. */
  lemma {:induction false} RangeCount(n: nat, x: int)
    ensures multiset(seq(n, k => k))[x] == if 0 <= x < n then 1 else 0
  {
    if n > 0 {
      RangeCount(n - 1, x);
      assert seq(n, k => k) == seq(n - 1, k => k) + [n - 1];
    }
  }

  /** `RenderTree(root)` shows every node of the tree exactly once. */
  lemma RenderIsPermutation<N>(f: Forest<N>)
    requires Valid(f)
    ensures multiset(NodesOf(Render(f))) == multiset(seq(|f.nodes|, k => k))
    ensures |Render(f)| == |f.nodes|
  {
    var rows := NodesOf(Render(f));
    var all := seq(|f.nodes|, k => k);
    forall x: int ensures multiset(rows)[x] == multiset(all)[x] {
      RangeCount(|f.nodes|, x);
      VisitCount(f, 0, [], x);
      if 0 <= x < |f.nodes| {
        ReachesRoot(f, x);
      }
    }
    assert multiset(rows) == multiset(all);
    assert |multiset(rows)| == |rows|;
  }

  /** A row is drawn for a node of the tree and indented by four columns
      per level of that node's depth. */
  predicate Indented<N>(f: Forest<N>, r: Row)
    requires Valid(f)
  {
    r.node < |f.nodes| && |r.pre| == 4 * Depth(f, r.node) && |r.fill| == |r.pre|
  }

  /** Every row of `Visit(n)` is indented by its depth when `n`'s own flags
      number its depth. */
  lemma {:induction false} VisitIndents<N>(f: Forest<N>, n: nat, continues: seq<bool>)
    requires Valid(f) && n < |f.nodes| && |continues| == Depth(f, n)
    ensures forall r :: r in Visit(f, n, continues) ==> Indented(f, r)
    decreases |f.nodes| - n, 1, 0
  {
    ChildrenAfterParent(f, n);
    var rest := VisitChildren(f, n, Children(f, n), continues);
    VisitChildrenIndents(f, n, Children(f, n), continues);
    var rows := [Item(n, continues)] + rest;
    assert Visit(f, n, continues) == rows;
    assert Indented(f, Item(n, continues));
  }

  lemma {:induction false} VisitChildrenIndents<N>(f: Forest<N>, lo: nat, ks: seq<nat>, continues: seq<bool>)
    requires Valid(f) && lo < |f.nodes|
    requires forall j :: 0 <= j < |ks| ==> lo < ks[j] < |f.nodes| && f.parents[ks[j]] == lo
    requires |continues| == Depth(f, lo)
    ensures forall r :: r in VisitChildren(f, lo, ks, continues) ==> Indented(f, r)
    decreases |f.nodes| - lo, 0, |ks|
  {
    if ks != [] {
      assert Depth(f, ks[0]) == 1 + Depth(f, lo);
      VisitIndents(f, ks[0], continues + [|ks| > 1]);
      VisitChildrenIndents(f, lo, ks[1..], continues);
    }
  }

  /** `RenderTree(root)` starts with the root, drawn with no prefix, and
      indents every node by its depth. */
  lemma RenderIndents<N>(f: Forest<N>)
    requires Valid(f)
    ensures Render(f)[0] == Row("", "", 0)
    ensures forall r :: r in Render(f) ==> Indented(f, r)
  {
    VisitIndents(f, 0, []);
  }
}

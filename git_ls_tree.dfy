/** `GitLsTree` of the current version of the program: the root of the tree
    `git ls-tree -rtl --full-tree` describes, the options of the query, the
    building of the tree from the lines git prints, and the rendering of the
    tree as aligned columns. */
module GitLsTree {
  import opened Wrappers
  import opened Strings
  import opened LsTreeLine
  import opened Arena
  import opened RenderTree
  import opened GitLsTreeNode

  const BaseGitLsTreeCall: seq<string> := ["git", "ls-tree", "-rtl", "--full-tree"]
  const MinimumAbbrevJustification: int := 6
  const DefaultAbbrevLength: int := 40

  /** The root: `GitLsTreeNode(name='root')`, renamed to the tree-ish and
      given the column headers as its mode, type, object and size. */
  function RootNode(treeIsh: string): (n: Node)
    ensures n.name == treeIsh && n.relativePath == "" && n.basename == "" && n.explodedPath == []
    ensures n.fileMode == "mode" && n.itemType == "type" && n.gitObject == "object" && n.gitObjectSize == "size"
  {
    NodeOf("", "root", Current).(name := treeIsh, fileMode := "mode", itemType := "type",
      gitObject := "object", gitObjectSize := "size")
  }

  /** The second half of one pass of the loop of `parse_tree_ish`:
      `walk_to_parent_node` is called on the root with the node's exploded
      path, and the node, now holding what the walk left of that list, is
      attached under the node found. */
  function AttachNode(f: Forest<Node>, node: Node): (r: Result<Forest<Node>, WalkError>)
    requires Valid(f)
    ensures r.Ok? ==>
      && Valid(r.value) && |r.value.nodes| == |f.nodes| + 1
      && r.value.nodes[..|f.nodes|] == f.nodes && r.value.parents[..|f.nodes|] == f.parents
      && r.value.nodes[|f.nodes|].raw == node.raw
  {
    var (parent, remaining) := Walk(f, 0, node.explodedPath);
    match parent
    case Err(e) => Err(e)
    case Ok(p) =>
      var g := Attach(f, node.(explodedPath := remaining), p);
      assert g.nodes[..|f.nodes|] == f.nodes && g.parents[..|f.nodes|] == f.parents;
      Ok(g)
  }

  /** Where a node is attached: a node with a single segment under the
      root; a node with more under the first child of the root named by its
      first segment, keeping the other segments. */
  lemma AttachNodeParent(f: Forest<Node>, node: Node)
    requires Valid(f) && AttachNode(f, node).Ok?
    ensures var g := AttachNode(f, node).value;
      var n := |f.nodes|;
      var e := node.explodedPath;
      && g == Attach(f, g.nodes[n], g.parents[n])
      && g.nodes[n] == node.(explodedPath := g.nodes[n].explodedPath)
      && |e| >= 1
      && (|e| == 1 ==> g.parents[n] == 0 && g.nodes[n].explodedPath == e)
      && (|e| >= 2 ==>
        && 0 < g.parents[n] < n && f.parents[g.parents[n]] == 0
        && f.nodes[g.parents[n]].basename == e[0] && g.nodes[n].explodedPath == e[1..])
  {
    if |node.explodedPath| >= 2 {
      WalkFinds(f, 0, node.explodedPath);
    }
  }

  /** Why a node is not attached: `IndexError` exactly when it has no
      exploded path; otherwise `BrokenTreeError(root, first segment)`, and
      no child of the root has that name. */
  lemma AttachNodeFailure(f: Forest<Node>, node: Node)
    requires Valid(f) && AttachNode(f, node).Err?
    ensures var r := AttachNode(f, node);
      var e := node.explodedPath;
      && (r.error.IndexError? <==> e == [])
      && |e| != 1
      && (|e| >= 2 ==>
        && (forall c :: c in Children(f, 0) ==> c < |f.nodes| && f.nodes[c].basename != e[0])
        && r.error.Broken? && r.error.error.owningNode == 0 && r.error.error.unknownChild == e[0])
  {
    if |node.explodedPath| >= 2 {
      WalkRaises(f, 0, node.explodedPath);
    }
  }

  /** What `parse_tree_ish` leaves: the tree, and the exception that
      stopped it, if any. */
  datatype Built = Built(tree: Forest<Node>, failure: Option<WalkError>)

  /** All lines are of nodes that can be built. */
  predicate AllConstructible(lines: seq<string>, d: Dialect) {
    forall k :: 0 <= k < |lines| ==> Constructible(lines[k], d)
  }

  /** The node of each line, as `GitLsTreeNode(raw_git_output)` builds it:
      it keeps its line; a line that does not match gives a node with every
      field empty; a line that matches gives its groups, and a path exploded
      into segments that end with its basename. */
  function NodesOfLines(lines: seq<string>, d: Dialect): (ns: seq<Node>)
    requires AllConstructible(lines, d)
    ensures |ns| == |lines|
    ensures forall k :: 0 <= k < |lines| ==> ns[k] == NodeOf(lines[k], "", d)
    ensures forall k :: 0 <= k < |lines| ==> ns[k].raw == lines[k]
    ensures forall k :: 0 <= k < |lines| && MatchLine(lines[k], d).None? ==> ns[k] == EmptyNode(lines[k], "")
    ensures forall k :: 0 <= k < |lines| && MatchLine(lines[k], d).Some? ==>
      var m := MatchLine(lines[k], d).value;
      && ns[k].fileMode == m.fileMode && ns[k].itemType == m.itemType
      && ns[k].gitObject == m.gitObject && ns[k].gitObjectSize == m.gitObjectSize
      && ns[k].relativePath == m.relativePath && ns[k].name == ns[k].basename
      && (m.relativePath != "" ==>
        && ns[k].explodedPath == ConvertPath(m.relativePath, d)
        && ns[k].explodedPath[|ns[k].explodedPath| - 1] == ns[k].basename)
  {
    seq(|lines|, k requires 0 <= k < |lines| => NodeOf(lines[k], "", d))
  }

  /** The loop of `parse_tree_ish` on the nodes of its lines: they are
      attached one by one, in order, until one raises. */
  function Build(f: Forest<Node>, nodes: seq<Node>): (b: Built)
    requires Valid(f)
    ensures Valid(b.tree)
    ensures |f.nodes| <= |b.tree.nodes| <= |f.nodes| + |nodes|
    decreases |nodes|
  {
    if nodes == [] then Built(f, None)
    else
      match AttachNode(f, nodes[0])
      case Err(e) => Built(f, Some(e))
      case Ok(g) => Build(g, nodes[1..])
  }

  /** The old nodes and their parents are untouched. */
  lemma {:induction false} BuildKeepsOldNodes(f: Forest<Node>, nodes: seq<Node>)
    requires Valid(f)
    ensures var b := Build(f, nodes);
      b.tree.nodes[..|f.nodes|] == f.nodes && b.tree.parents[..|f.nodes|] == f.parents
    decreases |nodes|
  {
    if nodes != [] {
      match AttachNode(f, nodes[0])
      case Err(_) =>
      case Ok(g) =>
        BuildKeepsOldNodes(g, nodes[1..]);
        var b := Build(g, nodes[1..]);
        assert b.tree.nodes[..|f.nodes|] == b.tree.nodes[..|g.nodes|][..|f.nodes|];
        assert b.tree.parents[..|f.nodes|] == b.tree.parents[..|g.nodes|][..|f.nodes|];
    }
  }

  /** The raw lines of some nodes, in order. */
  function Raws(ns: seq<Node>): (rs: seq<string>)
    ensures |rs| == |ns|
    ensures forall j :: 0 <= j < |ns| ==> rs[j] == ns[j].raw
  {
    seq(|ns|, j requires 0 <= j < |ns| => ns[j].raw)
  }

  /** The nodes added are those of the nodes attached, in order: the node
      at position `j` past the old ones comes from line `j`. */
  lemma {:induction false} BuildAddsInOrder(f: Forest<Node>, nodes: seq<Node>)
    requires Valid(f)
    ensures var b := Build(f, nodes);
      Raws(b.tree.nodes) == Raws(f.nodes) + Raws(nodes[..|b.tree.nodes| - |f.nodes|])
    decreases |nodes|
  {
    if nodes != [] {
      match AttachNode(f, nodes[0])
      case Err(_) =>
      case Ok(g) =>
        var rest := nodes[1..];
        BuildAddsInOrder(g, rest);
        var t := Build(g, rest).tree;
        var k := |t.nodes| - |g.nodes|;
        assert Raws(g.nodes) == Raws(f.nodes) + [nodes[0].raw];
    }
  }

  /** The loop stops exactly at the first node whose walk raises, attaching
      nothing for it and returning that exception; with no exception every
      node is attached. */
  lemma {:induction false} BuildStops(f: Forest<Node>, nodes: seq<Node>)
    requires Valid(f)
    ensures var b := Build(f, nodes);
      var k := |b.tree.nodes| - |f.nodes|;
      && (b.failure.None? <==> k == |nodes|)
      && (b.failure.Some? ==> AttachNode(b.tree, nodes[k]) == Err(b.failure.value))
    decreases |nodes|
  {
    if nodes != [] {
      match AttachNode(f, nodes[0])
      case Err(_) =>
      case Ok(g) =>
        BuildStops(g, nodes[1..]);
        var b := Build(g, nodes[1..]);
        var k := |b.tree.nodes| - |g.nodes|;
        assert b == Build(f, nodes);
        if b.failure.Some? {
          assert nodes[1..][k] == nodes[k + 1];
        }
    }
  }

  /** `parse_tree_ish(raw_lines)`. */
  function ParseLines(f: Forest<Node>, lines: seq<string>, d: Dialect): Built
    requires Valid(f) && AllConstructible(lines, d)
  {
    Build(f, NodesOfLines(lines, d))
  }

  /** The loop of `parse_tree_ish`: a node per line, attached under what
      `walk_to_parent_node` finds from the root; the first exception stops
      the loop and is returned. */
  method AttachLines(f: Forest<Node>, rawLines: seq<string>, d: Dialect)
    returns (tree: Forest<Node>, failure: Option<WalkError>)
    requires Valid(f) && AllConstructible(rawLines, d)
    ensures Built(tree, failure) == ParseLines(f, rawLines, d)
  {
    ghost var nodes := NodesOfLines(rawLines, d);
    tree := f;
    for i := 0 to |rawLines|
      invariant Valid(tree)
      invariant Build(f, nodes) == Build(tree, nodes[i..])
    {
      var rawGitOutput := rawLines[i];
      var childNode := NewNode(rawGitOutput, "", d);
      var parent, remaining := WalkToParentNode(tree, 0, childNode.explodedPath);
      assert nodes[i..][0] == childNode && nodes[i..][1..] == nodes[i + 1..];
      if parent.Err? {
        return tree, Some(parent.error);
      }
      childNode := childNode.(explodedPath := remaining);
      tree := Attach(tree, childNode, parent.value);
    }
    failure := None;
  }

  /** Every node `parse_tree_ish` adds hangs from the root or from a child
      of the root: a tree no deeper than two levels stays so, and every node
      still reaches the root. */
  lemma {:induction false} BuildKeepsShallow(f: Forest<Node>, nodes: seq<Node>)
    requires Valid(f) && Shallow(f)
    ensures Shallow(Build(f, nodes).tree)
    decreases |nodes|
  {
    if nodes != [] {
      match AttachNode(f, nodes[0])
      case Err(_) =>
      case Ok(g) =>
        AttachNodeParent(f, nodes[0]);
        var n := |f.nodes|;
        var p := g.parents[n];
        var node := g.nodes[n];
        assert g == Attach(f, node, p);
        if p != 0 {
          assert Depth(f, p) == 1 + Depth(f, 0);
        }
        AttachKeepsShallow(f, node, p);
        BuildKeepsShallow(g, nodes[1..]);
    }
  }

  /** A row of `render_to_list`. */
  datatype TreeLine = TreeLine(
    line: string, fill: string, mode: string, itemType: string, gitObject: string, size: string, depth: nat)

  /** `node.name if node.name else node.basename`. */
  function PrintedName(n: Node): string {
    if n.name != "" then n.name else n.basename
  }

  /** `node.classify(short=True) if classify else ''`. */
  function Classification(n: Node, classify: bool): string {
    if classify then Classify(n, true) else ""
  }

  /** The row the first loop of `render_to_list` builds for a row of
      `RenderTree`, before the line and the size are justified. */
  function FirstPassLine(f: Forest<Node>, row: Row, abbrevJustification: int, classify: bool): TreeLine
    requires Valid(f) && row.node < |f.nodes|
  {
    var n := f.nodes[row.node];
    TreeLine(row.pre + PrintedName(n) + Classification(n, classify), row.fill,
      LJust(n.fileMode, 6), LJust(n.itemType, 6), LJust(n.gitObject, abbrevJustification),
      n.gitObjectSize, Depth(f, row.node))
  }

  /** The rows of the first loop. */
  function FirstPass(f: Forest<Node>, rows: seq<Row>, abbrevJustification: int, classify: bool): seq<TreeLine>
    requires Valid(f) && forall r :: r in rows ==> r.node < |f.nodes|
  {
    seq(|rows|, i requires 0 <= i < |rows| => FirstPassLine(f, rows[i], abbrevJustification, classify))
  }

  /** The running maximum of the line lengths: at least each, 0 for no row. */
  function MaxLineLength(ts: seq<TreeLine>): (m: nat)
    ensures forall i :: 0 <= i < |ts| ==> |ts[i].line| <= m
    ensures ts == [] ==> m == 0
  {
    if ts == [] then 0
    else
      var m := MaxLineLength(ts[..|ts| - 1]);
      var l := |ts[|ts| - 1].line|;
      if m < l then l else m
  }

  /** The running maximum of the size lengths: at least each, 0 for no row. */
  function MaxSizeLength(ts: seq<TreeLine>): (m: nat)
    ensures forall i :: 0 <= i < |ts| ==> |ts[i].size| <= m
    ensures ts == [] ==> m == 0
  {
    if ts == [] then 0
    else
      var m := MaxSizeLength(ts[..|ts| - 1]);
      var l := |ts[|ts| - 1].size|;
      if m < l then l else m
  }

  /** `s[:i] + [s[i]] == s[:i + 1]` */
  lemma TakeSnoc<T>(s: seq<T>, i: nat)
    requires i < |s|
    ensures s[..i] + [s[i]] == s[..i + 1]
  {
  }

  /** The maxima are the length of some row: no wider column than needed. */
  lemma {:induction false} MaxLengthsAttained(ts: seq<TreeLine>)
    requires ts != []
    ensures exists i :: 0 <= i < |ts| && |ts[i].line| == MaxLineLength(ts)
    ensures exists i :: 0 <= i < |ts| && |ts[i].size| == MaxSizeLength(ts)
  {
    var n := |ts| - 1;
    if n == 0 {
      assert |ts[0].line| == MaxLineLength(ts) && |ts[0].size| == MaxSizeLength(ts);
    } else {
      var front := ts[..n];
      MaxLengthsAttained(front);
      var j :| 0 <= j < n && |front[j].line| == MaxLineLength(front);
      var k :| 0 <= k < n && |front[k].size| == MaxSizeLength(front);
      assert front[j] == ts[j] && front[k] == ts[k];
      if MaxLineLength(front) < |ts[n].line| {
        assert |ts[n].line| == MaxLineLength(ts);
      } else {
        assert |ts[j].line| == MaxLineLength(ts);
      }
      if MaxSizeLength(front) < |ts[n].size| {
        assert |ts[n].size| == MaxSizeLength(ts);
      } else {
        assert |ts[k].size| == MaxSizeLength(ts);
      }
    }
  }

  /** One more row raises each running maximum to that row's length when
      it is longer. */
  lemma MaxLengthsSnoc(ts: seq<TreeLine>, t: TreeLine)
    ensures MaxLineLength(ts + [t]) == if MaxLineLength(ts) < |t.line| then |t.line| else MaxLineLength(ts)
    ensures MaxSizeLength(ts + [t]) == if MaxSizeLength(ts) < |t.size| then |t.size| else MaxSizeLength(ts)
  {
    assert (ts + [t])[..|ts|] == ts;
  }

  /** The second loop on one row: the line left-justified and the size
      right-justified to the widest of their columns. */
  function Justified(t: TreeLine, maxNameLength: int, maxSizeLength: int): TreeLine {
    t.(line := LJust(t.line, maxNameLength), size := RJust(t.size, maxSizeLength))
  }

  /** Every row justified to the same widths. */
  function JustifiedAll(ts: seq<TreeLine>, maxNameLength: int, maxSizeLength: int): (r: seq<TreeLine>)
    ensures |r| == |ts|
  {
    seq(|ts|, i requires 0 <= i < |ts| => Justified(ts[i], maxNameLength, maxSizeLength))
  }

  /** `render_to_list(classify)`. */
  function RenderedLines(f: Forest<Node>, abbrevJustification: int, classify: bool): seq<TreeLine>
    requires Valid(f)
  {
    var rows := Render(f);
    RenderIndents(f);
    var first := FirstPass(f, rows, abbrevJustification, classify);
    JustifiedAll(first, MaxLineLength(first), MaxSizeLength(first))
  }

  /** The first loop of `render_to_list`: a row per row of `RenderTree`, and
      the running maxima of the line and size lengths. */
  method ListRows(f: Forest<Node>, rows: seq<Row>, abbrevJustification: int, classify: bool)
    returns (output: seq<TreeLine>, maxNameLength: nat, maxSizeLength: nat)
    requires Valid(f) && forall r :: r in rows ==> r.node < |f.nodes|
    ensures output == FirstPass(f, rows, abbrevJustification, classify)
    ensures maxNameLength == MaxLineLength(output) && maxSizeLength == MaxSizeLength(output)
  {
    maxNameLength, maxSizeLength := 0, 0;
    output := [];
    ghost var first := FirstPass(f, rows, abbrevJustification, classify);
    for i := 0 to |rows|
      invariant output == first[..i]
      invariant maxNameLength == MaxLineLength(output) && maxSizeLength == MaxSizeLength(output)
    {
      var row := rows[i];
      assert row in rows;
      var node := f.nodes[row.node];
      var printedName := if node.name != "" then node.name else node.basename;
      var classification := if classify then Classify(node, true) else "";
      var currentNode := row.pre + printedName + classification;
      var currentNameLength := |currentNode|;
      maxNameLength := if maxNameLength < currentNameLength then currentNameLength else maxNameLength;
      maxSizeLength := if maxSizeLength < |node.gitObjectSize| then |node.gitObjectSize| else maxSizeLength;
      var treeLine := TreeLine(currentNode, row.fill, LJust(node.fileMode, 6), LJust(node.itemType, 6),
        LJust(node.gitObject, abbrevJustification), node.gitObjectSize, Depth(f, row.node));
      assert treeLine == first[i];
      TakeSnoc(first, i);
      MaxLengthsSnoc(output, treeLine);
      output := output + [treeLine];
    }
    assert output == first;
  }

  /** The second loop of `render_to_list`: the line and the size of every
      row justified in place. */
  method JustifyRows(ts: seq<TreeLine>, maxNameLength: nat, maxSizeLength: nat) returns (output: seq<TreeLine>)
    ensures output == JustifiedAll(ts, maxNameLength, maxSizeLength)
  {
    output := ts;
    for i := 0 to |output|
      invariant |output| == |ts|
      invariant forall j :: 0 <= j < i ==> output[j] == Justified(ts[j], maxNameLength, maxSizeLength)
      invariant forall j :: i <= j < |output| ==> output[j] == ts[j]
    {
      var treeLine := output[i];
      output := output[i := treeLine.(line := LJust(treeLine.line, maxNameLength),
        size := RJust(treeLine.size, maxSizeLength))];
    }
  }

  /** What `render_to_list` promises: one row per node, in pre-order; each
      line is the prefix `RenderTree` draws, the printed name and, when
      asked for, the classification suffix, padded with blanks to the
      longest such line; each size is right-justified to the longest size;
      the mode and the type are padded to 6 and the object to the
      abbreviation width, never cut. */
  lemma RenderedLinesColumns(f: Forest<Node>, abbrevJustification: int, classify: bool)
    requires Valid(f)
    ensures var out := RenderedLines(f, abbrevJustification, classify);
      var rows := Render(f);
      && |out| == |rows| == |f.nodes|
      && (forall i :: 0 <= i < |out| ==> rows[i].node < |f.nodes|)
      && forall i :: 0 <= i < |out| ==>
        var n := f.nodes[rows[i].node];
        var text := rows[i].pre + PrintedName(n) + Classification(n, classify);
        && out[i].line[..|text|] == text
        && (forall k :: |text| <= k < |out[i].line| ==> out[i].line[k] == ' ')
        && |out[i].line| == MaxLineLength(FirstPass(f, rows, abbrevJustification, classify))
        && out[i].size[|out[i].size| - |n.gitObjectSize|..] == n.gitObjectSize
        && |out[i].size| == MaxSizeLength(FirstPass(f, rows, abbrevJustification, classify))
        && (forall k :: 0 <= k < |out[i].size| - |n.gitObjectSize| ==> out[i].size[k] == ' ')
        && |out[i].mode| == (if |n.fileMode| < 6 then 6 else |n.fileMode|)
        && out[i].mode[..|n.fileMode|] == n.fileMode
        && (forall k :: |n.fileMode| <= k < |out[i].mode| ==> out[i].mode[k] == ' ')
        && |out[i].itemType| == (if |n.itemType| < 6 then 6 else |n.itemType|)
        && out[i].itemType[..|n.itemType|] == n.itemType
        && (forall k :: |n.itemType| <= k < |out[i].itemType| ==> out[i].itemType[k] == ' ')
        && |out[i].gitObject| == (if |n.gitObject| < abbrevJustification then abbrevJustification else |n.gitObject|)
        && out[i].gitObject[..|n.gitObject|] == n.gitObject
        && (forall k :: |n.gitObject| <= k < |out[i].gitObject| ==> out[i].gitObject[k] == ' ')
        && out[i].depth == Depth(f, rows[i].node)
  {
    RenderIsPermutation(f);
    RenderIndents(f);
    var rows := Render(f);
    var first := FirstPass(f, rows, abbrevJustification, classify);
    var out := RenderedLines(f, abbrevJustification, classify);
    forall i | 0 <= i < |out|
      ensures rows[i].node < |f.nodes|
      ensures |out[i].line| == MaxLineLength(first)
      ensures |out[i].size| == MaxSizeLength(first)
    {
      assert rows[i] in rows;
      assert |first[i].line| <= MaxLineLength(first);
      assert |first[i].size| <= MaxSizeLength(first);
    }
  }

  /** One output line of `pretty_print`: the line alone with `name_only`,
      otherwise the mode, type, object, size and line separated by tabs. */
  function PrintLine(t: TreeLine, nameOnly: bool): string {
    if nameOnly then t.line
    else t.mode + "\t" + t.itemType + "\t" + t.gitObject + "\t" + t.size + "\t" + t.line
  }

  /** The loop of `pretty_print`: one printed line per row, in order. */
  method PrintLines(lines: seq<TreeLine>, nameOnly: bool) returns (printed: seq<string>)
    ensures |printed| == |lines|
    ensures forall i :: 0 <= i < |lines| ==> printed[i] == PrintLine(lines[i], nameOnly)
  {
    printed := [];
    for i := 0 to |lines|
      invariant |printed| == i
      invariant forall j :: 0 <= j < i ==> printed[j] == PrintLine(lines[j], nameOnly)
    {
      var treeLine := lines[i];
      if nameOnly {
        printed := printed + [treeLine.line];
      } else {
        printed := printed + [treeLine.mode + "\t" + treeLine.itemType + "\t" + treeLine.gitObject
          + "\t" + treeLine.size + "\t" + treeLine.line];
      }
    }
  }

  /** A full output line splits back at its tabs into the five columns when
      none of them holds a tab. */
  lemma PrintLineColumns(t: TreeLine)
    requires Free(t.mode, '\t') && Free(t.itemType, '\t') && Free(t.gitObject, '\t')
    requires Free(t.size, '\t') && Free(t.line, '\t')
    ensures SplitOn(PrintLine(t, false), '\t') == [t.mode, t.itemType, t.gitObject, t.size, t.line]
    ensures PrintLine(t, true) == t.line
  {
    var parts := [t.mode, t.itemType, t.gitObject, t.size, t.line];
    assert parts[1..][1..][1..][1..] == [t.line];
    assert Join(parts[1..][1..][1..], '\t') == t.size + "\t" + t.line;
    assert Join(parts[1..][1..], '\t') == t.gitObject + "\t" + t.size + "\t" + t.line;
    assert Join(parts[1..], '\t') == t.itemType + "\t" + t.gitObject + "\t" + t.size + "\t" + t.line;
    assert Join(parts, '\t') == PrintLine(t, false);
    SplitOnJoin(parts, '\t');
  }

  /** The tree and the options of one query. The root is node 0 of the
      tree. */
  class GitLsTree {
    var patterns: seq<string>
    var extraOpts: seq<string>
    var abbrevJustification: int
    var workingDir: string
    var tree: Forest<Node>

    /** The tree is a well-formed arena no deeper than two levels. */
    ghost predicate Valid()
      reads this
    {
      Arena.Valid(tree) && Shallow(tree)
    }

    /** `GitLsTree(tree_ish, patterns, trees_only, working_dir, abbrev)`,
        with `cwd` for `getcwd()`; `None` stands for both a missing and an
        empty argument. */
    constructor(treeIsh: string, patterns: seq<string>, treesOnly: bool, workingDir: string,
      cwd: string, abbrev: Option<int>)
      ensures Valid() && tree == Single(RootNode(treeIsh))
      ensures this.workingDir == if workingDir != "" then workingDir else cwd
      ensures this.patterns == patterns
      ensures abbrev.None? || abbrev.value == 0 ==>
        && abbrevJustification == DefaultAbbrevLength
        && extraOpts == (if treesOnly then ["-d"] else [])
      ensures abbrev.Some? && abbrev.value != 0 ==>
        && abbrevJustification == (if abbrev.value < MinimumAbbrevJustification
          then MinimumAbbrevJustification else abbrev.value)
        && extraOpts == (if treesOnly then ["-d"] else [])
          + (if abbrev.value >= 0 then ["--abbrev=" + DecimalString(abbrev.value)] else [])
    {
      var root := NewNode("", "root", Current);
      this.workingDir := if workingDir != "" then workingDir else cwd;
      root := root.(name := treeIsh, fileMode := "mode", itemType := "type",
        gitObject := "object", gitObjectSize := "size");
      this.patterns := patterns;
      extraOpts := if treesOnly then ["-d"] else [];
      if abbrev.Some? && abbrev.value != 0 {
        var n := abbrev.value;
        extraOpts := extraOpts + (if 0 <= n then ["--abbrev=" + DecimalString(n)] else []);
        abbrevJustification := if MinimumAbbrevJustification <= n then n else MinimumAbbrevJustification;
      } else {
        abbrevJustification := DefaultAbbrevLength;
      }
      tree := Single(root);
    }

    /** The command `query_tree_ish` runs: the base call, the extra
        options, the tree-ish (the root's name) and the patterns. */
    function QueryArgv(): (argv: seq<string>)
      reads this
      requires Arena.Valid(tree)
      ensures |argv| == 5 + |extraOpts| + |patterns|
      ensures argv[..4] == BaseGitLsTreeCall && argv[4..4 + |extraOpts|] == extraOpts
      ensures argv[4 + |extraOpts|] == tree.nodes[0].name && argv[5 + |extraOpts|..] == patterns
    {
      BaseGitLsTreeCall + extraOpts + [tree.nodes[0].name] + patterns
    }

    /** `parse_tree_ish(raw_lines)`: a node per line, attached under what
        `walk_to_parent_node` finds from the root; the first exception
        stops the loop and is returned. */
    method ParseTreeIsh(rawLines: seq<string>) returns (failure: Option<WalkError>)
      requires Valid() && AllConstructible(rawLines, Current)
      modifies this
      ensures Valid()
      ensures Built(tree, failure) == ParseLines(old(tree), rawLines, Current)
      ensures patterns == old(patterns) && extraOpts == old(extraOpts)
      ensures abbrevJustification == old(abbrevJustification) && workingDir == old(workingDir)
    {
      BuildKeepsShallow(tree, NodesOfLines(rawLines, Current));
      tree, failure := AttachLines(tree, rawLines, Current);
    }

    /** `render_to_list(classify)`: its two loops, on the rows of
        `RenderTree`. */
    method RenderToList(classify: bool) returns (output: seq<TreeLine>)
      requires Arena.Valid(tree)
      ensures output == RenderedLines(tree, abbrevJustification, classify)
    {
      var rows := Render(tree);
      RenderIndents(tree);
      var maxNameLength, maxSizeLength;
      output, maxNameLength, maxSizeLength := ListRows(tree, rows, abbrevJustification, classify);
      output := JustifyRows(output, maxNameLength, maxSizeLength);
    }

    /** `pretty_print(name_only, classify)`, returning the lines it prints
        instead of writing them. */
    method PrettyPrint(nameOnly: bool, classify: bool) returns (printed: seq<string>)
      requires Arena.Valid(tree)
      ensures var out := RenderedLines(tree, abbrevJustification, classify);
        && |printed| == |out|
        && forall i :: 0 <= i < |out| ==> printed[i] == PrintLine(out[i], nameOnly)
    {
      var lines := RenderToList(classify);
      printed := PrintLines(lines, nameOnly);
    }
  }
}

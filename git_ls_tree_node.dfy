/** `GitLsTreeNode` of both versions of the program: a node built from one
    line of `git ls-tree -l` output, the file-mode table `classify` reads,
    and the one-level lookup `walk_to_parent_node` does among the children
    of a node. Nodes live in the arena of `Arena` (their parent and
    children are kept there); `Dialect` selects the grammar and the
    `convert_path_to_list` of a version. The walk is the same in both
    versions: only the text of the exception it raises differs, and that
    is left to `Str` and `LegacyStr`. */
module GitLsTreeNode {
  import opened Wrappers
  import opened Strings
  import opened PosixPath
  import opened LsTreeLine
  import opened Arena
  import opened LocalExceptions
  import ConvertPathToList
  import LegacyConvertPathToList

  /** The fields a node sets from its line. */
  datatype Node = Node(
    raw: string,
    fileMode: string, itemType: string, gitObject: string, gitObjectSize: string,
    relativePath: string, basename: string, explodedPath: seq<string>,
    name: string)

  /** The node a line that does not match leaves: every field empty. */
  function EmptyNode(raw: string, name: string): Node {
    Node(raw, "", "", "", "", "", "", [], name)
  }

  /** The version's `convert_path_to_list` stops on `p`. */
  predicate Explodable(p: string, d: Dialect) {
    match d
    case Current => !StartsWithDoubleSlash(p)
    case Legacy => p == [] || p[0] != '/'
  }

  /** The version's `convert_path_to_list`. */
  function ConvertPath(p: string, d: Dialect): (r: seq<string>)
    requires Explodable(p, d)
    ensures |r| >= 1 && r[|r| - 1] == Basename(p)
    ensures forall k :: 0 <= k < |r| ==> Free(r[k], '/')
  {
    match d
    case Current => ConvertPathToList.ConvertPathToList(p)
    case Legacy => LegacyConvertPathToList.LegacyConvertPathToList(p)
  }

  /** The path group of the match, empty when the line does not match. */
  function MatchedPath(raw: string, d: Dialect): string {
    match MatchLine(raw, d)
    case None => ""
    case Some(m) => m.relativePath
  }

  /** Building a node from `raw` returns: its path, if any, explodes. */
  predicate Constructible(raw: string, d: Dialect) {
    Explodable(MatchedPath(raw, d), d)
  }

  /** `GitLsTreeNode(raw_git_output, name)`. */
  function NodeOf(raw: string, name: string, d: Dialect): Node
    requires Constructible(raw, d)
  {
    NodeFromMatch(raw, name, MatchLine(raw, d), d)
  }

  /** `GitLsTreeNode(raw_git_output, name)`, given the result `g` of the
      match: on a match the five groups, the basename of the path and, for a
      non-empty path, the exploded path; the given name, or the basename
      when the name is empty. */
  function NodeFromMatch(raw: string, name: string, g: Option<Layout>, d: Dialect): (n: Node)
    requires g.Some? ==> Explodable(g.value.relativePath, d)
    ensures n.raw == raw
    ensures g.None? ==> n == EmptyNode(raw, name)
    ensures g.Some? ==> var m := g.value;
      && n.fileMode == m.fileMode && n.itemType == m.itemType
      && n.gitObject == m.gitObject && n.gitObjectSize == m.gitObjectSize
      && n.relativePath == m.relativePath
    ensures n.basename == Basename(n.relativePath)
    ensures n.relativePath == "" ==> n.explodedPath == []
    ensures n.relativePath != "" ==>
      && Explodable(n.relativePath, d)
      && n.explodedPath == ConvertPath(n.relativePath, d)
      && n.explodedPath[|n.explodedPath| - 1] == n.basename
    ensures n.name == if name != "" then name else n.basename
  {
    match g
    case None => EmptyNode(raw, name)
    case Some(m) =>
      var path := m.relativePath;
      var base := Basename(path);
      var exploded := if path != "" then ConvertPath(path, d) else [];
      Node(raw, m.fileMode, m.itemType, m.gitObject, m.gitObjectSize, path, base, exploded,
        if name != "" then name else base)
  }

  /** `__init__` and `process_raw_git_output`: every field starts empty and
      is overwritten by a non-empty group of the match; the path is exploded
      when it is non-empty; the name falls back on the basename. */
  method NewNode(raw: string, name: string, d: Dialect) returns (n: Node)
    requires Constructible(raw, d)
    ensures n == NodeOf(raw, name, d)
  {
    var fileMode, itemType, gitObject, gitObjectSize := "", "", "", "";
    var relativePath, basename := "", "";
    var explodedPath: seq<string> := [];
    var processedGroups := MatchLine(raw, d);
    if processedGroups.Some? {
      var m := processedGroups.value;
      fileMode := if m.fileMode != "" then m.fileMode else fileMode;
      itemType := if m.itemType != "" then m.itemType else itemType;
      gitObject := if m.gitObject != "" then m.gitObject else gitObject;
      gitObjectSize := if m.gitObjectSize != "" then m.gitObjectSize else gitObjectSize;
      relativePath := if m.relativePath != "" then m.relativePath else relativePath;
      basename := if m.relativePath != "" then Basename(m.relativePath) else basename;
    }
    if relativePath != "" {
      explodedPath := ConvertPath(relativePath, d);
    }
    n := Node(raw, fileMode, itemType, gitObject, gitObjectSize, relativePath, basename, explodedPath,
      if name != "" then name else basename);
  }

  /** `GitLsTreeNode()`: every field is empty. */
  lemma DefaultNode(d: Dialect)
    ensures Constructible("", d)
    ensures NodeOf("", "", d) == Node("", "", "", "", "", "", "", [], "")
  {
  }

  /** A line that the pattern does not describe leaves every field empty
      and the path unexploded. */
  lemma NodeOfNonLine(raw: string, name: string, d: Dialect)
    requires forall m :: !(WellFormed(m, d) && Text(m) == raw)
    ensures Constructible(raw, d) && NodeOf(raw, name, d) == EmptyNode(raw, name)
  {
    MatchLineIffDecomposable(raw, d);
  }

  /** A line laid out as the pattern describes sets the mode, type, object
      and size to its tokens and the path to the rest of the line after the
      blanks. */
  lemma NodeOfLayout(m: Layout, name: string, d: Dialect)
    requires WellFormed(m, d)
    requires Explodable(LStripSpaces(m.relativePath), d)
    ensures Constructible(Text(m), d)
    ensures var n := NodeOf(Text(m), name, d);
      && n.fileMode == m.fileMode && n.itemType == m.itemType
      && n.gitObject == m.gitObject && n.gitObjectSize == m.gitObjectSize
      && n.relativePath == LStripSpaces(m.relativePath)
  {
    MatchLineComplete(m, d);
  }

  /** The `classify` table: the short and the long description of a mode. */
  function ModeDescription(mode: string): Option<(string, string)> {
    if mode == "040000" then Some(("/", "directory"))
    else if mode == "100644" then Some(("", "file"))
    else if mode == "100664" then Some(("", "file"))
    else if mode == "100755" then Some(("*", "executable"))
    else if mode == "120000" then Some(("@", "symlink"))
    else if mode == "160000" then Some(("/", "gitlink"))
    else None
  }

  /** `classify(short)`: the description of the node's mode; an unknown
      mode gives the empty string, not an error. */
  function Classify(n: Node, short: bool): (r: string)
    ensures ModeDescription(n.fileMode).None? ==> r == ""
    ensures short ==> |r| <= 1
    ensures !short ==> (r != "" <==> ModeDescription(n.fileMode).Some?)
  {
    match ModeDescription(n.fileMode)
    case None => ""
    case Some((shortName, longName)) => if short then shortName else longName
  }

  /** The suffixes `classify` gives: '/' marks directories and gitlinks,
      '*' executables and '@' symlinks; regular files and unknown modes get
      none. */
  lemma ClassifySuffixes(n: Node)
    ensures Classify(n, true) == "/" <==> n.fileMode == "040000" || n.fileMode == "160000"
    ensures Classify(n, true) == "*" <==> n.fileMode == "100755"
    ensures Classify(n, true) == "@" <==> n.fileMode == "120000"
    ensures Classify(n, true) == "" <==>
      (ModeDescription(n.fileMode).None? || n.fileMode == "100644" || n.fileMode == "100664")
  {
  }

  /** What `walk_to_parent_node` raises. */
  datatype WalkError = IndexError | Broken(error: BrokenTreeError)

  /** The position in `ks` of the first node whose basename is `name`, and
      `|ks|` when there is none. */
  function FirstNamed(f: Forest<Node>, ks: seq<nat>, name: string): (j: nat)
    requires forall k :: 0 <= k < |ks| ==> ks[k] < |f.nodes|
    ensures j <= |ks|
    ensures forall i :: 0 <= i < j ==> f.nodes[ks[i]].basename != name
    ensures j < |ks| ==> f.nodes[ks[j]].basename == name
  {
    if ks == [] then 0
    else if f.nodes[ks[0]].basename == name then 0
    else 1 + FirstNamed(f, ks[1..], name)
  }

  /** `walk_to_parent_node(exploded_path)` called on node `self`, with the
      list the caller is left holding. One segment: `self`, the list
      untouched. None: `IndexError` from `pop(0)`. More: the head is popped
      and the first child of `self` (never a deeper node) with that
      basename is returned, or `BrokenTreeError(self, head)` is raised. */
  function Walk(f: Forest<Node>, self: nat, explodedPath: seq<string>)
    : (r: (Result<nat, WalkError>, seq<string>))
    requires Valid(f) && self < |f.nodes|
    ensures explodedPath == [] ==> r == (Err(IndexError), [])
    ensures |explodedPath| == 1 ==> r == (Ok(self), explodedPath)
    ensures |explodedPath| >= 2 ==> r.1 == explodedPath[1..]
    ensures r.0.Ok? ==> r.0.value < |f.nodes|
  {
    if 1 == |explodedPath| then (Ok(self), explodedPath)
    else if explodedPath == [] then (Err(IndexError), [])
    else
      var head := explodedPath[0];
      var ks := Children(f, self);
      ChildrenAfterParent(f, self);
      var j := FirstNamed(f, ks, head);
      if j < |ks| then (Ok(ks[j]), explodedPath[1..])
      else (Err(Broken(BrokenTreeError(self, f.nodes[self].relativePath, head))), explodedPath[1..])
  }

  /** With two segments or more, a walk that succeeds finds a child of
      `self` named by the head, with no earlier child of that name. */
  lemma WalkFinds(f: Forest<Node>, self: nat, explodedPath: seq<string>)
    requires Valid(f) && self < |f.nodes| && |explodedPath| >= 2
    requires Walk(f, self, explodedPath).0.Ok?
    ensures var c := Walk(f, self, explodedPath).0.value;
      && c in Children(f, self) && c < |f.nodes| && f.parents[c] == self
      && f.nodes[c].basename == explodedPath[0]
      && (forall e :: e in Children(f, self) && e < c ==> f.nodes[e].basename != explodedPath[0])
  {
    var head := explodedPath[0];
    var ks := Children(f, self);
    ChildrenAfterParent(f, self);
    var j := FirstNamed(f, ks, head);
    forall e | e in ks && e < ks[j] ensures f.nodes[e].basename != head {
      var i :| 0 <= i < |ks| && ks[i] == e;
      assert i < j;
    }
  }

  /** With two segments or more, a walk that fails raises
      `BrokenTreeError(self, head)`, and no child of `self` has that name. */
  lemma WalkRaises(f: Forest<Node>, self: nat, explodedPath: seq<string>)
    requires Valid(f) && self < |f.nodes| && |explodedPath| >= 2
    requires Walk(f, self, explodedPath).0.Err?
    ensures forall e :: e in Children(f, self) ==> e < |f.nodes| && f.nodes[e].basename != explodedPath[0]
    ensures Walk(f, self, explodedPath).0.error
      == Broken(BrokenTreeError(self, f.nodes[self].relativePath, explodedPath[0]))
  {
    ChildrenAfterParent(f, self);
  }

  /** `walk_to_parent_node`, looping over the children of `self`. */
  method WalkToParentNode(f: Forest<Node>, self: nat, explodedPath: seq<string>)
    returns (r: Result<nat, WalkError>, remaining: seq<string>)
    requires Valid(f) && self < |f.nodes|
    ensures (r, remaining) == Walk(f, self, explodedPath)
  {
    if 1 == |explodedPath| {
      return Ok(self), explodedPath;
    }
    if explodedPath == [] {
      return Err(IndexError), explodedPath;
    }
    var currentBasename := explodedPath[0];
    remaining := explodedPath[1..];
    var children := Children(f, self);
    ChildrenAfterParent(f, self);
    for i := 0 to |children|
      invariant forall j :: 0 <= j < i ==> f.nodes[children[j]].basename != currentBasename
    {
      var potentialParent := children[i];
      if currentBasename == f.nodes[potentialParent].basename {
        assert FirstNamed(f, children, currentBasename) == i;
        return Ok(potentialParent), remaining;
      }
    }
    r := Err(Broken(BrokenTreeError(self, f.nodes[self].relativePath, currentBasename)));
  }
}

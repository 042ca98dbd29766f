/** `GitLsTree` of the first version of the program: the root is named by
    the tree-ish, joined to a path inside it when one is given, the query
    has no option beyond `-rtl`, and the tree is built by the same loop as
    in the current version, on the first version's nodes. */
module LegacyGitLsTree {
  import opened Wrappers
  import opened Strings
  import opened LsTreeLine
  import opened Arena
  import opened GitLsTreeNode
  import opened LegacyGitLsTreeNode
  import opened GitLsTree

  /** `finalize_tree_ish(tree_ish, path_in_tree_ish)`: `tree_ish:path`, or
      the tree-ish alone when there is no path. */
  function FinalizeTreeIsh(treeIsh: string, pathInTreeIsh: string): string {
    treeIsh + (if pathInTreeIsh != "" then ":" + pathInTreeIsh else "")
  }

  /** The finalized name reads back at its first colon: when the tree-ish
      has no colon, the text before the first colon is the tree-ish and the
      text after it (empty when there is no colon) is the path. */
  lemma FinalizeTreeIshSplits(treeIsh: string, pathInTreeIsh: string)
    requires Free(treeIsh, ':')
    ensures var parts := SplitOn(FinalizeTreeIsh(treeIsh, pathInTreeIsh), ':');
      parts[0] == treeIsh && Join(parts[1..], ':') == pathInTreeIsh
  {
    if pathInTreeIsh == "" {
      assert FinalizeTreeIsh(treeIsh, pathInTreeIsh) == treeIsh;
      SplitOnFreePrefix(treeIsh, "", ':');
    } else {
      assert FinalizeTreeIsh(treeIsh, pathInTreeIsh) == treeIsh + [':'] + pathInTreeIsh;
      SplitOnFreePrefix(treeIsh, pathInTreeIsh, ':');
    }
  }

  /** The root: `GitLsTreeNode(name='root')`, renamed to the finalized
      tree-ish. Unlike the current root it has no column headers: every
      field but its name is empty. */
  function LegacyRootNode(treeIsh: string, pathInTreeIsh: string): (n: Node)
    ensures n == EmptyNode("", FinalizeTreeIsh(treeIsh, pathInTreeIsh))
  {
    NodeOf("", "root", Legacy).(name := FinalizeTreeIsh(treeIsh, pathInTreeIsh))
  }

  /** On lines that are not submodule lines and whose paths do not start
      with '/', both versions build the same tree from the same start. */
  lemma LegacyParseAgrees(f: Forest<Node>, lines: seq<string>)
    requires Valid(f) && AllConstructible(lines, Legacy)
    requires forall k :: 0 <= k < |lines| ==> NotCommitLine(lines[k])
    ensures AllConstructible(lines, Current)
    ensures ParseLines(f, lines, Legacy) == ParseLines(f, lines, Current)
  {
    forall k | 0 <= k < |lines|
      ensures Constructible(lines[k], Current) && NodeOf(lines[k], "", Legacy) == NodeOf(lines[k], "", Current)
    {
      LegacyNodeAgrees(lines[k], "");
    }
    assert NodesOfLines(lines, Legacy) == NodesOfLines(lines, Current);
  }

  class LegacyGitLsTree {
    var workingDir: string
    var tree: Forest<Node>

    /** The tree is a well-formed arena no deeper than two levels. */
    ghost predicate Valid()
      reads this
    {
      Arena.Valid(tree) && Shallow(tree)
    }

    /** `GitLsTree(tree_ish, path_in_tree_ish, working_dir)`, without the
        `process_tree_ish` that runs git. */
    constructor(treeIsh: string, pathInTreeIsh: string, workingDir: string)
      ensures Valid() && tree == Single(LegacyRootNode(treeIsh, pathInTreeIsh))
      ensures this.workingDir == workingDir
      ensures QueryArgv() == ["git", "ls-tree", FinalizeTreeIsh(treeIsh, pathInTreeIsh), "-rtl"]
    {
      var root := NewNode("", "root", Legacy);
      this.workingDir := workingDir;
      root := root.(name := FinalizeTreeIsh(treeIsh, pathInTreeIsh));
      tree := Single(root);
    }

    /** The command `query_tree_ish` runs: the tree-ish (the root's name)
        between `git ls-tree` and `-rtl`. */
    function QueryArgv(): (argv: seq<string>)
      reads this
      requires Arena.Valid(tree)
      ensures |argv| == 4 && argv[2] == tree.nodes[0].name
      ensures argv[..2] == ["git", "ls-tree"] && argv[3] == "-rtl"
    {
      ["git", "ls-tree", tree.nodes[0].name, "-rtl"]
    }

    /** `parse_tree_ish(raw_lines)` of the first version: the same loop as
        the current one on the first version's nodes; the first exception
        stops it and is returned. */
    method ParseTreeIsh(rawLines: seq<string>) returns (failure: Option<WalkError>)
      requires Valid() && AllConstructible(rawLines, Legacy)
      modifies this
      ensures Valid()
      ensures Built(tree, failure) == ParseLines(old(tree), rawLines, Legacy)
      ensures workingDir == old(workingDir)
    {
      BuildKeepsShallow(tree, NodesOfLines(rawLines, Legacy));
      tree, failure := AttachLines(tree, rawLines, Legacy);
    }
  }
}

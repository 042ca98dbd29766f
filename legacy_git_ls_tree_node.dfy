/** How the node of the first version of the program differs from the
    current one: its grammar has no `commit`, its `convert_path_to_list`
    has no "/" stopping case, and its error message always quotes the
    owning path and has no final line feed. */
module LegacyGitLsTreeNode {
  import opened Wrappers
  import opened Strings
  import opened PosixPath
  import opened LsTreeLine
  import opened Arena
  import opened LocalExceptions
  import opened LegacyLocalExceptions
  import opened GitLsTreeNode
  import LegacyConvertPathToList

  /** A submodule (`commit`) line, which the current version parses, does
      not match the first version's pattern: its node keeps every field
      empty and has no exploded path. */
  lemma LegacyIgnoresCommitLine(raw: string, name: string)
    requires MatchLine(raw, Current).Some? && MatchLine(raw, Current).value.itemType == "commit"
    ensures Constructible(raw, Legacy)
    ensures NodeOf(raw, name, Legacy) == EmptyNode(raw, name)
  {
    CurrentMatchInLegacy(raw);
  }

  /** A line that is not a submodule (`commit`) line of the current
      version: one the current pattern does not match, or matches with
      another item type. */
  predicate NotCommitLine(raw: string) {
    !(MatchLine(raw, Current).Some? && MatchLine(raw, Current).value.itemType == "commit")
  }

  /** On every line but a submodule line, the two versions build the same
      node: both match it the same way, or neither matches it. */
  lemma LegacyNodeAgrees(raw: string, name: string)
    requires NotCommitLine(raw) && Constructible(raw, Legacy)
    ensures Constructible(raw, Current)
    ensures NodeOf(raw, name, Legacy) == NodeOf(raw, name, Current)
  {
    if MatchLine(raw, Current).Some? {
      CurrentMatchInLegacy(raw);
    }
    if MatchLine(raw, Legacy).Some? {
      LegacyMatchIsCurrentMatch(raw);
      var p := MatchLine(raw, Legacy).value.relativePath;
      LegacyConvertPathToList.LegacyAgreesWithCurrent(p);
    }
  }

  /** The first version's message for the root, whose path is empty. */
  lemma LegacyRootMessageText(child: string)
    ensures LegacyMessage("", child) == "The '' tree does not have a '" + child + "' subtree or blob"
  {
    var head := "The '' tree does not have a '";
    assert "The " + [Quote] + "" + [Quote] + " tree does not have a " + [Quote] == head;
    assert [Quote] + " subtree or blob" == "' subtree or blob";
  }

  /** The current message for the root. */
  lemma RootMessageText(child: string)
    ensures Message("", child) == "The root tree does not have a '" + child + "' subtree or blob\n"
  {
    assert "The root tree does not have a " + [Quote] == "The root tree does not have a '";
    assert [Quote] + " subtree or blob\n" == "' subtree or blob\n";
  }

  /** Walking from a root (whose path is empty) to a child it lacks raises
      `BrokenTreeError(root, child)` and leaves the caller the rest of the
      list: the first version's message reads "The '' tree does not have a
      'child' subtree or blob", the current one's "The root tree does not
      have a 'child' subtree or blob" and a line feed. */
  lemma WalkFromRootMessages(f: Forest<Node>, child: string, rest: seq<string>)
    requires Valid(f) && f.nodes[0].relativePath == "" && rest != []
    requires forall e :: e in Children(f, 0) ==> e < |f.nodes| && f.nodes[e].basename != child
    ensures var (r, remaining) := Walk(f, 0, [child] + rest);
      && remaining == rest && r.Err? && r.error.Broken?
      && r.error.error.owningNode == 0 && r.error.error.unknownChild == child
      && LegacyStr(r.error.error) == "The '' tree does not have a '" + child + "' subtree or blob"
      && Str(r.error.error) == "The root tree does not have a '" + child + "' subtree or blob\n"
  {
    var path := [child] + rest;
    assert |path| >= 2 && path[0] == child && path[1..] == rest;
    WalkRaises(f, 0, path);
    LegacyRootMessageText(child);
    RootMessageText(child);
  }
}

/** `BrokenTreeError` of the current package: raised when a line names a
    tree the walk cannot find among the children of the owning node. */
module LocalExceptions {
  import opened Strings

  /** The exception: the owning node (an index into the tree's arena of
      nodes) with its path, and the child that could not be found. The
      message is fixed when the exception is made and depends on nothing
      else, so `Str` builds it from these fields. */
  datatype BrokenTreeError = BrokenTreeError(owningNode: nat, owningPath: string, unknownChild: string)

  const Quote: char := '\''

  /** The message; it ends with a line feed. It names the owning tree by
      its path in quotes, or as `root` when the path is empty. */
  function Message(owningPath: string, unknownChild: string): string {
    if owningPath != "" then
      "The " + [Quote] + owningPath + [Quote] + " tree does not have a " + [Quote] + unknownChild + [Quote]
        + " subtree or blob\n"
    else
      "The root tree does not have a " + [Quote] + unknownChild + [Quote] + " subtree or blob\n"
  }

  /** `str(e)`: the message. */
  function Str(e: BrokenTreeError): string {
    Message(e.owningPath, e.unknownChild)
  }

  /** The fixed text between the quoted parts of the message. */
  lemma MessageTextsFree()
    ensures Free("The ", Quote) && Free("The root tree does not have a ", Quote)
    ensures Free(" tree does not have a ", Quote) && Free(" subtree or blob\n", Quote)
  {
  }

  /** The message can be read back: split at its quotes it gives the owning
      path and the missing child, provided neither holds a quote. */
  lemma MessageDecodes(e: BrokenTreeError)
    requires e.owningPath != ""
    requires Free(e.owningPath, Quote) && Free(e.unknownChild, Quote)
    ensures SplitOn(Str(e), Quote)
      == ["The ", e.owningPath, " tree does not have a ", e.unknownChild, " subtree or blob\n"]
  {
    MessageTextsFree();
    SplitFive("The ", e.owningPath, " tree does not have a ", e.unknownChild, " subtree or blob\n", Quote);
  }

  /** For the root, whose path is empty, the message reads `The root tree`
      and has one quoted part only: the missing child. */
  lemma RootMessageDecodes(e: BrokenTreeError)
    requires e.owningPath == "" && Free(e.unknownChild, Quote)
    ensures SplitOn(Str(e), Quote) == ["The root tree does not have a ", e.unknownChild, " subtree or blob\n"]
  {
    MessageTextsFree();
    SplitThree("The root tree does not have a ", e.unknownChild, " subtree or blob\n", Quote);
  }
}

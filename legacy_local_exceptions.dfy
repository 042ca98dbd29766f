/** `BrokenTreeError` of the first version of the program: the owning path
    is always quoted, even when it is empty, and there is no final line
    feed. */
module LegacyLocalExceptions {
  import opened Strings
  import opened LocalExceptions

  /** The message of the first version. */
  function LegacyMessage(owningPath: string, unknownChild: string): string {
    "The " + [Quote] + owningPath + [Quote] + " tree does not have a " + [Quote] + unknownChild + [Quote]
      + " subtree or blob"
  }

  /** `str(e)` for the first version's exception, which has the same
      fields. */
  function LegacyStr(e: BrokenTreeError): string {
    LegacyMessage(e.owningPath, e.unknownChild)
  }

  /** The message can be read back: split at its quotes it gives the owning
      path, empty for the root, and the missing child. */
  lemma LegacyMessageDecodes(e: BrokenTreeError)
    requires Free(e.owningPath, Quote) && Free(e.unknownChild, Quote)
    ensures SplitOn(LegacyStr(e), Quote)
      == ["The ", e.owningPath, " tree does not have a ", e.unknownChild, " subtree or blob"]
  {
    assert Free("The ", Quote) && Free(" tree does not have a ", Quote) && Free(" subtree or blob", Quote);
    SplitFive("The ", e.owningPath, " tree does not have a ", e.unknownChild, " subtree or blob", Quote);
  }

  /** Below the root the current message is the first version's message
      with a line feed added. */
  lemma MessageExtendsLegacy(owningPath: string, unknownChild: string)
    requires owningPath != ""
    ensures Message(owningPath, unknownChild) == LegacyMessage(owningPath, unknownChild) + "\n"
  {
  }

  /** For the root the two versions disagree: the current message is three
      characters longer (`root` for `''`, and the line feed), so the
      first version's text, which the program's own tests still expect,
      is never what the current version produces. */
  lemma RootMessagesDiffer(unknownChild: string)
    ensures |Message("", unknownChild)| == |LegacyMessage("", unknownChild)| + 3
    ensures Message("", unknownChild) != LegacyMessage("", unknownChild)
  {
  }

  /** The message the program's own tests expect when the root has no
      `nope` child has the length of the first version's message, so the
      current version's message, three characters longer, is not it. */
  lemma RootMessageOfTests(expected: string)
    requires expected == "The '' tree does not have a 'nope' subtree or blob"
    ensures Message("", "nope") != expected
  {
    assert |expected| == |LegacyMessage("", "nope")|;
  }
}

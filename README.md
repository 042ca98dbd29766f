# git-ls-anytree in Dafny

git-ls-anytree runs `git ls-tree -rtl` on a tree-ish and draws the listing as a
tree. Each line of the listing becomes a `GitLsTreeNode`. The node's exploded
path (`convert_path_to_list`) is walked from the root with `walk_to_parent_node`
to find its parent. The tree is then rendered with anytree's `RenderTree` into
aligned columns: mode, type, object, size, and the indented name. A line that
names a tree the walk cannot find raises `BrokenTreeError`.

The repository holds two versions of this core, and both are modelled:

- the current package `git_ls_anytree/`;
- the first version `git-ls-anytree/`.

The first version differs from the current one in these ways:

- The grammar has no `commit` item type.
- `convert_path_to_list` has no stopping case for a dirname of "/".
- The text of `BrokenTreeError` always quotes the owning path, even when it is
  empty, and has no final line feed.
- The root is named `tree-ish:path` (`finalize_tree_ish`) and has no column
  headers: every field but its name is empty.
- The query is `git ls-tree <tree-ish> -rtl`: the tree-ish comes before `-rtl`,
  and there is no `--full-tree`, no `-d`, no `--abbrev` and no patterns.
- There is no `classify`, no `render_to_list` and no `pretty_print`: the first
  version builds the tree but does not render it.

What the two versions share is the same code: `__init__` and
`process_raw_git_output` of the node apart from the pattern, `walk_to_parent_node`,
and the loop of `parse_tree_ish`. Those are modelled once. A `Dialect` (`Current`
or `Legacy`) selects the grammar and the `convert_path_to_list` of a version. The
message, the root, the query and the class are separate members per version.
Lemmas prove where the two versions agree and where they do not.

Modules, one file each:

- `Strings`: `str.split`, `str.join`, `ljust`, `rjust` and `'%s' % n` on
  `seq<char>`.
- `PosixPath`: `posixpath.split` and `posixpath.basename`.
- `ConvertPathToList` and `LegacyConvertPathToList`: the two
  `convert_path_to_list`. Each is defined where its recursion stops. A budgeted
  copy shows that it stops within the path's length, and never stops on the
  paths it is not defined for.
- `LsTreeLine`: a deterministic matcher for the `FULL_GIT_PATTERN` regex of
  each version. It is proved sound and complete against a declarative reading
  of the pattern.
- `LocalExceptions` and `LegacyLocalExceptions`: `BrokenTreeError` and its
  message.
- `Arena`: the parent/children structure anytree's `NodeMixin` maintains. Nodes
  live in a sequence; every node but the root has an earlier node as parent.
  The children of a node are derived from the parent links in attachment order.
- `GitLsTreeNode` and `LegacyGitLsTreeNode`: the node built from a line,
  `classify`, and `walk_to_parent_node`. The node is a value. The walk is a
  method with a loop over the children, proved equal to the function `Walk`.
- `RenderTree`: anytree's `RenderTree` with its default `ContStyle`. Rows come
  in pre-order, each with the prefix drawn before the name.
- `GitLsTree` and `LegacyGitLsTree`: the class that owns the tree and the query
  options.
  - `parse_tree_ish` is a method that reassigns the tree field. It is proved
    equal to the function `ParseLines`, and it keeps the tree no deeper than
    two levels.
  - `render_to_list` and `pretty_print` are methods whose loops are proved
    against `RenderedLines` and `PrintLine`.

Where the code and its written description disagree, the model follows the code:

- `walk_to_parent_node` does not recurse. It looks among the children of the
  node it is called on and returns the child it finds. So a line
  `a/b/c` is attached under `a`, holding `["b", "c"]`, and every node ends up at
  depth one or two (`BuildKeepsShallow`).
- A line the pattern does not match leaves a node with an empty exploded path.
  The walk then raises `IndexError` from `pop(0)`: the node is not silently
  skipped (`AttachNodeFailure`).
- The current message for a missing child of the root reads
  `The root tree does not have a 'x' subtree or blob` and ends with a line
  feed. The test at `tests/test_git_ls_tree_node.py:108` expects the first
  version's text, `The '' tree does not have a 'nope' subtree or blob`.
  `RootMessageOfTests` and `RootMessagesDiffer` prove the two can never be
  equal.

## Model

| member | source | states |
|---|---|---|
| Strings.LJust | git_ls_anytree/git_ls_tree.py:103-105 | `s.ljust(w)` has length `max(|s|, w)`, keeps `s` as its prefix, and is blank after it; it never truncates |
| Strings.RJust | git_ls_anytree/git_ls_tree.py:116 | `s.rjust(w)` has length `max(|s|, w)`, ends with `s`, and is blank before it; it never truncates |
| Strings.DecimalString | git_ls_anytree/git_ls_tree.py:49 | `'%s' % n` for `n >= 0` is a non-empty string of digits with no leading zero (except "0") that reads back as `n` |
| PosixPath.HeadLength | git_ls_anytree/convert_path_to_list.py:7 | the position after the last '/' of the path: the character before it is '/', and none after it is |
| PosixPath.HeadLengthUnique | git_ls_anytree/convert_path_to_list.py:7 | those three properties determine the position after the last '/' |
| PosixPath.RStripSlashes | git_ls_anytree/convert_path_to_list.py:7 | `rstrip('/')` is a prefix that does not end in '/', and only slashes were removed |
| PosixPath.RStripSlashesUnique | git_ls_anytree/convert_path_to_list.py:7 | those three properties determine `rstrip('/')` |
| PosixPath.SplitCharacterization | git_ls_anytree/convert_path_to_list.py:7 | `posixpath.split`: the tail is the slash-free end after the last '/'; the head is a prefix separated from it by slashes only; the head is empty iff the path has no '/'; the head keeps trailing slashes only when it is all slashes |
| PosixPath.Split | git_ls_anytree/convert_path_to_list.py:7 | `posixpath.split`; its contract is stated by `SplitCharacterization` |
| PosixPath.Basename | git_ls_anytree/git_ls_tree_node.py:98-102 | `posixpath.basename`; its contract is stated by `BasenameAfterLastSlash` |
| PosixPath.BasenameAfterLastSlash | git_ls_anytree/git_ls_tree_node.py:98-102 | the basename is the slash-free end of the path, preceded by '/' when shorter than the path |
| PosixPath.DirnameShrinks | git_ls_anytree/convert_path_to_list.py:7-9 | on a path not starting with "//", the dirname is empty, "/", or strictly shorter and again not starting with "//" |
| PosixPath.DirnameKeepsDoubleSlash | git_ls_anytree/convert_path_to_list.py:7-9 | on a path starting with "//", the dirname again starts with "//" |
| PosixPath.DirnameOfRelative | git-ls-anytree/convert_path_to_list.py:5-6 | on a path not starting with '/', the dirname is empty or strictly shorter and starts with the same character |
| PosixPath.DirnameOfAbsolute | git-ls-anytree/convert_path_to_list.py:5-6 | on a path starting with '/', the dirname is non-empty and starts with '/' |
| ConvertPathToList.ConvertPathToList | git_ls_anytree/convert_path_to_list.py:5-11 | the exploded path is non-empty, ends with the basename, and has no '/' in any segment |
| ConvertPathToList.ConvertTerminates | git_ls_anytree/convert_path_to_list.py:5-11 | on a path not starting with "//", the recursion stops within more nested calls than the path has characters, with the exploded path |
| ConvertPathToList.ConvertDivergesOnDoubleSlash | git_ls_anytree/convert_path_to_list.py:8-9 | on a path starting with "//", the recursion never stops, whatever the budget of nested calls |
| ConvertPathToList.ConvertWithoutSlash | git_ls_anytree/convert_path_to_list.py:10-11 | a path without '/' explodes to itself alone |
| ConvertPathToList.ConvertSlashThenName | git_ls_anytree/convert_path_to_list.py:8-11 | "/name" explodes to `[name]`, because the dirname "/" stops the recursion |
| ConvertPathToList.ConvertDropsLeadingSlash | git_ls_anytree/convert_path_to_list.py:8-11 | a single leading '/' is discarded: "/q" explodes like "q" |
| ConvertPathToList.ConvertCleanPath | git_ls_anytree/convert_path_to_list.py:5-11 | on a path with no empty piece between slashes, the exploded path is `p.split('/')`, has one more segment than `p` has slashes, and joins back to `p` |
| ConvertPathToList.ConvertJoin | git_ls_anytree/convert_path_to_list.py:5-11 | exploding the '/'-join of non-empty slash-free segments gives the segments back |
| ConvertPathToList.ConvertFileExample | tests/test_convert_path_to_list.py:7 | "file.ext" explodes to `["file.ext"]` |
| ConvertPathToList.ConvertRootedFileExample | tests/test_convert_path_to_list.py:8 | "/file.ext" explodes to `["file.ext"]` |
| ConvertPathToList.ConvertDirectoryExample | tests/test_convert_path_to_list.py:11 | "path/to/directory" explodes to `["path", "to", "directory"]` |
| ConvertPathToList.ConvertRootedDirectoryExample | tests/test_convert_path_to_list.py:12 | "/path/to/directory" explodes to `["path", "to", "directory"]` |
| ConvertPathToList.ConvertBackslashExample | tests/test_convert_path_to_list.py:15 | a backslash path is not split |
| LegacyConvertPathToList.LegacyConvertPathToList | git-ls-anytree/convert_path_to_list.py:3-6 | the first version's exploded path is non-empty, ends with the basename, and has no '/' in any segment |
| LegacyConvertPathToList.LegacyConvertTerminates | git-ls-anytree/convert_path_to_list.py:3-6 | on a path not starting with '/', the recursion stops within more nested calls than the path has characters |
| LegacyConvertPathToList.LegacyConvertDivergesOnAbsolutePath | git-ls-anytree/convert_path_to_list.py:5-6 | on a path starting with '/' (such as "/file.ext"), the first version's recursion never stops |
| LegacyConvertPathToList.LegacyAgreesWithCurrent | git-ls-anytree/convert_path_to_list.py:3-6 | on every path the first version handles, the current version gives the same list |
| LsTreeLine.Token | git_ls_anytree/git_ls_tree_node.py:17-37 | a greedy character-class run: the run and the rest make up the input, the run is all in the class, and the rest does not start in the class |
| LsTreeLine.TokenUnique | git_ls_anytree/git_ls_tree_node.py:17-37 | any split with those properties is the greedy run's split |
| LsTreeLine.FirstPrefix | git_ls_anytree/git_ls_tree_node.py:22-24 | the alternation picks an alternative that prefixes the input, or fails only when none does |
| LsTreeLine.ItemTypesDistinctInitials | git_ls_anytree/git_ls_tree_node.py:22-24 | `blob`, `tree` and `commit` start with distinct letters, so backtracking into the alternation cannot change the type |
| LsTreeLine.FirstPrefixOfItemType | git_ls_anytree/git_ls_tree_node.py:22-24 | on a line continuing with an item type, the alternation picks that type |
| LsTreeLine.MatchPathEnd | git_ls_anytree/git_ls_tree_node.py:33-36 | `\s+(.*)$` splits the rest into a blank run, a path without line feed that does not start blank, and an optional final line feed |
| LsTreeLine.MatchPathEndComplete | git_ls_anytree/git_ls_tree_node.py:33-36 | every blank run, path and line end the pattern allows is matched, with the path stripped of its leading blanks |
| LsTreeLine.MatchFields | git_ls_anytree/git_ls_tree_node.py:25-36 | a match of the object, size and path reproduces the line and satisfies the pattern's reading of those fields |
| LsTreeLine.MatchFieldsComplete | git_ls_anytree/git_ls_tree_node.py:25-36 | every decomposition of object, size and path the pattern allows is found, with the same object and size |
| LsTreeLine.MatchLine | git_ls_anytree/git_ls_tree_node.py:71 | a match is a decomposition the pattern allows, reproduces the line, and has a path that does not start blank |
| LsTreeLine.MatchLineComplete | git_ls_anytree/git_ls_tree_node.py:17-37 | every decomposition the pattern allows is found, with the same mode, type, object and size and the path stripped of leading blanks |
| LsTreeLine.MatchLineIffDecomposable | git_ls_anytree/git_ls_tree_node.py:17-37 | the matcher succeeds exactly on the lines the pattern describes |
| LsTreeLine.LegacyMatchIsCurrentMatch | git-ls-anytree/git_ls_tree_node.py:18 | every line the first version's pattern matches, the current pattern matches identically |
| LsTreeLine.CurrentMatchInLegacy | git-ls-anytree/git_ls_tree_node.py:18 | a current match of type other than `commit` is the first version's match; a `commit` line is not matched by the first version |
| LocalExceptions.Message | git_ls_anytree/local_exceptions.py:16-21 | the message; `MessageDecodes`, `RootMessageDecodes` and `RootMessageText` state what it holds |
| LocalExceptions.Str | git_ls_anytree/local_exceptions.py:23-24 | `str(e)` is the message of the exception's path and child |
| LocalExceptions.MessageDecodes | git_ls_anytree/local_exceptions.py:16-21 | below the root, the message split at its quotes gives back the owning path and the missing child |
| LocalExceptions.RootMessageDecodes | git_ls_anytree/local_exceptions.py:19 | for the root, the message says `root` and quotes only the missing child, which splits back out |
| LegacyLocalExceptions.LegacyMessage | git-ls-anytree/local_exceptions.py:5-6 | the first version's message; `LegacyMessageDecodes` and `LegacyRootMessageText` state what it holds |
| LegacyLocalExceptions.LegacyStr | git-ls-anytree/local_exceptions.py:8-9 | `str(e)` is the first version's message of the exception's path and child |
| LegacyLocalExceptions.LegacyMessageDecodes | git-ls-anytree/local_exceptions.py:5-6 | the first version's message split at its quotes gives back the owning path (empty for the root) and the missing child |
| LegacyLocalExceptions.MessageExtendsLegacy | git_ls_anytree/local_exceptions.py:16-21 | below the root, the current message is the first version's plus a line feed |
| LegacyLocalExceptions.RootMessagesDiffer | git_ls_anytree/local_exceptions.py:19 | for the root, the current message is three characters longer than the first version's, so they always differ |
| LegacyLocalExceptions.RootMessageOfTests | tests/test_git_ls_tree_node.py:108 | the text the test expects for a root without `nope` is not what the current version produces |
| GitLsTreeNode.ConvertPath | git_ls_anytree/git_ls_tree_node.py:103-104 | each version's exploded path ends with the basename and has slash-free segments |
| GitLsTreeNode.NodeOf | git_ls_anytree/git_ls_tree_node.py:43-104 | `GitLsTreeNode(raw_git_output, name)`: `NodeFromMatch` on the match of the line, whose contract it inherits |
| GitLsTreeNode.NodeFromMatch | git_ls_anytree/git_ls_tree_node.py:64-104 | without a match every field stays empty; with one, the fields are the groups, the basename is the path's, the path is exploded when non-empty and ends with the basename, and the name falls back on the basename |
| GitLsTreeNode.NewNode | git_ls_anytree/git_ls_tree_node.py:43-104 | the constructor's field-by-field assignments build the node `NodeFromMatch` describes |
| GitLsTreeNode.DefaultNode | git_ls_anytree/git_ls_tree_node.py:52-60 | `GitLsTreeNode()` has every field empty |
| GitLsTreeNode.NodeOfNonLine | git_ls_anytree/git_ls_tree_node.py:71-72 | a line the pattern does not describe leaves every field empty and no exploded path |
| GitLsTreeNode.NodeOfLayout | git_ls_anytree/git_ls_tree_node.py:71-97 | a line laid out as the pattern describes sets mode, type, object and size to its tokens and the path to the rest after the blanks |
| GitLsTreeNode.Classify | git_ls_anytree/git_ls_tree_node.py:106-139 | an unknown mode classifies as "" (no error); the short form has at most one character; the long form is non-empty iff the mode is in the table |
| GitLsTreeNode.ClassifySuffixes | git_ls_anytree/git_ls_tree_node.py:111-137 | '/' iff directory or gitlink, '*' iff executable, '@' iff symlink, "" iff regular file or unknown mode |
| GitLsTreeNode.FirstNamed | git_ls_anytree/git_ls_tree_node.py:155-157 | the position of the first child with the given basename, with no earlier one of that name, or the end when there is none |
| GitLsTreeNode.Walk | git_ls_anytree/git_ls_tree_node.py:141-159 | one segment: the node itself, the list untouched; none: `IndexError`; more: the head is popped, and a found node is in the tree |
| GitLsTreeNode.WalkFinds | git_ls_anytree/git_ls_tree_node.py:154-157 | a successful walk returns a direct child of the node named by the head, with no earlier child of that name |
| GitLsTreeNode.WalkRaises | git_ls_anytree/git_ls_tree_node.py:159 | a failing walk raises `BrokenTreeError(node, head)`, and then no child has that name |
| GitLsTreeNode.WalkToParentNode | git_ls_anytree/git_ls_tree_node.py:141-159 | the loop over the children returns what `Walk` specifies, with the list left after `pop(0)` |
| LegacyGitLsTreeNode.LegacyIgnoresCommitLine | git-ls-anytree/git_ls_tree_node.py:18 | a submodule (`commit`) line gives the first version a node with every field empty |
| LegacyGitLsTreeNode.LegacyNodeAgrees | git-ls-anytree/git_ls_tree_node.py:41-57 | on every line but a current-version `commit` line, both versions build the same node: both match it the same way, or neither matches it |
| LegacyGitLsTreeNode.LegacyRootMessageText | git-ls-anytree/local_exceptions.py:5-6 | the first version's root message reads `The '' tree does not have a 'x' subtree or blob` |
| LegacyGitLsTreeNode.RootMessageText | git_ls_anytree/local_exceptions.py:16-21 | the current root message reads `The root tree does not have a 'x' subtree or blob` and a line feed |
| LegacyGitLsTreeNode.WalkFromRootMessages | tests/test_git_ls_tree_node.py:105-108 | walking from a root to a child it lacks raises `BrokenTreeError(root, child)`, leaves the rest of the list, and gives each version's message text |
| Arena.IndicesWithParentSpec | git_ls_anytree/git_ls_tree_node.py:155 | the derived children of a node are exactly the nodes whose parent it is, each once, in attachment order |
| Arena.Single | git_ls_anytree/git_ls_tree.py:35 | a tree of a root alone is well formed |
| Arena.Attach | git_ls_anytree/git_ls_tree.py:73 | setting the parent of a new node appends it with that parent, and the tree stays well formed |
| Arena.AttachChildren | git_ls_anytree/git_ls_tree.py:73 | after attaching, the new node is the parent's last child, every other node keeps its children, and the new node has none |
| Arena.ChildrenAfterParent | git_ls_anytree/git_ls_tree_node.py:155 | the children of a node come after it, have it as parent, and are in increasing order |
| Arena.ReachesRoot | git_ls_anytree/git_ls_tree.py:71-73 | every node's chain of parents reaches the root |
| Arena.AttachDepth | git_ls_anytree/git_ls_tree.py:107 | attaching keeps every depth, and the new node is one deeper than its parent |
| Arena.AttachKeepsShallow | git_ls_anytree/git_ls_tree.py:73 | attaching under the root or a child of the root keeps every depth at most two |
| RenderTree.Glyphs | git_ls_anytree/git_ls_tree.py:85 | each ancestor level contributes four columns of prefix |
| RenderTree.Item | git_ls_anytree/git_ls_tree.py:85 | a node's prefix and fill are four columns per level of its flags |
| RenderTree.Render | git_ls_anytree/git_ls_tree.py:85 | `RenderTree(root)`; `RenderIsPermutation` and `RenderIndents` state its promise |
| RenderTree.VisitCount | git_ls_anytree/git_ls_tree.py:85 | the rows of a subtree show each node of the subtree once and nothing else |
| RenderTree.RenderIsPermutation | git_ls_anytree/git_ls_tree.py:85 | `RenderTree(root)` shows every node of the tree exactly once |
| RenderTree.VisitIndents | git_ls_anytree/git_ls_tree.py:85 | every row of a subtree is indented by four columns per level of depth |
| RenderTree.RenderIndents | git_ls_anytree/git_ls_tree.py:85 | the first row is the root with no prefix, and every row is indented by its node's depth |
| GitLsTree.RootNode | git_ls_anytree/git_ls_tree.py:35-41 | the root is named by the tree-ish, has no path, and carries the column headers `mode`, `type`, `object`, `size` |
| GitLsTree.AttachNode | git_ls_anytree/git_ls_tree.py:72-73 | a successful attach adds exactly one node, the line's, and leaves the old nodes and their parents untouched |
| GitLsTree.AttachNodeParent | git_ls_anytree/git_ls_tree.py:73 | a node with one segment goes under the root; with more, it goes under the root's first child named by its first segment, keeping the other segments |
| GitLsTree.AttachNodeFailure | git_ls_anytree/git_ls_tree.py:73 | an attach fails with `IndexError` iff the node has no exploded path, otherwise with `BrokenTreeError(root, first segment)` when no child of the root has that name |
| GitLsTree.NodesOfLines | git_ls_anytree/git_ls_tree.py:71-72 | one node per line; each keeps its line; a line that does not match gives a node with every field empty; a matching line gives its groups, a name equal to the basename and, for a non-empty path, segments ending with the basename |
| GitLsTree.Build | git_ls_anytree/git_ls_tree.py:71-73 | the loop keeps the tree well formed and adds at most one node per line |
| GitLsTree.BuildKeepsOldNodes | git_ls_anytree/git_ls_tree.py:71-73 | the nodes already in the tree and their parents are untouched |
| GitLsTree.BuildAddsInOrder | git_ls_anytree/git_ls_tree.py:71-73 | the nodes added are those of the lines, in order |
| GitLsTree.BuildStops | git_ls_anytree/git_ls_tree.py:71-73 | the loop stops exactly at the first line whose walk raises, returning that exception; with no exception every line is attached |
| GitLsTree.BuildKeepsShallow | git_ls_anytree/git_ls_tree.py:69-73 | a tree no deeper than two levels stays so |
| GitLsTree.ParseLines | git_ls_anytree/git_ls_tree.py:69-73 | `parse_tree_ish` on the nodes of the lines; `BuildStops`, `BuildAddsInOrder` and `BuildKeepsShallow` state its promise |
| GitLsTree.AttachLines | git_ls_anytree/git_ls_tree.py:69-73 | the loop over the lines leaves the tree and the exception `ParseLines` specifies |
| GitLsTree.MaxLineLength | git_ls_anytree/git_ls_tree.py:90-94 | the running maximum is at least every line's length, 0 with no rows |
| GitLsTree.MaxSizeLength | git_ls_anytree/git_ls_tree.py:95-99 | the running maximum is at least every size's length, 0 with no rows |
| GitLsTree.MaxLengthsAttained | git_ls_anytree/git_ls_tree.py:82-99 | each maximum is the length of some row, so no column is wider than needed |
| GitLsTree.MaxLengthsSnoc | git_ls_anytree/git_ls_tree.py:90-99 | one more row raises each maximum to that row's length when it is longer |
| GitLsTree.JustifiedAll | git_ls_anytree/git_ls_tree.py:109-116 | the second loop keeps one row per row |
| GitLsTree.ListRows | git_ls_anytree/git_ls_tree.py:85-108 | the first loop builds one row per rendered node and the two running maxima |
| GitLsTree.JustifyRows | git_ls_anytree/git_ls_tree.py:109-116 | the second loop justifies every row's line and size in place |
| GitLsTree.RenderedLines | git_ls_anytree/git_ls_tree.py:80-117 | `render_to_list`; `RenderedLinesColumns` states its promise |
| GitLsTree.RenderedLinesColumns | git_ls_anytree/git_ls_tree.py:80-117 | one row per node in pre-order; each line is prefix, printed name and optional suffix, blank-padded to the longest line; sizes are right-justified to the longest size; the size is the node's, preceded by blanks; the mode and the type are the node's, blank-padded to 6, and the object the node's, blank-padded to the abbreviation width, never cut; the depth is the node's |
| GitLsTree.PrintLine | git_ls_anytree/git_ls_tree.py:122-131 | one printed line; `PrintLineColumns` states that it splits back into the columns |
| GitLsTree.PrintLines | git_ls_anytree/git_ls_tree.py:121-131 | one printed line per row, in order: the name alone, or the five tab-separated columns |
| GitLsTree.PrintLineColumns | git_ls_anytree/git_ls_tree.py:125-131 | a full printed line splits back at its tabs into the five columns when none holds a tab |
| GitLsTree.GitLsTree.constructor | git_ls_anytree/git_ls_tree.py:20-56 | the root alone with headers; the working directory defaults to the current one; `-d` for trees only; a non-zero abbrev adds `--abbrev=n` when non-negative and sets the object width to at least 6, otherwise the width is 40 |
| GitLsTree.GitLsTree.QueryArgv | git_ls_anytree/git_ls_tree.py:64 | the command is the base call, the extra options, the tree-ish and the patterns, in that order |
| GitLsTree.GitLsTree.ParseTreeIsh | git_ls_anytree/git_ls_tree.py:69-73 | the tree becomes what `ParseLines` specifies, stays no deeper than two levels, and the options are untouched |
| GitLsTree.GitLsTree.RenderToList | git_ls_anytree/git_ls_tree.py:80-117 | the two loops return the rows `RenderedLines` specifies |
| GitLsTree.GitLsTree.PrettyPrint | git_ls_anytree/git_ls_tree.py:119-131 | one printed line per rendered row, as `PrintLine` formats it |
| LegacyGitLsTree.FinalizeTreeIsh | git-ls-anytree/git_ls_tree.py:27-29 | `finalize_tree_ish`; `FinalizeTreeIshSplits` states that it reads back |
| LegacyGitLsTree.FinalizeTreeIshSplits | git-ls-anytree/git_ls_tree.py:27-29 | for a tree-ish without ':', the finalized name splits at its first ':' back into the tree-ish and the path |
| LegacyGitLsTree.LegacyRootNode | git-ls-anytree/git_ls_tree.py:22-24 | the first version's root has the finalized name and every other field empty |
| LegacyGitLsTree.LegacyParseAgrees | git-ls-anytree/git_ls_tree.py:39-43 | on lines none of which is a `commit` line, both versions build the same tree and stop with the same exception |
| LegacyGitLsTree.LegacyGitLsTree.constructor | git-ls-anytree/git_ls_tree.py:14-24 | the finalized root alone and the working directory given, with the query `git ls-tree <tree-ish> -rtl` |
| LegacyGitLsTree.LegacyGitLsTree.QueryArgv | git-ls-anytree/git_ls_tree.py:34 | the command is `git ls-tree`, the root's name and `-rtl` |
| LegacyGitLsTree.LegacyGitLsTree.ParseTreeIsh | git-ls-anytree/git_ls_tree.py:39-43 | the tree becomes what `ParseLines` specifies on the first version's nodes, and stays no deeper than two levels |

## Left out

- `query_tree_ish` and `process_tree_ish` are left out: they run git with `check_output` and split its output with `strip().split('\n')`. The constructors do not build the tree. `ParseTreeIsh` takes the lines git would print.
- `getcwd()` is the `cwd` parameter of the current constructor. The first version's default working directory is likewise a value the caller passes.
- The command-line front ends (`cli.py`, `cli_file.py`), `__version__` and `setup.py` are not part of this model.
- anytree is not part of this model. `NodeMixin` is the arena of `Arena`, and `RenderTree` is modelled with its default `ContStyle` glyphs. anytree's own checks (such as loop detection on `parent =`) cannot fire here, because a new node never has children.
- The UTF-8 encode/decode around each rendered line is left out: strings are sequences of code points, so lengths are those of the decoded text.
- `print` is left out: `PrettyPrint` returns the lines it would write.
- `re.match` is not modelled as a general regex engine: `MatchLine` matches the one pattern of each version.
- GitLsTreeNode.NodeOf: requires that the line's path explode. On a path starting with "//" (current) or '/' (first version), `convert_path_to_list` recurses until the interpreter's recursion limit raises `RecursionError`. `ConvertDivergesOnDoubleSlash` and `LegacyConvertDivergesOnAbsolutePath` prove that the recursion never stops. `git ls-tree` never prints such paths.
- ConvertPathToList.ConvertPathToList: the recursion limit itself is not modelled. `ConvertTerminates` bounds the nesting by the path's length, not by the interpreter's limit of about a thousand frames.
- GitLsTree.GitLsTree.ParseTreeIsh: returns the first exception of the loop instead of raising it. The nodes attached before it stay attached, as in the source.
- `walk_to_parent_node`'s `pop(0)` on the caller's list is modelled by returning the remaining list. The node is then attached holding that list.
- `BrokenTreeError` keeps the owning node (its index), the owning node's path and the missing child. The message is computed from those fields by `Str` (current) or `LegacyStr` (first version).
- GitLsTree.GitLsTree.constructor: `abbrev` is an integer or absent. The `int(abbrev)` conversion of other values, and the `ValueError` it can raise, are left out. `patterns` falsy-to-`[]` is the empty sequence.

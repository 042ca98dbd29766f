/** `convert_path_to_list` of the first version of the program: the dirname
    is exploded whenever it is non-empty, "/" included. */
module LegacyConvertPathToList {
  import opened Wrappers
  import opened Strings
  import opened PosixPath
  import ConvertPathToList

  /** The exploded path. Defined only for paths that do not start with '/':
      on those the recursion never reaches its stopping case (see
      `LegacyConvertDivergesOnAbsolutePath`). */
  function LegacyConvertPathToList(p: string): (r: seq<string>)
    requires p == [] || p[0] != '/'
    ensures |r| >= 1
    ensures r[|r| - 1] == Basename(p)
    ensures forall k :: 0 <= k < |r| ==> Free(r[k], '/')
    decreases |p|
  {
    var (dirname, basename) := Split(p);
    if dirname != [] then
      DirnameOfRelative(p);
      LegacyConvertPathToList(dirname) + [basename]
    else
      [basename]
  }

  /** The same recursion run with a budget of `depth` nested calls; `None`
      when the budget runs out. */
  function LegacyConvertWithinDepth(p: string, depth: nat): Option<seq<string>>
    decreases depth
  {
    if depth == 0 then None
    else
      var (dirname, basename) := Split(p);
      if dirname != [] then
        match LegacyConvertWithinDepth(dirname, depth - 1)
        case None => None
        case Some(front) => Some(front + [basename])
      else
        Some([basename])
  }

  /** Every path that does not start with '/' is exploded within a number of
      nested calls bounded by its length. */
  lemma {:induction false} LegacyConvertTerminates(p: string, depth: nat)
    requires p == [] || p[0] != '/'
    requires depth > |p|
    ensures LegacyConvertWithinDepth(p, depth) == Some(LegacyConvertPathToList(p))
    decreases |p|
  {
    var dirname := Split(p).0;
    if dirname != [] {
      DirnameOfRelative(p);
      LegacyConvertTerminates(dirname, depth - 1);
      assert LegacyConvertWithinDepth(p, depth)
        == Some(LegacyConvertPathToList(dirname) + [Split(p).1]);
    }
  }

  /** A path that starts with '/' is never exploded, whatever the budget:
      every call recurses again on a dirname that starts with '/'. Absolute
      paths such as "/file.ext" exhaust the interpreter's recursion limit. */
  lemma {:induction false} LegacyConvertDivergesOnAbsolutePath(p: string, depth: nat)
    requires p != [] && p[0] == '/'
    ensures LegacyConvertWithinDepth(p, depth) == None
    decreases depth
  {
    if depth > 0 {
      DirnameOfAbsolute(p);
      LegacyConvertDivergesOnAbsolutePath(Split(p).0, depth - 1);
    }
  }

  /** On every path the first version handles, the current version gives the
      same list: the current one's extra stopping case (a dirname equal to
      "/") never arises on a path that does not start with '/'. */
  lemma {:induction false} LegacyAgreesWithCurrent(p: string)
    requires p == [] || p[0] != '/'
    ensures !StartsWithDoubleSlash(p)
    ensures LegacyConvertPathToList(p) == ConvertPathToList.ConvertPathToList(p)
    decreases |p|
  {
    var dirname := Split(p).0;
    DirnameOfRelative(p);
    if dirname != [] {
      LegacyAgreesWithCurrent(dirname);
    }
  }
}

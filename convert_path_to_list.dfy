/** `convert_path_to_list` of the current package: explode a path at '/' by
    splitting off the basename and recursing on the dirname until the
    dirname is empty or exactly "/". */
module ConvertPathToList {
  import opened Wrappers
  import opened Strings
  import opened PosixPath

  /** The exploded path. Defined only for paths that do not start with "//":
      on those the recursion never reaches its stopping case (see
      `ConvertDivergesOnDoubleSlash`). */
  function ConvertPathToList(p: string): (r: seq<string>)
    requires !StartsWithDoubleSlash(p)
    ensures |r| >= 1
    ensures r[|r| - 1] == Basename(p)
    ensures forall k :: 0 <= k < |r| ==> Free(r[k], '/')
    decreases |p|
  {
    var (dirname, basename) := Split(p);
    if 0 < |dirname| && "/" != dirname then
      DirnameShrinks(p);
      ConvertPathToList(dirname) + [basename]
    else
      [basename]
  }

  /** The same recursion run with a budget of `depth` nested calls, as the
      interpreter's recursion limit imposes; `None` when the budget runs out. */
  function ConvertWithinDepth(p: string, depth: nat): Option<seq<string>>
    decreases depth
  {
    if depth == 0 then None
    else
      var (dirname, basename) := Split(p);
      if 0 < |dirname| && "/" != dirname then
        match ConvertWithinDepth(dirname, depth - 1)
        case None => None
        case Some(front) => Some(front + [basename])
      else
        Some([basename])
  }

  /** Every path that does not start with "//" is exploded within a number of
      nested calls bounded by its length. */
  lemma {:induction false} ConvertTerminates(p: string, depth: nat)
    requires !StartsWithDoubleSlash(p)
    requires depth > |p|
    ensures ConvertWithinDepth(p, depth) == Some(ConvertPathToList(p))
    decreases |p|
  {
    var dirname := Split(p).0;
    if 0 < |dirname| && "/" != dirname {
      DirnameShrinks(p);
      ConvertTerminates(dirname, depth - 1);
      assert ConvertWithinDepth(p, depth) == Some(ConvertPathToList(dirname) + [Split(p).1]);
    }
  }

  /** A path that starts with "//" is never exploded, whatever the budget:
      every call recurses again on a dirname that starts with "//". */
  lemma {:induction false} ConvertDivergesOnDoubleSlash(p: string, depth: nat)
    requires StartsWithDoubleSlash(p)
    ensures ConvertWithinDepth(p, depth) == None
    decreases depth
  {
    if depth > 0 {
      DirnameKeepsDoubleSlash(p);
      ConvertDivergesOnDoubleSlash(Split(p).0, depth - 1);
    }
  }

  /** A path without '/' explodes to itself alone ("file.ext", or a
      backslash path such as "C:\WINDOWS\system32"). */
  lemma ConvertWithoutSlash(p: string)
    requires Free(p, '/')
    ensures !StartsWithDoubleSlash(p) && ConvertPathToList(p) == [p]
  {
    HeadLengthUnique(p, 0);
  }

  /** Splitting "/q", for a `q` that has a '/' but does not start with one,
      gives "/" before the head of `q` and the same tail. */
  lemma SplitUnderLeadingSlash(q: string)
    requires q != [] && q[0] != '/' && !Free(q, '/')
    ensures Split("/" + q) == ("/" + Split(q).0, Split(q).1)
    ensures Split(q).0 != [] && Split(q).0[0] == q[0]
  {
    SplitCharacterization(q);
    var p := "/" + q;
    var (d, t) := Split(q);
    var m := HeadLength(q);
    HeadLengthUnique(p, m + 1);
    var head := p[..m + 1];
    assert head == "/" + q[..m];
    assert head[1] == q[0] && !AllSlashes(head);
    forall k | |d| + 1 <= k < |head| ensures head[k] == '/' {
      assert head[k] == q[..m][k - 1];
    }
    RStripSlashesUnique(head, "/" + d);
    assert p[m + 1..] == q[m..];
  }

  /** "/q" for a slash-free `q` explodes to `q` alone. */
  lemma ConvertSlashThenName(q: string)
    requires Free(q, '/')
    ensures !StartsWithDoubleSlash("/" + q) && ConvertPathToList("/" + q) == [q]
  {
    var p := "/" + q;
    HeadLengthUnique(p, 1);
    assert p[..1] == "/" && AllSlashes(p[..1]);
    assert p[1..] == q;
    assert Split(p) == ("/", q);
  }

  /** A single leading '/' is discarded: "/q" explodes like "q". */
  lemma {:induction false} ConvertDropsLeadingSlash(p: string)
    requires p != [] && p[0] == '/' && !StartsWithDoubleSlash(p)
    ensures ConvertPathToList(p) == ConvertPathToList(p[1..])
    decreases |p|
  {
    var q := p[1..];
    assert p == "/" + q;
    if Free(q, '/') {
      ConvertSlashThenName(q);
    } else {
      SplitUnderLeadingSlash(q);
      var d := Split(q).0;
      DirnameShrinks(q);
      assert ("/" + d)[1..] == d;
      ConvertDropsLeadingSlash("/" + d);
    }
  }

  /** A clean path: no piece of `p.split('/')` is empty, so the path is
      non-empty and has no leading, trailing or doubled '/'. */
  predicate CleanPath(p: string) {
    forall k :: 0 <= k < |SplitOn(p, '/')| ==> SplitOn(p, '/')[k] != []
  }

  /** `p.split('/')` for a path with a '/': the pieces of the text before the
      last '/', then the slash-free text after it. */
  lemma SplitOnLastSlash(p: string)
    requires !Free(p, '/')
    ensures var i := HeadLength(p);
      i > 0 && SplitOn(p, '/') == SplitOn(p[..i - 1], '/') + [p[i..]]
  {
    var i := HeadLength(p);
    var a, t := p[..i - 1], p[i..];
    assert p == a + ['/'] + t;
    var sa := SplitOn(a, '/');
    JoinSnoc(sa, t, '/');
    SplitOnJoin(sa + [t], '/');
  }

  /** Dropping the last piece keeps every remaining piece non-empty. */
  lemma NonEmptyPiecesPrefix(pieces: seq<string>, last: string)
    requires forall k :: 0 <= k < |pieces| + 1 ==> (pieces + [last])[k] != []
    ensures forall k :: 0 <= k < |pieces| ==> pieces[k] != []
  {
    forall k | 0 <= k < |pieces| ensures pieces[k] != [] {
      assert (pieces + [last])[k] == pieces[k];
    }
  }

  /** When the last '/' of `p` is not preceded by another '/', the head is
      the text before that '/'. */
  lemma SplitBeforeSingleSlash(p: string)
    requires var i := HeadLength(p); i >= 2 && p[i - 2] != '/'
    ensures Split(p) == (p[..HeadLength(p) - 1], p[HeadLength(p)..])
  {
    var i := HeadLength(p);
    var head, a := p[..i], p[..i - 1];
    assert a <= head && head[i - 1] == '/' && head[0] == p[0];
    RStripSlashesUnique(head, a);
  }

  /** A clean path with a '/' splits at its last '/' into a clean, shorter
      dirname and the last piece of `p.split('/')`. */
  lemma SplitCleanPath(p: string)
    requires CleanPath(p) && !Free(p, '/')
    ensures var (a, t) := Split(p);
      && CleanPath(a) && |a| < |p| && a != [] && a[0] == p[0]
      && SplitOn(p, '/') == SplitOn(a, '/') + [t]
  {
    var i := HeadLength(p);
    SplitOnLastSlash(p);
    var a := p[..i - 1];
    var sa := SplitOn(a, '/');
    NonEmptyPiecesPrefix(sa, p[i..]);
    JoinEndsWithLastPart(sa, '/');
    assert a != [] && a[|a| - 1] != '/';
    SplitBeforeSingleSlash(p);
    assert CleanPath(a);
  }

  /** On a clean path `convert_path_to_list` is `p.split('/')`: it has one
      more segment than `p` has '/', and joining the segments with '/' gives
      the path back. */
  lemma {:induction false} ConvertCleanPath(p: string)
    requires CleanPath(p)
    ensures !StartsWithDoubleSlash(p)
    ensures ConvertPathToList(p) == SplitOn(p, '/')
    ensures |ConvertPathToList(p)| == Count(p, '/') + 1
    ensures Join(ConvertPathToList(p), '/') == p
    decreases |p|
  {
    SplitOnCount(p, '/');
    assert SplitOn(p, '/')[0] != [];
    assert p != [] && p[0] != '/';
    if Free(p, '/') {
      ConvertWithoutSlash(p);
      SplitOnFreePrefix(p, "", '/');
    } else {
      SplitCleanPath(p);
      ConvertCleanPath(Split(p).0);
    }
  }

  /** Exploding the '/'-join of non-empty, slash-free segments gives the
      segments back. */
  lemma ConvertJoin(segments: seq<string>)
    requires |segments| >= 1
    requires forall k :: 0 <= k < |segments| ==> segments[k] != [] && Free(segments[k], '/')
    ensures !StartsWithDoubleSlash(Join(segments, '/'))
    ensures ConvertPathToList(Join(segments, '/')) == segments
  {
    SplitOnJoin(segments, '/');
    ConvertCleanPath(Join(segments, '/'));
  }

  /** The examples the program's own tests check: a basename alone, with a
      leading '/', and a backslash path. */
  lemma ConvertFileExample(p: string)
    requires p == "file.ext"
    ensures ConvertPathToList(p) == ["file.ext"]
  {
    ConvertWithoutSlash(p);
  }

  lemma ConvertRootedFileExample(p: string)
    requires p == "/file.ext"
    ensures ConvertPathToList(p) == ["file.ext"]
  {
    ConvertDropsLeadingSlash(p);
    ConvertFileExample(p[1..]);
  }

  lemma ConvertBackslashExample(p: string)
    requires p == "C:\\WINDOWS\\system32"
    ensures ConvertPathToList(p) == [p]
  {
    ConvertWithoutSlash(p);
  }

  /** The directory examples of the program's own tests. */
  lemma ConvertDirectoryExample(p: string)
    requires p == "path/to/directory"
    ensures ConvertPathToList(p) == ["path", "to", "directory"]
  {
    var segments := ["path", "to", "directory"];
    assert Join(segments, '/') == p;
    ConvertJoin(segments);
  }

  lemma ConvertRootedDirectoryExample(p: string)
    requires p == "/path/to/directory"
    ensures ConvertPathToList(p) == ["path", "to", "directory"]
  {
    ConvertDropsLeadingSlash(p);
    ConvertDirectoryExample(p[1..]);
  }
}

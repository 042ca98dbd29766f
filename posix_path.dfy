/** The parts of Python's `posixpath` module the program calls: `split` and
    `basename`. Only '/' is a separator. */
module PosixPath {
  import opened Strings

  predicate AllSlashes(s: string) {
    forall k :: 0 <= k < |s| ==> s[k] == '/'
  }

  predicate StartsWithDoubleSlash(p: string) {
    |p| >= 2 && p[0] == '/' && p[1] == '/'
  }

  /** `p.rfind('/') + 1`: the length of the prefix that ends with the last
      '/', or 0 when `p` has no '/'. */
  function HeadLength(p: string): (n: nat)
    ensures n <= |p|
    ensures n > 0 ==> p[n - 1] == '/'
    ensures forall k :: n <= k < |p| ==> p[k] != '/'
  {
    if p == [] then 0
    else if p[|p| - 1] == '/' then |p|
    else HeadLength(p[..|p| - 1])
  }

  /** `s.rstrip('/')`. */
  function RStripSlashes(s: string): (r: string)
    ensures r <= s
    ensures r == [] || r[|r| - 1] != '/'
    ensures forall k :: |r| <= k < |s| ==> s[k] == '/'
  {
    if s == [] || s[|s| - 1] != '/' then s else RStripSlashes(s[..|s| - 1])
  }

  /** The three properties in the contract of `HeadLength` determine it. */
  lemma HeadLengthUnique(p: string, n: nat)
    requires n <= |p|
    requires n > 0 ==> p[n - 1] == '/'
    requires forall k :: n <= k < |p| ==> p[k] != '/'
    ensures HeadLength(p) == n
  {
  }

  /** The three properties in the contract of `RStripSlashes` determine it. */
  lemma RStripSlashesUnique(s: string, r: string)
    requires r <= s
    requires r == [] || r[|r| - 1] != '/'
    requires forall k :: |r| <= k < |s| ==> s[k] == '/'
    ensures RStripSlashes(s) == r
  {
  }

  /** `posixpath.split(p)`: the pair (head, tail) where `tail` is the text
      after the last '/' and `head` the text up to that '/', with trailing
      slashes removed unless the head is made of slashes only. Its
      characterization is `SplitCharacterization`. */
  function Split(p: string): (string, string) {
    var i := HeadLength(p);
    var head, tail := p[..i], p[i..];
    if head != [] && !AllSlashes(head) then (RStripSlashes(head), tail) else (head, tail)
  }

  /** What `posixpath.split` promises: the tail is the longest slash-free
      suffix; the head is a prefix, separated from the tail by slashes only; the
      head is empty exactly when there is no '/'; and the head ends in a
      non-slash unless it is all slashes and reaches the tail. */
  lemma SplitCharacterization(p: string)
    ensures var (head, tail) := Split(p);
      && head <= p && |head| + |tail| <= |p|
      && tail == p[|p| - |tail|..]
      && Free(tail, '/')
      && (|tail| < |p| ==> p[|p| - |tail| - 1] == '/')
      && AllSlashes(p[|head|..|p| - |tail|])
      && (head == [] <==> |tail| == |p|)
      && (head == [] || head[|head| - 1] != '/' || (AllSlashes(head) && |head| + |tail| == |p|))
  {
    var i := HeadLength(p);
    var head := p[..i];
    var d := RStripSlashes(head);
    assert d == [] ==> AllSlashes(head);
  }

  /** `posixpath.basename(p)`: the text after the last '/'. */
  function Basename(p: string): string {
    Split(p).1
  }

  /** The basename is the slash-free end of the path, after its last '/'
      when it has one. */
  lemma BasenameAfterLastSlash(p: string)
    ensures var b := Basename(p);
      && Free(b, '/') && b == p[|p| - |b|..]
      && (|b| < |p| ==> p[|p| - |b| - 1] == '/')
  {
    SplitCharacterization(p);
  }

  /** The dirname of a path that does not start with "//" is either empty,
      exactly "/", or strictly shorter than the path and again free of a
      leading "//": the measure under which `convert_path_to_list` stops. */
  lemma DirnameShrinks(p: string)
    requires !StartsWithDoubleSlash(p)
    ensures var d := Split(p).0;
      d == [] || d == "/" || (|d| < |p| && !StartsWithDoubleSlash(d))
  {
    SplitCharacterization(p);
    var d := Split(p).0;
    if d != [] && d != "/" {
      assert |d| >= 2 ==> d[0] == p[0] && d[1] == p[1];
      assert |d| == 1 ==> d == [d[0]];
    }
  }

  /** A path that starts with "//" has a dirname that again starts with "//":
      `convert_path_to_list` never reaches its stopping case on it. */
  lemma DirnameKeepsDoubleSlash(p: string)
    requires StartsWithDoubleSlash(p)
    ensures var d := Split(p).0; StartsWithDoubleSlash(d) && |d| <= |p|
  {
    SplitCharacterization(p);
    var (d, t) := Split(p);
    assert p[1] == '/';
    assert HeadLength(p) >= 2;
    assert d != [] && d[0] == '/';
    assert |d| == 1 ==> AllSlashes(d);
  }

  /** The dirname of a path that does not start with '/' is empty or a
      strictly shorter path that again does not start with '/'. */
  lemma DirnameOfRelative(p: string)
    requires p == [] || p[0] != '/'
    ensures var d := Split(p).0; d == [] || (|d| < |p| && d[0] == p[0])
  {
    SplitCharacterization(p);
    DirnameShrinks(p);
  }

  /** The dirname of a path that starts with '/' is non-empty and again
      starts with '/'. */
  lemma DirnameOfAbsolute(p: string)
    requires p != [] && p[0] == '/'
    ensures var d := Split(p).0; d != [] && d[0] == '/'
  {
    SplitCharacterization(p);
    assert HeadLength(p) >= 1;
  }
}

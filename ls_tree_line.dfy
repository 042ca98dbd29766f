/** The grammar `process_raw_git_output` matches a line of `git ls-tree -l`
    output against:

      ^(\d{6})\s+(blob|tree|commit)\s+(\w+)\s+([\d\-]+)\s+(.*)$

    (`blob|tree` only in the first version of the program). The program is
    written for Python 2, so the pattern is a byte-string pattern and its
    classes are ASCII: `\d` is 0-9, `\w` is [A-Za-z0-9_], `\s` is space, tab,
    line feed, carriage return, vertical tab and form feed. `.` is any
    character but a line feed, and `$` matches at the very end or before a
    line feed that ends the line.

    `MatchLine` is a deterministic matcher for exactly this pattern. It is
    proved sound and complete against `WellFormed`, the declarative reading
    of the pattern as a decomposition of the line into ten pieces. */
module LsTreeLine {
  import opened Wrappers
  import opened Strings

  /** Which version of the program: the current package or the first one. */
  datatype Dialect = Current | Legacy

  /** `\s` */
  predicate IsSpace(c: char) {
    c == ' ' || c == '\t' || c == '\n' || c == '\r' || c == '\U{000B}' || c == '\U{000C}'
  }

  /** `\w` */
  predicate IsWordChar(c: char) {
    ('a' <= c <= 'z') || ('A' <= c <= 'Z') || ('0' <= c <= '9') || c == '_'
  }

  /** `[\d\-]` */
  predicate IsSizeChar(c: char) {
    ('0' <= c <= '9') || c == '-'
  }

  predicate All(s: string, p: char -> bool) {
    forall k :: 0 <= k < |s| ==> p(s[k])
  }

  /** The longest prefix of `s` whose characters satisfy `p`, and the rest:
      what a greedy `[...]*` consumes. */
  function Token(s: string, p: char -> bool): (r: (string, string))
    ensures r.0 + r.1 == s
    ensures All(r.0, p)
    ensures r.1 == [] || !p(r.1[0])
  {
    if s == [] || !p(s[0]) then ([], s)
    else
      var (a, b) := Token(s[1..], p);
      assert [s[0]] + (a + b) == s;
      ([s[0]] + a, b)
  }

  /** The split of `Token` is the only one with the properties of its
      contract. */
  lemma {:induction false} TokenUnique(a: string, b: string, p: char -> bool)
    requires All(a, p)
    requires b == [] || !p(b[0])
    ensures Token(a + b, p) == (a, b)
  {
    if a == [] {
      assert a + b == b;
    } else {
      assert (a + b)[0] == a[0] && p(a[0]);
      assert (a + b)[1..] == a[1..] + b;
      TokenUnique(a[1..], b, p);
      assert [a[0]] + a[1..] == a;
    }
  }

  /** `s.lstrip()`: `s` without its leading `\s` characters. */
  function LStripSpaces(s: string): string {
    Token(s, IsSpace).1
  }

  /** What remains of `x + y` after its leading blanks: the rest of `x`
      followed by `y`, or, when `x` is blank, what remains of `y`. */
  lemma {:induction false} LStripSpacesAppend(x: string, y: string)
    ensures LStripSpaces(x + y)
      == if LStripSpaces(x) != [] then LStripSpaces(x) + y else LStripSpaces(y)
  {
    var (a, b) := Token(x, IsSpace);
    if b != [] {
      assert x + y == a + (b + y);
      TokenUnique(a, b + y, IsSpace);
    } else {
      var (c, e) := Token(y, IsSpace);
      assert x + y == (a + c) + e;
      TokenUnique(a + c, e, IsSpace);
    }
  }

  /** The alternatives of the `item_type` group, in the order the pattern
      tries them. */
  function ItemTypes(d: Dialect): seq<string> {
    match d
    case Current => ["blob", "tree", "commit"]
    case Legacy => ["blob", "tree"]
  }

  /** The first alternative that is a prefix of `s`, as the regex
      alternation tries them. */
  function FirstPrefix(alts: seq<string>, s: string): (r: Option<string>)
    ensures r.Some? ==> r.value in alts && r.value <= s
    ensures r.None? ==> forall k :: 0 <= k < |alts| ==> !(alts[k] <= s)
  {
    if alts == [] then None
    else if alts[0] <= s then Some(alts[0])
    else FirstPrefix(alts[1..], s)
  }

  /** The item types start with distinct letters, so the alternative that
      matches is decided by the first character. */
  lemma ItemTypesDistinctInitials(d: Dialect, t: string, u: string)
    requires t in ItemTypes(d) && u in ItemTypes(d)
    ensures t != [] && u != []
    ensures t[0] == u[0] ==> t == u
  {
  }

  /** The alternation picks `t` when the line continues with `t` and then a
      blank. */
  lemma FirstPrefixOfItemType(d: Dialect, t: string, rest: string)
    requires t in ItemTypes(d)
    ensures FirstPrefix(ItemTypes(d), t + rest) == Some(t)
  {
    var r := FirstPrefix(ItemTypes(d), t + rest);
    assert t <= t + rest;
    if r.Some? {
      ItemTypesDistinctInitials(d, t, r.value);
      assert r.value[0] == (t + rest)[0];
    }
  }

  /** The ten pieces a matching line is made of: the five groups, the blank
      runs between them, and the final line feed `$` may leave unmatched. */
  datatype Layout = Layout(
    fileMode: string, ws1: string,
    itemType: string, ws2: string,
    gitObject: string, ws3: string,
    gitObjectSize: string, ws4: string,
    relativePath: string, eol: string)

  function Text(m: Layout): string {
    m.fileMode + (m.ws1 + (m.itemType + (m.ws2 + (m.gitObject + (m.ws3
      + (m.gitObjectSize + (m.ws4 + (m.relativePath + m.eol))))))))
  }

  predicate Blank(s: string) {
    s != [] && All(s, IsSpace)
  }

  /** The declarative reading of the pattern after its item type: the
      object, the size, the path and the blank runs before them. */
  predicate FieldsWellFormed(m: Layout) {
    && Blank(m.ws2)
    && m.gitObject != [] && All(m.gitObject, IsWordChar)
    && Blank(m.ws3)
    && m.gitObjectSize != [] && All(m.gitObjectSize, IsSizeChar)
    && Blank(m.ws4)
    && Free(m.relativePath, '\n')
    && (m.eol == "" || m.eol == "\n")
  }

  /** The declarative reading of the pattern. */
  predicate WellFormed(m: Layout, d: Dialect) {
    && |m.fileMode| == 6 && AllDigits(m.fileMode)
    && Blank(m.ws1)
    && m.itemType in ItemTypes(d)
    && FieldsWellFormed(m)
  }

  /** The last `\s+(.*)$` of the pattern on what follows the size: the
      blank run, the path, and the line feed `$` may leave over. */
  function MatchPathEnd(s: string): (r: Option<(string, string, string)>)
    ensures r.Some? ==> var (ws, path, eol) := r.value;
      && Blank(ws) && Free(path, '\n') && (eol == "" || eol == "\n")
      && ws + (path + eol) == s
      && (path == [] || !IsSpace(path[0]))
  {
    var (ws, rest) := Token(s, IsSpace);
    var (path, eol) :=
      if rest != [] && rest[|rest| - 1] == '\n' then (rest[..|rest| - 1], "\n") else (rest, "");
    assert rest == path + eol;
    if ws == [] || !Free(path, '\n') then None else Some((ws, path, eol))
  }

  /** The pattern after its item type, on what follows the item type `it`
      of a line that starts with `mode` and the blank run `ws1`: the same
      in both versions. */
  function MatchFields(mode: string, ws1: string, it: string, s: string): (r: Option<Layout>)
    ensures r.Some? ==> r.value.fileMode == mode && r.value.ws1 == ws1 && r.value.itemType == it
    ensures r.Some? ==> FieldsWellFormed(r.value) && Text(r.value) == mode + (ws1 + (it + s))
    ensures r.Some? ==> r.value.relativePath == [] || !IsSpace(r.value.relativePath[0])
  {
    var (ws2, s2) := Token(s, IsSpace);
    var (obj, s3) := Token(s2, IsWordChar);
    var (ws3, s4) := Token(s3, IsSpace);
    var (size, s5) := Token(s4, IsSizeChar);
    if ws2 == [] || obj == [] || ws3 == [] || size == [] then None
    else match MatchPathEnd(s5)
    case None => None
    case Some((ws4, path, eol)) => Some(Layout(mode, ws1, it, ws2, obj, ws3, size, ws4, path, eol))
  }

  /** `re.match(FULL_GIT_PATTERN, line)`: the match the regex engine
      returns, as a layout of the line. Every blank run is as long as it can
      be, so the path never starts with a blank. */
  function MatchLine(line: string, d: Dialect): (r: Option<Layout>)
    ensures r.Some? ==> WellFormed(r.value, d) && Text(r.value) == line
    ensures r.Some? ==> r.value.relativePath == [] || !IsSpace(r.value.relativePath[0])
  {
    if |line| < 6 || !AllDigits(line[..6]) then None
    else
      var (ws1, s1) := Token(line[6..], IsSpace);
      if ws1 == [] then None
      else match FirstPrefix(ItemTypes(d), s1)
      case None => None
      case Some(it) =>
        assert line == line[..6] + line[6..];
        assert s1 == it + s1[|it|..];
        MatchFields(line[..6], ws1, it, s1[|it|..])
  }

  /** Every decomposition of what follows the item type is found, with
      the path stripped of the leading blanks the last `\s+` takes. */
  lemma MatchFieldsComplete(m: Layout)
    requires FieldsWellFormed(m)
    ensures var r := MatchFields(m.fileMode, m.ws1, m.itemType,
        m.ws2 + (m.gitObject + (m.ws3 + (m.gitObjectSize + (m.ws4 + (m.relativePath + m.eol))))));
      && r.Some?
      && r.value.gitObject == m.gitObject
      && r.value.gitObjectSize == m.gitObjectSize
      && r.value.relativePath == LStripSpaces(m.relativePath)
  {
    var s8 := m.ws4 + (m.relativePath + m.eol);
    var s7 := m.gitObjectSize + s8;
    var s6 := m.ws3 + s7;
    var s5 := m.gitObject + s6;
    TokenUnique(m.ws2, s5, IsSpace);
    TokenUnique(m.gitObject, s6, IsWordChar);
    TokenUnique(m.ws3, s7, IsSpace);
    TokenUnique(m.gitObjectSize, s8, IsSizeChar);
    MatchPathEndComplete(m.ws4, m.relativePath, m.eol);
  }

  /** Every decomposition the pattern allows is found: the matcher succeeds
      with the same mode, type, object and size, and with the path stripped
      of the leading blanks the last `\s+` takes. */
  lemma MatchLineComplete(m: Layout, d: Dialect)
    requires WellFormed(m, d)
    ensures var r := MatchLine(Text(m), d);
      && r.Some?
      && r.value.fileMode == m.fileMode
      && r.value.itemType == m.itemType
      && r.value.gitObject == m.gitObject
      && r.value.gitObjectSize == m.gitObjectSize
      && r.value.relativePath == LStripSpaces(m.relativePath)
  {
    var line := Text(m);
    var s4 := m.ws2 + (m.gitObject + (m.ws3 + (m.gitObjectSize + (m.ws4 + (m.relativePath + m.eol)))));
    var s3 := m.itemType + s4;
    var s2 := m.ws1 + s3;
    assert line == m.fileMode + s2;
    assert line[..6] == m.fileMode && line[6..] == s2;
    ItemTypesDistinctInitials(d, m.itemType, m.itemType);
    TokenUnique(m.ws1, s3, IsSpace);
    FirstPrefixOfItemType(d, m.itemType, s4);
    assert s3[|m.itemType|..] == s4;
    MatchFieldsComplete(m);
  }

  /** Stripping leading blanks keeps a character-free string free of it. */
  lemma LStripSpacesFree(s: string, c: char)
    requires Free(s, c)
    ensures Free(LStripSpaces(s), c)
  {
    var (a, b) := Token(s, IsSpace);
    assert forall k :: 0 <= k < |b| ==> b[k] == s[|a| + k];
  }

  /** The last `\s+` and the `(.*)$` that follows it match every blank run,
      path and line end the pattern allows; the path comes out stripped of
      its leading blanks. */
  lemma MatchPathEndComplete(ws: string, path: string, eol: string)
    requires Blank(ws) && Free(path, '\n') && (eol == "" || eol == "\n")
    ensures var r := MatchPathEnd(ws + (path + eol));
      r.Some? && r.value.1 == LStripSpaces(path)
  {
    var s := ws + (path + eol);
    LStripSpacesAppend(ws, path + eol);
    LStripSpacesAppend(path, eol);
    LStripSpacesFree(path, '\n');
    assert LStripSpaces(ws) == [] by {
      TokenUnique(ws, [], IsSpace);
      assert ws + [] == ws;
    }
    assert LStripSpaces(eol) == [] by {
      TokenUnique(eol, [], IsSpace);
      assert eol + [] == eol;
    }
    assert Token(s, IsSpace).0 != [] by {
      assert s[0] == ws[0];
    }
  }

  /** The matcher succeeds exactly on the lines the pattern describes. */
  lemma MatchLineIffDecomposable(line: string, d: Dialect)
    ensures MatchLine(line, d).Some? <==> exists m :: WellFormed(m, d) && Text(m) == line
  {
    if m :| WellFormed(m, d) && Text(m) == line {
      MatchLineComplete(m, d);
    }
  }

  /** Every line the first version matches, the current version matches in
      the same way. */
  lemma LegacyMatchIsCurrentMatch(line: string)
    requires MatchLine(line, Legacy).Some?
    ensures MatchLine(line, Current) == MatchLine(line, Legacy)
  {
    var m := MatchLine(line, Legacy).value;
    var s1 := Token(line[6..], IsSpace).1;
    assert FirstPrefix(ItemTypes(Legacy), s1) == Some(m.itemType);
    assert FirstPrefix(ItemTypes(Current), s1) == Some(m.itemType);
  }

  /** A line the current version matches with a type other than `commit`
      is matched the same way by the first version; a `commit` line (a
      submodule) is not matched by the first version at all. */
  lemma CurrentMatchInLegacy(line: string)
    requires MatchLine(line, Current).Some?
    ensures MatchLine(line, Current).value.itemType != "commit"
      ==> MatchLine(line, Legacy) == MatchLine(line, Current)
    ensures MatchLine(line, Current).value.itemType == "commit"
      ==> MatchLine(line, Legacy) == None
  {
    var m := MatchLine(line, Current).value;
    var s1 := Token(line[6..], IsSpace).1;
    assert FirstPrefix(ItemTypes(Current), s1) == Some(m.itemType);
    if m.itemType == "commit" {
      assert !("blob" <= s1) && !("tree" <= s1) by {
        assert s1[0] == 'c';
      }
    }
  }
}

/**
 * `os.path.splitext` on a POSIX system (posixpath, separator '/', extension
 * separator '.'), the part of the standard library `get_converter` relies on.
 */
module PathExt {

  /** `s.rfind(c)`: the last index of `c` in `s`, or -1 */
  function RFind(s: string, c: char): (i: int)
    ensures -1 <= i < |s|
    ensures i >= 0 ==> s[i] == c
    ensures forall j :: i < j < |s| ==> s[j] != c
  {
    if s == [] then -1
    else if s[|s| - 1] == c then |s| - 1
    else RFind(s[..|s| - 1], c)
  }

  /** True when some character of `s` is not a dot: the loop over the
      basename's leading dots finds a place to split. */
  predicate HasNonDot(s: string) {
    exists j :: 0 <= j < |s| && s[j] != '.'
  }

  /** `os.path.splitext(p)`: (root, ext) */
  function SplitExt(p: string): (parts: (string, string))
    ensures parts.1 != [] ==> parts.1[0] == '.' && parts.0 != [] && |parts.1| < |p|
  {
    var sepIndex := RFind(p, '/');
    var dotIndex := RFind(p, '.');
    if dotIndex > sepIndex && HasNonDot(p[sepIndex + 1..dotIndex]) then
      assert 0 < dotIndex by {
        var j :| 0 <= j < |p[sepIndex + 1..dotIndex]| && p[sepIndex + 1..dotIndex][j] != '.';
      }
      (p[..dotIndex], p[dotIndex..])
    else
      (p, "")
  }

  /** `os.path.splitext(p)[1]` */
  function Extension(p: string): (e: string)
    ensures e != [] ==> e[0] == '.' && |e| < |p|
  {
    SplitExt(p).1
  }

  /** `k` is where an extension of `p` starts: a dot, followed by neither a
      dot nor a slash, and preceded within its path component by a character
      that is not a dot. */
  ghost predicate ExtensionAt(p: string, k: int) {
    && 0 <= k < |p| && p[k] == '.'
    && (forall j :: k < j < |p| ==> p[j] != '.' && p[j] != '/')
    && (exists j :: 0 <= j < k && p[j] != '.' && p[j] != '/' && forall m :: j < m < k ==> p[m] != '/')
  }

  /** The root and the extension put back together give the path again. */
  lemma SplitExtRejoins(p: string)
    ensures SplitExt(p).0 + SplitExt(p).1 == p
  {
  }

  /** `splitext` finds an extension exactly where `ExtensionAt` holds, and
      then the extension is the suffix from that dot. */
  lemma ExtensionCharacterised(p: string, k: int)
    ensures ExtensionAt(p, k) ==> Extension(p) == p[k..]
    ensures Extension(p) != "" ==> ExtensionAt(p, |p| - |Extension(p)|)
  {
    if ExtensionAt(p, k) {
      ExtensionFromDot(p, k);
    }
    if Extension(p) != "" {
      DotOfExtension(p);
    }
  }

  lemma ExtensionFromDot(p: string, k: int)
    requires ExtensionAt(p, k)
    ensures Extension(p) == p[k..]
  {
    var j :| 0 <= j < k && p[j] != '.' && p[j] != '/' && forall m :: j < m < k ==> p[m] != '/';
    LastDot(p, k);
    var sepIndex := RFind(p, '/');
    SlashBefore(p, sepIndex, j, k);
    NonDotBetween(p, sepIndex, j, k);
    SplitAt(p, sepIndex, k);
  }

  /** A dot with no dot after it is the last one. */
  lemma LastDot(p: string, k: int)
    requires 0 <= k < |p| && p[k] == '.'
    requires forall j :: k < j < |p| ==> p[j] != '.'
    ensures RFind(p, '.') == k
  {
  }

  lemma NonDotBetween(p: string, sepIndex: int, j: int, k: int)
    requires -1 <= sepIndex < j < k <= |p| && p[j] != '.'
    ensures HasNonDot(p[sepIndex + 1..k])
  {
    assert p[sepIndex + 1..k][j - sepIndex - 1] == p[j];
  }

  /** The last slash of a path comes before a non-slash that no slash
      follows. */
  lemma SlashBefore(p: string, sepIndex: int, j: int, k: int)
    requires -1 <= sepIndex < |p| && (sepIndex >= 0 ==> p[sepIndex] == '/')
    requires 0 <= j < k < |p| && p[j] != '/' && p[k] != '/'
    requires forall m :: j < m < k ==> p[m] != '/'
    requires forall m :: k < m < |p| ==> p[m] != '/'
    ensures sepIndex < j
  {
  }

  /** The extension starts at the last dot when that dot follows the last
      slash with a non-dot between them. */
  lemma SplitAt(p: string, sepIndex: int, dotIndex: int)
    requires sepIndex == RFind(p, '/') && dotIndex == RFind(p, '.')
    requires dotIndex > sepIndex && HasNonDot(p[sepIndex + 1..dotIndex])
    ensures Extension(p) == p[dotIndex..]
  {
  }

  lemma DotOfExtension(p: string)
    requires Extension(p) != ""
    ensures ExtensionAt(p, |p| - |Extension(p)|)
  {
    var sepIndex := RFind(p, '/');
    var dotIndex := RFind(p, '.');
    SplitFound(p);
    var j :| 0 <= j < |p[sepIndex + 1..dotIndex]| && p[sepIndex + 1..dotIndex][j] != '.';
    ExtensionAtWitness(p, sepIndex, dotIndex, sepIndex + 1 + j);
  }

  /** When there is an extension, the last dot follows the last slash with
      a non-dot between them, and the extension starts at that dot. */
  lemma SplitFound(p: string)
    requires Extension(p) != ""
    ensures RFind(p, '.') > RFind(p, '/')
    ensures HasNonDot(p[RFind(p, '/') + 1..RFind(p, '.')])
    ensures |p| - |Extension(p)| == RFind(p, '.')
  {
  }

  /** A dot after the last slash and the last dot, with a non-dot between
      the slash and the dot, is where an extension starts. */
  lemma ExtensionAtWitness(p: string, sepIndex: int, dotIndex: int, w: int)
    requires -1 <= sepIndex < w < dotIndex < |p|
    requires p[dotIndex] == '.' && p[w] != '.'
    requires forall j :: sepIndex < j < |p| ==> p[j] != '/'
    requires forall j :: dotIndex < j < |p| ==> p[j] != '.'
    ensures ExtensionAt(p, dotIndex)
  {
    assert p[w] != '/';
  }

  /** An extension, when there is one, is a dot followed by characters that
      are neither dots nor slashes. */
  lemma ExtensionShape(p: string)
    ensures var e := Extension(p);
      e == "" || (e[0] == '.' && forall j :: 0 < j < |e| ==> e[j] != '.' && e[j] != '/')
  {
    if Extension(p) != "" {
      ExtensionCharacterised(p, 0);
    }
  }

  /** A file name inside a directory: the extension is the last dot of the
      name and what follows it, whatever the directory part holds. */
  lemma ExtensionInDirectory(dir: string, stem: string, ext: string)
    requires stem != [] && stem[0] != '.' && '/' !in stem
    requires '.' !in ext && '/' !in ext
    ensures Extension(dir + "/" + stem + "." + ext) == "." + ext
  {
    var p := dir + "/" + stem + "." + ext;
    var k := |dir| + 1 + |stem|;
    assert p[k..] == "." + ext;
    assert p[|dir| + 1] == stem[0];
    forall m | |dir| + 1 < m < k
      ensures p[m] != '/'
    {
      assert p[m] == stem[m - |dir| - 1];
    }
    forall m | k < m < |p|
      ensures p[m] != '.' && p[m] != '/'
    {
      assert p[m] == ext[m - k - 1];
    }
    assert ExtensionAt(p, k);
    ExtensionCharacterised(p, k);
  }
}

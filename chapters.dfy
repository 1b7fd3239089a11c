/** The chapter filter. The glob `./assets/images/chapter-*` also lists the pages of
    `chapter-0`, which form a section of their own, so the numbered-chapter section keeps
    only the paths accepted by the regular expression `/chapter-(0[1-9]|1[0-3])\//`. */
module Chapters {

  const ChapterWord: string := "chapter-"

  /** Where `import.meta.glob` paths of the application's images start. */
  const AssetRoot: string := "./assets/images/"

  /** `0[1-9]|1[0-3]`: the two-digit chapter numbers 01 to 13. */
  predicate IsChapterNumber(d: string) {
    |d| == 2 && ((d[0] == '0' && '1' <= d[1] <= '9') || (d[0] == '1' && '0' <= d[1] <= '3'))
  }

  /** Where the two digits of a match start, after `chapter-`. */
  const NumberStart: int := |ChapterWord|

  /** The length of a match: `chapter-`, two digits and the `/`. */
  const SegmentLength: int := NumberStart + 3

  /** The regular expression matches `p` at offset `i`: `chapter-` at `i`, a chapter number
      right after it, and then `/`. */
  predicate SegmentAt(p: string, i: int) {
    0 <= i && i + SegmentLength <= |p| && p[i..i + NumberStart] == ChapterWord &&
    IsChapterNumber(p[i + NumberStart..i + NumberStart + 2]) && p[i + NumberStart + 2] == '/'
  }

  /** Model of `/chapter-(0[1-9]|1[0-3])\//.test(p)`: the pattern is not anchored, so it
      may match anywhere in the path. */
  predicate IsChapterPage(p: string) {
    exists i :: 0 <= i <= |p| - SegmentLength && SegmentAt(p, i)
  }

  /** Model of `paths.filter(keep)`. */
  function Filter(ps: seq<string>, keep: string -> bool): seq<string> {
    if ps == [] then [] else (if keep(ps[0]) then [ps[0]] else []) + Filter(ps[1..], keep)
  }

  /** The filter keeps each path that `keep` accepts as often as it is listed, and no
      other path. */
  lemma {:induction false} FilterCount(ps: seq<string>, keep: string -> bool)
    ensures forall p :: multiset(Filter(ps, keep))[p] == if keep(p) then multiset(ps)[p] else 0
  {
    if ps != [] {
      FilterCount(ps[1..], keep);
      assert ps == [ps[0]] + ps[1..];
    }
  }

  /** The filter keeps the order of the paths: filtering a concatenation concatenates
      the filtered parts. */
  lemma {:induction false} FilterAppend(x: seq<string>, y: seq<string>, keep: string -> bool)
    ensures Filter(x + y, keep) == Filter(x, keep) + Filter(y, keep)
  {
    if x == [] {
      assert x + y == y;
    } else {
      assert (x + y)[0] == x[0] && (x + y)[1..] == x[1..] + y;
      FilterAppend(x[1..], y, keep);
    }
  }

  lemma {:induction false} FilterLength(ps: seq<string>, keep: string -> bool)
    ensures |Filter(ps, keep)| <= |ps|
  {
    if ps != [] {
      FilterLength(ps[1..], keep);
    }
  }

  /** Model of `paths.filter(p => /chapter-(0[1-9]|1[0-3])\//.test(p))`. */
  function SelectChapterPaths(ps: seq<string>): (r: seq<string>)
    ensures forall p :: p in r <==> p in ps && IsChapterPage(p)
    ensures forall p :: multiset(r)[p] == if IsChapterPage(p) then multiset(ps)[p] else 0
    ensures |r| <= |ps|
  {
    FilterCount(ps, IsChapterPage);
    FilterLength(ps, IsChapterPage);
    var r := Filter(ps, IsChapterPage);
    assert forall p :: p in r <==> multiset(r)[p] > 0;
    assert forall p :: p in ps <==> multiset(ps)[p] > 0;
    r
  }

  /** The chapter filter keeps the order of the paths. */
  lemma SelectChapterPathsAppend(x: seq<string>, y: seq<string>)
    ensures SelectChapterPaths(x + y) == SelectChapterPaths(x) + SelectChapterPaths(y)
  {
    FilterAppend(x, y, IsChapterPage);
  }

  predicate NoSlash(s: string) {
    forall i :: 0 <= i < |s| ==> s[i] != '/'
  }

  /** The directory names `dir` of a path `root + "chapter-" + dir + "/" + file` that the
      filter accepts: a chapter number, or (as the pattern is not anchored) any name that
      ends in `chapter-` and a chapter number. */
  predicate SelectedDirectory(dir: string) {
    IsChapterNumber(dir) ||
    (|dir| >= 10 && dir[|dir| - 10..|dir| - 2] == ChapterWord && IsChapterNumber(dir[|dir| - 2..]))
  }

  /** Where the characters of a glob path come from. */
  lemma GlobPathChars(root: string, dir: string, file: string, p: string)
    requires p == root + ChapterWord + dir + "/" + file
    ensures |p| == |root| + 8 + |dir| + 1 + |file|
    ensures forall k :: 0 <= k < |root| ==> p[k] == root[k]
    ensures forall k :: 0 <= k < 8 ==> p[|root| + k] == ChapterWord[k]
    ensures forall k :: 0 <= k < |dir| ==> p[|root| + 8 + k] == dir[k]
    ensures p[|root| + 8 + |dir|] == '/'
    ensures forall k :: 0 <= k < |file| ==> p[|root| + 9 + |dir| + k] == file[k]
  {
  }

  /** In a glob path the filter can only match inside `root` or at the `/` that ends the
      directory name. */
  lemma MatchEndsAtDirectory(root: string, dir: string, file: string, p: string, i: int)
    requires p == root + ChapterWord + dir + "/" + file
    requires NoSlash(dir) && NoSlash(file)
    requires SegmentAt(p, i)
    ensures i + SegmentLength <= |root| || i + NumberStart + 2 == |root| + NumberStart + |dir|
  {
    GlobPathChars(root, dir, file, p);
  }

  /** A match cannot start inside, or just before, a `chapter-` of its own path other
      than at it. */
  lemma MatchNotInsideWord(p: string, L: int, i: int)
    requires 0 <= L && L + 8 <= |p|
    requires forall k :: 0 <= k < 8 ==> p[L + k] == ChapterWord[k]
    requires SegmentAt(p, i)
    requires L - 2 <= i < L + 8
    ensures i == L
  {
    assert NumberStart == 8;
    assert p[i..i + 8][0] == p[i];
    assert p[i + 8..i + 10][0] == p[i + 8];
    assert p[L + 6] == ChapterWord[6] == 'r' && p[L + 7] == ChapterWord[7] == '-';
    forall j | L < j < L + 8
      ensures p[j] != 'c'
    {
      assert p[L + (j - L)] == ChapterWord[j - L];
    }
  }

  /** A match in a glob path whose directory is not selected would have to lie in `root`. */
  lemma MatchMeansSelected(root: string, dir: string, file: string, i: int)
    requires NoSlash(dir) && NoSlash(file)
    requires SegmentAt(root + ChapterWord + dir + "/" + file, i)
    requires i + SegmentLength > |root|
    ensures SelectedDirectory(dir)
  {
    var p := root + ChapterWord + dir + "/" + file;
    var L, D := |root|, |dir|;
    assert NumberStart == 8;
    GlobPathChars(root, dir, file, p);
    MatchEndsAtDirectory(root, dir, file, p, i);
    assert i + 10 == L + 8 + D;
    if D < 10 {
      MatchNotInsideWord(p, L, i);
      assert p[i + 8..i + 10] == dir;
    } else {
      assert p[i..i + 8] == dir[D - 10..D - 2];
      assert p[i + 8..i + 10] == dir[D - 2..];
    }
  }

  /** The filter matches at `chapter-` when the directory is a chapter number. */
  lemma MatchAtDirectory(root: string, dir: string, file: string)
    requires IsChapterNumber(dir)
    ensures SegmentAt(root + ChapterWord + dir + "/" + file, |root|)
  {
    var p := root + ChapterWord + dir + "/" + file;
    var L := |root|;
    GlobPathChars(root, dir, file, p);
    assert p[L..L + 8] == ChapterWord;
    assert p[L + 8..L + 10] == dir;
  }

  lemma SliceMiddle(a: string, b: string, c: string, k: int, l: int)
    requires 0 <= k <= l <= |b|
    ensures (a + b + c)[|a| + k..|a| + l] == b[k..l]
  {
    assert forall j :: k <= j < l ==> (a + b + c)[|a| + j] == b[j];
  }

  /** The filter matches inside a directory name that ends in `chapter-` and a number. */
  lemma MatchInDirectoryName(root: string, dir: string, file: string)
    requires |dir| >= 10 && dir[|dir| - 10..|dir| - 2] == ChapterWord && IsChapterNumber(dir[|dir| - 2..])
    ensures SegmentAt(root + ChapterWord + dir + "/" + file, |root| + |dir| - 2)
  {
    var a, c := root + ChapterWord, "/" + file;
    var p := root + ChapterWord + dir + "/" + file;
    var D := |dir|;
    assert p == a + dir + c;
    SliceMiddle(a, dir, c, D - 10, D - 2);
    SliceMiddle(a, dir, c, D - 2, D);
    assert p[|a| + D] == c[0];
  }

  /** The filter accepts a glob path whose directory is selected. */
  lemma SelectedMeansMatch(root: string, dir: string, file: string)
    requires SelectedDirectory(dir)
    ensures IsChapterPage(root + ChapterWord + dir + "/" + file)
  {
    if IsChapterNumber(dir) {
      MatchAtDirectory(root, dir, file);
    } else {
      MatchInDirectoryName(root, dir, file);
    }
  }

  /** The filter accepts a glob path exactly when its directory is a selected one, given
      that the part before `chapter-` holds no match of its own. */
  lemma ChapterDirectorySelection(root: string, dir: string, file: string)
    requires !IsChapterPage(root)
    requires NoSlash(dir) && NoSlash(file)
    ensures IsChapterPage(root + ChapterWord + dir + "/" + file) <==> SelectedDirectory(dir)
  {
    var p := root + ChapterWord + dir + "/" + file;
    if IsChapterPage(p) {
      var i :| 0 <= i <= |p| - SegmentLength && SegmentAt(p, i);
      if i + SegmentLength <= |root| {
        GlobPathChars(root, dir, file, p);
        assert p[i..i + 8] == root[i..i + 8];
        assert p[i + 8..i + 10] == root[i + 8..i + 10];
        assert SegmentAt(root, i);
        assert false;
      }
      MatchMeansSelected(root, dir, file, i);
    }
    if SelectedDirectory(dir) {
      SelectedMeansMatch(root, dir, file);
    }
  }

  lemma AssetRootHasNoChapter()
    ensures !IsChapterPage(AssetRoot)
  {
    forall i | 0 <= i <= |AssetRoot| - SegmentLength
      ensures !SegmentAt(AssetRoot, i)
    {
      assert AssetRoot[i..i + 8][0] == AssetRoot[i];
      assert i == 0 || i == 1 || i == 2 || i == 3 || i == 4 || i == 5;
    }
  }

  /** A path of the `chapter-0` directory, as the glob lists it. */
  predicate InChapterZero(p: string) {
    var dir := AssetRoot + "chapter-0/";
    |dir| <= |p| && p[..|dir|] == dir && NoSlash(p[|dir|..])
  }

  /** The pages of `chapter-0`, which the chapter glob lists too, are not taken into the
      numbered chapters, so they are not shown twice. */
  lemma ChapterZeroNotSelected(p: string)
    requires InChapterZero(p)
    ensures !IsChapterPage(p)
  {
    var dir := AssetRoot + "chapter-0/";
    var file := p[|dir|..];
    assert p == AssetRoot + ChapterWord + "0" + "/" + file;
    AssetRootHasNoChapter();
    ChapterDirectorySelection(AssetRoot, "0", file);
  }

  /** The pages of `chapter-01` to `chapter-13` are taken. */
  lemma NumberedChapterSelected(dir: string, file: string)
    requires IsChapterNumber(dir) && NoSlash(file)
    ensures IsChapterPage(AssetRoot + ChapterWord + dir + "/" + file)
  {
    AssetRootHasNoChapter();
    ChapterDirectorySelection(AssetRoot, dir, file);
  }
}

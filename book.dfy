/** Page-sequence assembly in `App`: from the five glob results to the list of page images.

    `todasLasPaginas` builds the whole book (front cover, the interior sections, back
    cover) by pushing onto an array; `paginasLibro` builds the interior sections followed
    by the back cover, as one array literal passed through `.filter(Boolean)`. */
module Book {
  import opened Catalogs
  import opened Chapters

  /** The five `import.meta.glob` results the application starts from: `covers`,
      `chapter-0`, `character-description`, every `chapter-*` directory and `final-chapter`. */
  datatype Assets = Assets(
    covers: Catalog,
    chapter0: Catalog,
    characterDescription: Catalog,
    chapters: Catalog,
    finalChapter: Catalog)

  predicate WellFormedAssets(a: Assets) {
    WellFormed(a.covers) && WellFormed(a.chapter0) && WellFormed(a.characterDescription) &&
    WellFormed(a.chapters) && WellFormed(a.finalChapter)
  }

  const FrontCoverMarker: string := "cover-1"
  const BackCoverMarker: string := "cover-2"

  /** `portada`: the first cover path, in key order, that contains `cover-1`. */
  function FrontCover(a: Assets): (r: Option<string>)
    ensures r.Some? ==> r.value in a.covers.keys && Includes(r.value, FrontCoverMarker)
    ensures r.Some? ==> exists i :: 0 <= i < |a.covers.keys| && a.covers.keys[i] == r.value &&
                                    forall j :: 0 <= j < i ==> !Includes(a.covers.keys[j], FrontCoverMarker)
    ensures r.None? <==> forall k :: k in a.covers.keys ==> !Includes(k, FrontCoverMarker)
  {
    Find(a.covers.keys, FrontCoverMarker)
  }

  /** `contra`: the first cover path, in key order, that contains `cover-2`. */
  function BackCover(a: Assets): (r: Option<string>)
    ensures r.Some? ==> r.value in a.covers.keys && Includes(r.value, BackCoverMarker)
    ensures r.Some? ==> exists i :: 0 <= i < |a.covers.keys| && a.covers.keys[i] == r.value &&
                                    forall j :: 0 <= j < i ==> !Includes(a.covers.keys[j], BackCoverMarker)
    ensures r.None? <==> forall k :: k in a.covers.keys ==> !Includes(k, BackCoverMarker)
  {
    Find(a.covers.keys, BackCoverMarker)
  }

  /** The page a cover contributes, `[coverModules[path].default]`, or none when the
      cover was not found. A found path is never the empty string (`FoundPathIsTruthy`),
      so `path ? ... : ...` is `Some?` here. */
  function CoverPage(a: Assets, cover: Option<string>): (r: seq<Url>)
    requires WellFormed(a.covers)
    requires cover.Some? ==> cover.value in a.covers.keys
    ensures |r| == if cover.Some? then 1 else 0
    ensures cover.Some? ==> r[0] == a.covers.modules[cover.value]
  {
    if cover.Some? then [a.covers.modules[cover.value]] else []
  }

  /** `chapter0`: the images of `chapter-0`, ordered by path. */
  function Chapter0(a: Assets): (r: seq<Url>)
    requires WellFormedAssets(a)
    ensures |r| == |a.chapter0.keys|
    ensures multiset(r) == multiset(Resolve(a.chapter0.modules, a.chapter0.keys))
  {
    SectionPages(a.chapter0)
  }

  /** `characterDesc`: the images of `character-description`, ordered by path. */
  function CharacterDescription(a: Assets): (r: seq<Url>)
    requires WellFormedAssets(a)
    ensures |r| == |a.characterDescription.keys|
    ensures multiset(r) == multiset(Resolve(a.characterDescription.modules, a.characterDescription.keys))
  {
    SectionPages(a.characterDescription)
  }

  /** `chapterN`: the images of the `chapter-*` paths that pass the chapter filter,
      ordered by path. */
  function ChapterN(a: Assets): (r: seq<Url>)
    requires WellFormedAssets(a)
    ensures |r| == |SelectChapterPaths(a.chapters.keys)|
    ensures multiset(r) == multiset(Resolve(a.chapters.modules, SelectChapterPaths(a.chapters.keys)))
  {
    SortedPages(a.chapters.modules, SelectChapterPaths(a.chapters.keys))
  }

  /** `finalChapter`: the images of `final-chapter`, ordered by path. */
  function FinalChapter(a: Assets): (r: seq<Url>)
    requires WellFormedAssets(a)
    ensures |r| == |a.finalChapter.keys|
    ensures multiset(r) == multiset(Resolve(a.finalChapter.modules, a.finalChapter.keys))
  {
    SectionPages(a.finalChapter)
  }

  /** The interior sections in reading order. */
  function InteriorPages(a: Assets): seq<Url>
    requires WellFormedAssets(a)
  {
    Chapter0(a) + CharacterDescription(a) + ChapterN(a) + FinalChapter(a)
  }

  /** What `todasLasPaginas` evaluates to: the front cover if found, the interior
      sections, the back cover if found. */
  function WholeBook(a: Assets): seq<Url>
    requires WellFormedAssets(a)
  {
    CoverPage(a, FrontCover(a)) + Chapter0(a) + CharacterDescription(a) + ChapterN(a) + FinalChapter(a) +
    CoverPage(a, BackCover(a))
  }

  /** The `todasLasPaginas` memo: `libroFinal` starts with the front cover, if any, and
      grows by `push` of each section and then of the back cover, if any. */
  method BuildWholeBook(a: Assets) returns (libroFinal: seq<Url>)
    requires WellFormedAssets(a)
    ensures libroFinal == WholeBook(a)
  {
    var portada := FrontCover(a);
    var contra := BackCover(a);
    var chapter0 := Chapter0(a);
    var characterDesc := CharacterDescription(a);
    var chapterN := ChapterN(a);
    var finalChapter := FinalChapter(a);
    libroFinal := if portada.Some? then [a.covers.modules[portada.value]] else [];
    libroFinal := libroFinal + chapter0;
    libroFinal := libroFinal + characterDesc;
    libroFinal := libroFinal + chapterN;
    libroFinal := libroFinal + finalChapter;
    if contra.Some? {
      libroFinal := libroFinal + [a.covers.modules[contra.value]];
    }
  }

  /** JavaScript truthiness of an array entry: `null` and the empty string are false. */
  predicate Truthy(slot: Option<Url>) {
    slot.Some? && slot.value != ""
  }

  /** Model of `.filter(Boolean)` on an array of images and `null`s. */
  function KeepTruthy(slots: seq<Option<Url>>): (r: seq<Url>)
    ensures |r| <= |slots|
    ensures forall u :: u in r <==> Some(u) in slots && u != ""
  {
    if slots == [] then []
    else
      assert forall s :: s in slots <==> s == slots[0] || s in slots[1..];
      (if Truthy(slots[0]) then [slots[0].value] else []) + KeepTruthy(slots[1..])
  }

  lemma {:induction false} KeepTruthyAppend(x: seq<Option<Url>>, y: seq<Option<Url>>)
    ensures KeepTruthy(x + y) == KeepTruthy(x) + KeepTruthy(y)
  {
    if x == [] {
      assert x + y == y;
    } else {
      assert (x + y)[0] == x[0];
      assert (x + y)[1..] == x[1..] + y;
      KeepTruthyAppend(x[1..], y);
    }
  }

  /** Filtering a final entry keeps it exactly when it is truthy. */
  lemma KeepTruthyLast(slots: seq<Option<Url>>, last: Option<Url>)
    ensures KeepTruthy(slots + [last]) == KeepTruthy(slots) + (if Truthy(last) then [last.value] else [])
  {
    KeepTruthyAppend(slots, [last]);
    assert [last][1..] == [];
  }

  /** Entries that are all non-empty images pass the filter unchanged. */
  lemma {:induction false} KeepTruthyOfImages(us: seq<Url>)
    requires forall u :: u in us ==> u != ""
    ensures KeepTruthy(Wrap(us)) == us
  {
    if us != [] {
      assert us[0] in us;
      assert Wrap(us)[0] == Some(us[0]) && Truthy(Wrap(us)[0]);
      assert Wrap(us)[1..] == Wrap(us[1..]);
      assert forall u :: u in us[1..] ==> u in us;
      KeepTruthyOfImages(us[1..]);
      assert us == [us[0]] + us[1..];
    }
  }

  function Wrap(us: seq<Url>): (r: seq<Option<Url>>)
    ensures |r| == |us| && forall i :: 0 <= i < |us| ==> r[i] == Some(us[i])
  {
    seq(|us|, i requires 0 <= i < |us| => Some(us[i]))
  }

  /** The array literal of `paginasLibro` before filtering: the sections, then the back
      cover or `null`. */
  function BookSlots(a: Assets): seq<Option<Url>>
    requires WellFormedAssets(a)
  {
    var contra := BackCover(a);
    Wrap(InteriorPages(a)) + [if contra.Some? then Some(a.covers.modules[contra.value]) else None]
  }

  /** `paginasLibro`: the pages handed to the flip-book widget. */
  function BookPages(a: Assets): (r: seq<Url>)
    requires WellFormedAssets(a)
    ensures forall u :: u in r ==> u != ""
  {
    KeepTruthy(BookSlots(a))
  }
}

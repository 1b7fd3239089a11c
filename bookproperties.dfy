/** What the two page builders of `App` guarantee: where the covers go, what the
    interior sections hold and in which order, and how `todasLasPaginas` and
    `paginasLibro` relate. */
module BookProperties {
  import opened Collation
  import opened PathSort
  import opened Catalogs
  import opened Chapters
  import opened Book

  /** Every image of a path-sorted section is the image of one of its paths. */
  lemma SortedPagesFrom(m: map<string, Url>, ps: seq<string>, u: Url)
    requires forall p :: p in ps ==> p in m
    requires u in SortedPages(m, ps)
    ensures exists p :: p in ps && m[p] == u
  {
    assert u in multiset(Resolve(m, ps));
    var i :| 0 <= i < |ps| && Resolve(m, ps)[i] == u;
    assert ps[i] in ps;
  }

  /** Within a section, the image of a path that compares smaller with the numeric-aware
      comparator comes earlier: `page-9` before `page-10`. */
  lemma SectionFollowsNumericOrder(c: Catalog, k1: string, k2: string)
    requires WellFormed(c)
    requires k1 in c.keys && k2 in c.keys
    requires NumericCompare(k1, k2) < 0
    ensures exists i, j :: 0 <= i < j < |SectionPages(c)| &&
                           SectionPages(c)[i] == c.modules[k1] && SectionPages(c)[j] == c.modules[k2]
  {
    var order := SortPaths(c.keys);
    assert forall p :: p in order ==> p in multiset(c.keys);
    assert SectionPages(c) == Resolve(c.modules, order);
    assert k1 in multiset(order) && k2 in multiset(order);
    var i :| 0 <= i < |order| && order[i] == k1;
    var j :| 0 <= j < |order| && order[j] == k2;
    StrictlySmallerComesFirst(order, i, j);
  }

  /** Only the paths that pass the chapter filter contribute to the numbered chapters. */
  lemma ChapterNFromChapterPaths(a: Assets, u: Url)
    requires WellFormedAssets(a)
    requires u in ChapterN(a)
    ensures exists k :: k in a.chapters.keys && IsChapterPage(k) && a.chapters.modules[k] == u
  {
    SortedPagesFrom(a.chapters.modules, SelectChapterPaths(a.chapters.keys), u);
  }

  /** A `chapter-0` path that the chapter glob lists is not among the paths whose images
      form the numbered chapters. */
  lemma ChapterNSkipsChapterZero(a: Assets, k: string)
    requires InChapterZero(k)
    ensures k !in SelectChapterPaths(a.chapters.keys)
  {
    ChapterZeroNotSelected(k);
  }

  /** Every image of the catalog is a non-empty string, so JavaScript treats it as true. */
  predicate NonEmptyImages(c: Catalog)
    requires WellFormed(c)
  {
    forall k :: k in c.keys ==> c.modules[k] != ""
  }

  predicate NonEmptyAssetImages(a: Assets)
    requires WellFormedAssets(a)
  {
    NonEmptyImages(a.covers) && NonEmptyImages(a.chapter0) && NonEmptyImages(a.characterDescription) &&
    NonEmptyImages(a.chapters) && NonEmptyImages(a.finalChapter)
  }

  lemma SectionImagesNonEmpty(c: Catalog)
    requires WellFormed(c) && NonEmptyImages(c)
    ensures forall u :: u in SectionPages(c) ==> u != ""
  {
    forall u | u in SectionPages(c)
      ensures u != ""
    {
      SortedPagesFrom(c.modules, c.keys, u);
    }
  }

  lemma ChapterNImagesNonEmpty(a: Assets)
    requires WellFormedAssets(a) && NonEmptyImages(a.chapters)
    ensures forall u :: u in ChapterN(a) ==> u != ""
  {
    forall u | u in ChapterN(a)
      ensures u != ""
    {
      ChapterNFromChapterPaths(a, u);
    }
  }

  /** An element of four concatenated sequences is in one of them. */
  lemma InConcat4<T>(w: seq<T>, x: seq<T>, y: seq<T>, z: seq<T>, u: T)
    requires u in w + x + y + z
    ensures u in w || u in x || u in y || u in z
  {
  }

  lemma InteriorImagesNonEmpty(a: Assets)
    requires WellFormedAssets(a) && NonEmptyAssetImages(a)
    ensures forall u :: u in InteriorPages(a) ==> u != ""
  {
    var c0, cd, cn, fc := Chapter0(a), CharacterDescription(a), ChapterN(a), FinalChapter(a);
    SectionImagesNonEmpty(a.chapter0);
    SectionImagesNonEmpty(a.characterDescription);
    SectionImagesNonEmpty(a.finalChapter);
    ChapterNImagesNonEmpty(a);
    forall u | u in InteriorPages(a)
      ensures u != ""
    {
      InConcat4(c0, cd, cn, fc, u);
    }
  }

  lemma RegroupConcat<T>(f: seq<T>, c0: seq<T>, cd: seq<T>, cn: seq<T>, fc: seq<T>, b: seq<T>)
    ensures f + c0 + cd + cn + fc + b == f + (c0 + cd + cn + fc) + b
  {
  }

  /** `todasLasPaginas` is the front cover, if found, the interior sections, and the back
      cover, if found. */
  lemma WholeBookParts(a: Assets)
    requires WellFormedAssets(a)
    ensures WholeBook(a) == CoverPage(a, FrontCover(a)) + InteriorPages(a) + CoverPage(a, BackCover(a))
  {
    RegroupConcat(CoverPage(a, FrontCover(a)), Chapter0(a), CharacterDescription(a), ChapterN(a),
                  FinalChapter(a), CoverPage(a, BackCover(a)));
  }

  /** The filtered back-cover slot is the back-cover page, whenever the back cover's image
      is a non-empty string. */
  lemma BackSlotFiltered(a: Assets)
    requires WellFormedAssets(a)
    ensures BackCover(a).None? ==> BookPages(a) == KeepTruthy(Wrap(InteriorPages(a)))
    ensures BackCover(a).Some? && a.covers.modules[BackCover(a).value] != "" ==>
              BookPages(a) == KeepTruthy(Wrap(InteriorPages(a))) + CoverPage(a, BackCover(a))
  {
    var contra := BackCover(a);
    var last := if contra.Some? then Some(a.covers.modules[contra.value]) else None;
    var slots := Wrap(InteriorPages(a));
    assert BookSlots(a) == slots + [last];
    KeepTruthyLast(slots, last);
  }

  /** `paginasLibro` is exactly `chapter0 ++ characterDesc ++ chapterN ++ finalChapter`
      followed by the back cover when one was found. */
  lemma BookPagesAreInteriorThenBackCover(a: Assets)
    requires WellFormedAssets(a) && NonEmptyAssetImages(a)
    ensures BookPages(a) == InteriorPages(a) + CoverPage(a, BackCover(a))
  {
    InteriorImagesNonEmpty(a);
    KeepTruthyOfImages(InteriorPages(a));
    BackSlotFiltered(a);
  }

  /** When there is a back cover it is the last page of both builders (of `paginasLibro`
      when its image is a non-empty string); when there is none, nothing is appended. */
  lemma BackCoverIsLast(a: Assets)
    requires WellFormedAssets(a)
    ensures BackCover(a).Some? ==>
              var u := a.covers.modules[BackCover(a).value];
              WholeBook(a)[|WholeBook(a)| - 1] == u &&
              (u != "" ==> |BookPages(a)| > 0 && BookPages(a)[|BookPages(a)| - 1] == u)
    ensures BackCover(a).None? ==>
              WholeBook(a) == CoverPage(a, FrontCover(a)) + InteriorPages(a) &&
              BookPages(a) == KeepTruthy(Wrap(InteriorPages(a)))
  {
    WholeBookParts(a);
    BackSlotFiltered(a);
  }

  /** A back cover whose image belongs to it alone appears exactly once in `paginasLibro`
      when that image is a non-empty string, and not at all when `.filter(Boolean)` drops
      it. */
  lemma BackCoverOnce(a: Assets)
    requires WellFormedAssets(a)
    requires BackCover(a).Some? && UniqueCoverImage(a, BackCover(a).value)
    ensures var u := a.covers.modules[BackCover(a).value];
            multiset(BookPages(a))[u] == if u != "" then 1 else 0
  {
    var u := a.covers.modules[BackCover(a).value];
    var inner := InteriorPages(a);
    if u != "" {
      UniqueImageNotInInterior(a, BackCover(a).value);
      NotInWrapped(inner, u);
      BackSlotFiltered(a);
      assert u !in KeepTruthy(Wrap(inner));
    }
  }

  /** A back cover whose image belongs to it alone, and whose path is not also the front
      cover's, appears exactly once in `todasLasPaginas`. */
  lemma BackCoverOnceInWholeBook(a: Assets)
    requires WellFormedAssets(a)
    requires BackCover(a).Some? && FrontCover(a) != BackCover(a)
    requires UniqueCoverImage(a, BackCover(a).value)
    ensures multiset(WholeBook(a))[a.covers.modules[BackCover(a).value]] == 1
  {
    var u := a.covers.modules[BackCover(a).value];
    WholeBookParts(a);
    UniqueImageNotInInterior(a, BackCover(a).value);
    assert u !in CoverPage(a, FrontCover(a));
  }

  /** When there is a front cover it is the first page of `todasLasPaginas`; when there is
      none, the book starts with the interior. */
  lemma FrontCoverIsFirst(a: Assets)
    requires WellFormedAssets(a)
    ensures FrontCover(a).Some? ==> WholeBook(a)[0] == a.covers.modules[FrontCover(a).value]
    ensures FrontCover(a).None? ==> WholeBook(a) == InteriorPages(a) + CoverPage(a, BackCover(a))
  {
    WholeBookParts(a);
  }

  /** The image of cover path `k` is the image of no other asset path. */
  predicate UniqueCoverImage(a: Assets, k: string)
    requires WellFormedAssets(a)
    requires k in a.covers.keys
  {
    var u := a.covers.modules[k];
    (forall k' :: k' in a.covers.keys && k' != k ==> a.covers.modules[k'] != u) &&
    (forall k' :: k' in a.chapter0.keys ==> a.chapter0.modules[k'] != u) &&
    (forall k' :: k' in a.characterDescription.keys ==> a.characterDescription.modules[k'] != u) &&
    (forall k' :: k' in a.chapters.keys ==> a.chapters.modules[k'] != u) &&
    (forall k' :: k' in a.finalChapter.keys ==> a.finalChapter.modules[k'] != u)
  }

  lemma UniqueImageNotInInterior(a: Assets, k: string)
    requires WellFormedAssets(a) && k in a.covers.keys && UniqueCoverImage(a, k)
    ensures a.covers.modules[k] !in InteriorPages(a)
  {
    var u := a.covers.modules[k];
    if u in Chapter0(a) {
      SortedPagesFrom(a.chapter0.modules, a.chapter0.keys, u);
    } else if u in CharacterDescription(a) {
      SortedPagesFrom(a.characterDescription.modules, a.characterDescription.keys, u);
    } else if u in ChapterN(a) {
      ChapterNFromChapterPaths(a, u);
    } else if u in FinalChapter(a) {
      SortedPagesFrom(a.finalChapter.modules, a.finalChapter.keys, u);
    }
  }

  /** The front cover is never a page of `paginasLibro`, and in `todasLasPaginas` it is
      only page 0, provided its image belongs to it alone and its path is not also the
      back cover's. */
  lemma FrontCoverOnlyFirst(a: Assets)
    requires WellFormedAssets(a)
    requires FrontCover(a).Some? && BackCover(a) != FrontCover(a)
    requires UniqueCoverImage(a, FrontCover(a).value)
    ensures a.covers.modules[FrontCover(a).value] !in WholeBook(a)[1..]
    ensures a.covers.modules[FrontCover(a).value] !in BookPages(a)
  {
    var u := a.covers.modules[FrontCover(a).value];
    var inner, back := InteriorPages(a), CoverPage(a, BackCover(a));
    UniqueImageNotInInterior(a, FrontCover(a).value);
    assert u !in back;
    WholeBookParts(a);
    TailAfterOne(CoverPage(a, FrontCover(a)), inner + back);
    ImageNotInBookPages(a, u);
  }

  /** An image that is neither an interior page nor the back-cover page is not a page of
      `paginasLibro`. */
  lemma ImageNotInBookPages(a: Assets, u: Url)
    requires WellFormedAssets(a)
    requires u !in InteriorPages(a) && u !in CoverPage(a, BackCover(a))
    ensures u !in BookPages(a)
  {
    var inner, back := InteriorPages(a), CoverPage(a, BackCover(a));
    NotInWrapped(inner, u);
    assert BookSlots(a) == Wrap(inner) + [if BackCover(a).Some? then Some(back[0]) else None];
  }

  lemma TailAfterOne<T>(x: seq<T>, y: seq<T>)
    requires |x| == 1
    ensures (x + y)[1..] == y
  {
  }

  lemma NotInWrapped(us: seq<Url>, u: Url)
    requires u !in us
    ensures Some(u) !in Wrap(us)
  {
  }

  /** A cover path that contains both markers is found as the front and as the back cover,
      so the front cover's image is then also the last page of `paginasLibro` and both the
      first and the last page of `todasLasPaginas`. */
  lemma SharedCoverPath(a: Assets)
    requires WellFormedAssets(a)
    requires FrontCover(a).Some? && BackCover(a) == FrontCover(a)
    requires a.covers.modules[FrontCover(a).value] != ""
    ensures var u := a.covers.modules[FrontCover(a).value];
            WholeBook(a)[0] == u && WholeBook(a)[|WholeBook(a)| - 1] == u &&
            u in BookPages(a) && BookPages(a)[|BookPages(a)| - 1] == u
  {
    FrontCoverIsFirst(a);
    BackCoverIsLast(a);
  }

  /** The two builders agree: with non-empty images, `todasLasPaginas` is
      `paginasLibro` with the front cover, if found, put in front. */
  lemma BuildersAgree(a: Assets)
    requires WellFormedAssets(a) && NonEmptyAssetImages(a)
    ensures WholeBook(a) == CoverPage(a, FrontCover(a)) + BookPages(a)
  {
    WholeBookParts(a);
    BookPagesAreInteriorThenBackCover(a);
  }

  /** The number of paths each section contributes. */
  function SectionSizes(a: Assets): nat {
    |a.chapter0.keys| + |a.characterDescription.keys| + |SelectChapterPaths(a.chapters.keys)| +
    |a.finalChapter.keys|
  }

  /** `todasLasPaginas` has one page per section path plus one per cover found. */
  lemma WholeBookLength(a: Assets)
    requires WellFormedAssets(a)
    ensures |WholeBook(a)| == SectionSizes(a) + (if FrontCover(a).Some? then 1 else 0) +
                              (if BackCover(a).Some? then 1 else 0)
  {
  }

  /** `paginasLibro` has one page per section path plus one when the back cover was found,
      when every image is a non-empty string; at most that many otherwise. */
  lemma BookPagesLength(a: Assets)
    requires WellFormedAssets(a)
    ensures |BookPages(a)| <= SectionSizes(a) + (if BackCover(a).Some? then 1 else 0)
    ensures NonEmptyAssetImages(a) ==>
              |BookPages(a)| == SectionSizes(a) + (if BackCover(a).Some? then 1 else 0)
  {
    if NonEmptyAssetImages(a) {
      BookPagesAreInteriorThenBackCover(a);
    }
    BackSlotFiltered(a);
  }

  /** When no cover path contains either marker, both builders give the interior sections
      alone, in their sorted order, and nothing is appended (`paginasLibro` when every
      image is a non-empty string, which `.filter(Boolean)` keeps). */
  lemma NoCovers(a: Assets)
    requires WellFormedAssets(a)
    requires forall k :: k in a.covers.keys ==> !Includes(k, FrontCoverMarker)
    requires forall k :: k in a.covers.keys ==> !Includes(k, BackCoverMarker)
    ensures WholeBook(a) == InteriorPages(a)
    ensures NonEmptyAssetImages(a) ==> BookPages(a) == InteriorPages(a)
  {
    assert FrontCover(a).None? && BackCover(a).None?;
    var inner := InteriorPages(a);
    WholeBookParts(a);
    assert CoverPage(a, FrontCover(a)) == [] && CoverPage(a, BackCover(a)) == [];
    assert [] + inner + [] == inner;
    if NonEmptyAssetImages(a) {
      BookPagesAreInteriorThenBackCover(a);
      assert inner + [] == inner;
    }
  }
}

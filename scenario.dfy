/** An end-to-end example: two covers and two `chapter-0` pages, which the `chapter-*`
    glob lists as well. */
module Scenario {
  import opened Collation
  import opened PathSort
  import opened Catalogs
  import opened Chapters
  import opened Book
  import opened BookProperties

  const FrontPath: string := "./assets/images/covers/cover-1.png"
  const BackPath: string := "./assets/images/covers/cover-2.png"
  const PageOne: string := "./assets/images/chapter-0/p-1.png"
  const PageTwo: string := "./assets/images/chapter-0/p-2.png"

  const EmptyCatalog: Catalog := Catalog([], map[])

  /** The `chapter-0` pages, listed out of order so that sorting matters. */
  const ChapterZeroPages: Catalog := Catalog([PageTwo, PageOne], map[PageOne := "R3", PageTwo := "R4"])

  /** The `chapter-*` glob also matches `chapter-0`, so its catalog holds the same pages. */
  const Example: Assets := Assets(
    Catalog([FrontPath, BackPath], map[FrontPath := "R1", BackPath := "R2"]),
    ChapterZeroPages,
    EmptyCatalog,
    ChapterZeroPages,
    EmptyCatalog)

  lemma FrontPathLacksBackMarker()
    ensures !Includes(FrontPath, BackCoverMarker)
  {
    forall i | 0 <= i <= |FrontPath| - |BackCoverMarker|
      ensures !OccursAt(FrontPath, BackCoverMarker, i)
    {
      assert FrontPath[i..i + 7][6] == FrontPath[i + 6];
    }
  }

  lemma ExampleCovers()
    ensures FrontCover(Example) == Some(FrontPath)
    ensures BackCover(Example) == Some(BackPath)
  {
    var keys := [FrontPath, BackPath];
    assert OccursAt(FrontPath, FrontCoverMarker, 23);
    assert OccursAt(BackPath, BackCoverMarker, 23);
    FrontPathLacksBackMarker();
    assert keys[1..] == [BackPath];
    assert FirstIncluding([BackPath], BackCoverMarker) == 0;
    assert FirstIncluding(keys, BackCoverMarker) == 1;
  }

  lemma PagesCompare()
    ensures NumericCompare(PageOne, PageTwo) < 0 && NumericCompare(PageTwo, PageOne) > 0
  {
    var prefix, suffix := "./assets/images/chapter-0/p-", ".png";
    assert DecimalValue("1") == 1 && DecimalValue("2") == 2;
    assert prefix + "1" + suffix == PageOne && prefix + "2" + suffix == PageTwo;
    NumberRunsCompareByValue(prefix, "1", "2", suffix);
    NumericCompareFlip(PageOne, PageTwo);
  }

  lemma TwoPageSection(c: Catalog, x: string, y: string)
    requires c.keys == [y, x] && x in c.modules && y in c.modules
    requires NumericCompare(x, y) < 0
    ensures SectionPages(c) == [c.modules[x], c.modules[y]]
  {
    SortSwapsTwo(x, y);
  }

  lemma ExampleChapterZero()
    ensures Chapter0(Example) == ["R3", "R4"]
  {
    PagesCompare();
    TwoPageSection(Example.chapter0, PageOne, PageTwo);
  }

  /** A file of `chapter-0` is not taken into the numbered chapters. */
  lemma ChapterZeroFileSkipped(file: string)
    requires NoSlash(file)
    ensures !IsChapterPage(AssetRoot + "chapter-0/" + file)
  {
    var dir := AssetRoot + "chapter-0/";
    var p := dir + file;
    assert p[..|dir|] == dir && p[|dir|..] == file;
    ChapterZeroNotSelected(p);
  }

  /** Neither example page passes the chapter filter, so the numbered chapters are empty. */
  lemma ExampleChapterN()
    ensures ChapterN(Example) == []
  {
    assert PageOne == AssetRoot + "chapter-0/" + "p-1.png";
    assert PageTwo == AssetRoot + "chapter-0/" + "p-2.png";
    ChapterZeroFileSkipped("p-1.png");
    ChapterZeroFileSkipped("p-2.png");
    NoChapterPages(Example);
  }

  /** When no `chapter-*` path passes the filter, the numbered chapters are empty. */
  lemma NoChapterPages(a: Assets)
    requires WellFormedAssets(a)
    requires forall k :: k in a.chapters.keys ==> !IsChapterPage(k)
    ensures ChapterN(a) == []
  {
    var ps := SelectChapterPaths(a.chapters.keys);
    if ps != [] {
      assert false;
    }
  }

  /** With only `chapter-0` pages, and none of the `chapter-*` paths numbered, the interior
      is the `chapter-0` section. */
  lemma OnlyChapterZero(a: Assets)
    requires WellFormedAssets(a)
    requires a.characterDescription.keys == [] && a.finalChapter.keys == [] && ChapterN(a) == []
    ensures InteriorPages(a) == Chapter0(a)
  {
    assert CharacterDescription(a) == [] && FinalChapter(a) == [];
  }

  lemma ExampleInterior()
    ensures InteriorPages(Example) == ["R3", "R4"]
  {
    ExampleChapterZero();
    ExampleChapterN();
    OnlyChapterZero(Example);
  }

  /** With both covers found and non-empty images, the pages are the front image, the
      interior and the back image. */
  lemma BothCovers(a: Assets, f: Url, b: Url)
    requires WellFormedAssets(a) && NonEmptyAssetImages(a)
    requires FrontCover(a).Some? && a.covers.modules[FrontCover(a).value] == f
    requires BackCover(a).Some? && a.covers.modules[BackCover(a).value] == b
    ensures BookPages(a) == InteriorPages(a) + [b]
    ensures WholeBook(a) == [f] + InteriorPages(a) + [b]
  {
    BookPagesAreInteriorThenBackCover(a);
    BuildersAgree(a);
    assert CoverPage(a, FrontCover(a)) == [f] && CoverPage(a, BackCover(a)) == [b];
  }

  lemma ExampleImagesNonEmpty()
    ensures WellFormedAssets(Example) && NonEmptyAssetImages(Example)
  {
  }

  lemma ExampleBookPagesParts()
    ensures BookPages(Example) == InteriorPages(Example) + ["R2"]
  {
    ExampleCovers();
    ExampleImagesNonEmpty();
    BothCovers(Example, "R1", "R2");
  }

  lemma ExampleWholeBookParts()
    ensures WholeBook(Example) == ["R1"] + BookPages(Example)
  {
    ExampleCovers();
    ExampleImagesNonEmpty();
    BuildersAgree(Example);
    assert CoverPage(Example, FrontCover(Example)) == ["R1"];
  }

  /** `paginasLibro` is `[R3, R4, R2]`. */
  lemma ExampleBookPages()
    ensures BookPages(Example) == ["R3", "R4", "R2"]
  {
    ExampleBookPagesParts();
    ExampleInterior();
  }

  /** `todasLasPaginas` is the front cover `R1` followed by `[R3, R4, R2]`. */
  lemma ExampleWholeBook()
    ensures WholeBook(Example) == ["R1"] + ["R3", "R4", "R2"]
  {
    ExampleWholeBookParts();
    ExampleBookPages();
  }
}

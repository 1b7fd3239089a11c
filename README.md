# Page-sequence assembly of the fairy-tale flip book

The `App` component of the fairy-tale reader turns the image assets of a book into
the ordered pages handed to a page-flip widget. Five `import.meta.glob` calls make the
starting catalogs: `covers`, `chapter-0`, `character-description`, every `chapter-*`
directory, and `final-chapter`. Each catalog maps a path to the module that exports the
image. From these catalogs, two page lists are built:

- `todasLasPaginas` (a memoised computation). It pushes, in order: the front cover (the
  first cover path containing `cover-1`), the `chapter-0`, `character-description`,
  `chapter-01`..`chapter-13` and `final-chapter` pages, and the back cover (the first
  cover path containing `cover-2`).
- `paginasLibro`. It is the array literal of the four interior sections followed by the
  back cover or `null`, passed through `.filter(Boolean)`.

Inside each section the paths are sorted with
`localeCompare(…, { numeric: true })`, so `page-9` comes before `page-10`. The
numbered-chapter section keeps only the paths matching `/chapter-(0[1-9]|1[0-3])\//`. This
drops the `chapter-0` pages, which the `chapter-*` glob also lists.

The modules follow the steps of that code:

- `Collation`: the numeric-aware string comparison, proved to be a total preorder that
  compares embedded digit runs by value.
- `PathSort`: the sort of a path list, modelled as an insertion sort. It is proved
  sorted, a permutation and stable. `Array.prototype.sort` is stable too, so the result
  is the one any stable sort by the comparator gives (`PathSort.SortPathsUnique`).
- `Catalogs`: a glob result (`Object.keys` order and the path-to-image entries), plus
  `find`/`includes`, `map(path => modules[path].default)`, and the sorted section
  builder.
- `Chapters`: the chapter regular expression, and what it keeps of a glob path.
- `Book`: the two builders. `BuildWholeBook` is the imperative `todasLasPaginas` proved
  equal to `WholeBook`. `BookPages` is `paginasLibro`, with `KeepTruthy` as
  `.filter(Boolean)`.
- `BookProperties`: where the covers go, how the builders relate, the lengths, and where
  the numbered chapters come from.
- `Scenario`: a two-cover, two-page example worked out end to end, with the
  `chapter-0` pages also listed by the `chapter-*` glob.

Three facts of the code shape the model:

- The code has five separate globs, so the interior sections never hold cover paths.
  The `chapter-*` glob also lists the `chapter-0` pages, and the chapter filter is what
  keeps them out of the numbered chapters (`Chapters.ChapterZeroNotSelected`,
  `Scenario.ExampleChapterN`).
- `paginasLibro` never uses `portada`. The front cover's image is absent from it unless
  that path is also the back cover (`BookProperties.SharedCoverPath`) or another asset
  has the same image (`BookProperties.FrontCoverOnlyFirst`). `todasLasPaginas` does put
  the front cover first (`BookProperties.FrontCoverIsFirst`), but `todasLasPaginas` is
  computed and not used by the rendered markup.
- Nothing checks that each marker matches at most one path. `find` takes the first
  match in key order, so a cover path that contains both markers is both the front and
  the back cover (`BookProperties.SharedCoverPath`).

An image is modelled as the URL string the bundler exports as the module's `default`.
`null` is `None`. The empty string counts as false, as in JavaScript, so
`.filter(Boolean)` drops it. That is why the properties that compare filtered and
unfiltered lists assume non-empty image URLs.

## Model

| member | source | states |
|---|---|---|
| Collation.CompareTokens | src/App.tsx:36 | one comparison step gives -1, 0 or 1, and 0 exactly when the two tokens are equal |
| Collation.CompareTokenSeqs | src/App.tsx:36 | the comparison of two token lists gives -1, 0 or 1, and the empty list never compares greater |
| Collation.NumericCompareFlip | src/App.tsx:36 | swapping the arguments of the numeric comparison negates its result |
| Collation.NumericCompareZero | src/App.tsx:36 | two paths compare equal exactly when they split into the same digit-run and character tokens |
| Collation.PathLeTotal | src/App.tsx:36 | any two paths are ordered one way or the other |
| Collation.PathLeTransitive | src/App.tsx:36 | the "may precede" relation of the comparator is transitive |
| Collation.NumberRunsCompareByValue | src/App.tsx:36 | paths that differ only in one embedded number compare as the numbers' values do, in both directions and for equality |
| Collation.NumericCompare | src/App.tsx:36 | `a.localeCompare(b, undefined, { numeric: true })` gives -1, 0 or 1; its meaning is stated by NumericCompareFlip, NumericCompareZero, PathLeTotal, PathLeTransitive and NumberRunsCompareByValue |
| Collation.PageNineBeforePageTen | src/App.tsx:36 | `page-9` sorts before `page-10` |
| PathSort.Insert | src/App.tsx:36 | inserting into a sorted list gives a sorted list holding the old paths plus the new one |
| PathSort.SortPaths | src/App.tsx:36 | the sorted paths are ordered by the comparator and are a permutation of the input |
| PathSort.StrictlySmallerComesFirst | src/App.tsx:36 | in a sorted list, a path that compares strictly smaller stands strictly earlier |
| PathSort.SortedPermutationUnique | src/App.tsx:36 | when no two distinct paths tie, two sorted permutations of the same paths are equal |
| PathSort.SortPathsDetermined | src/App.tsx:36 | when no two distinct paths tie, sorting yields the one sorted arrangement of them |
| PathSort.InsertTiedWith | src/App.tsx:36 | inserting a path puts it in front of the paths it ties with and changes no other tie class |
| PathSort.SortPathsStable | src/App.tsx:36 | the sort is stable: the paths that tie with any given path come out in their input order |
| PathSort.SortedStableUnique | src/App.tsx:36 | two sorted lists that hold every tie class in the same order are equal |
| PathSort.SortPathsUnique | src/App.tsx:36 | the sorted result is the one sorted arrangement that keeps every tie class in input order, so any stable sort by the comparator gives it |
| PathSort.SortKeepsTiedPair | src/App.tsx:36 | two paths that tie, such as `p01` and `p1`, keep their listed order |
| PathSort.SortSwapsTwo | src/App.tsx:36 | two paths listed against the comparator's order come out swapped |
| PathSort.SortThree | src/App.tsx:36 | three paths listed as `y, z, x` with `x < y < z` by the comparator come out as `x, y, z` |
| PathSort.SortPathsExample | src/App.tsx:36 | `p2.png, p10.png, p1.png` sorts to `p1.png, p2.png, p10.png` |
| Catalogs.FirstIncluding | src/App.tsx:31 | the index returned is the first whose path contains the marker, or the length when no path does |
| Catalogs.Includes | src/App.tsx:31-32 | `p.includes(marker)`: the marker occurs at some offset of `p`; IncludesBounds states its prefix and length cases |
| Catalogs.IncludesBounds | src/App.tsx:31-32 | a marker that is a prefix of the path is included in it, and a marker longer than the path never is |
| Catalogs.Find | src/App.tsx:31 | `find(p => p.includes(marker))` gives no path exactly when none contains the marker; otherwise it gives a listed path that contains the marker, with no earlier path containing it |
| Catalogs.FoundPathIsTruthy | src/App.tsx:56 | a found cover path is a non-empty string, so the `portada ? … : []` test takes the found branch |
| Catalogs.Resolve | src/App.tsx:37 | image i is the image exported for path i, and there is one image per path |
| Catalogs.ResolveAppend | src/App.tsx:37 | resolving concatenated paths concatenates their images |
| Catalogs.ResolvePermutation | src/App.tsx:37 | a rearrangement of the paths rearranges their images the same way |
| Catalogs.ResolveRemoveAt | src/App.tsx:37 | dropping the path at one index drops exactly its image from the images |
| Catalogs.SortedPages | src/App.tsx:35-37 | one image per path, and the same multiset of images as the unsorted paths |
| Catalogs.SortedPagesOrder | src/App.tsx:35-37 | the images of a section follow an arrangement of its paths that is sorted by the comparator and is a permutation of them |
| Catalogs.SectionPages | src/App.tsx:35-37 | a section has one image per listed path and the same images as its catalog |
| Chapters.SelectChapterPaths | src/App.tsx:46 | a path is kept exactly when it is listed and matches the chapter expression, as many times as it is listed, and nothing is added |
| Chapters.SelectChapterPathsAppend | src/App.tsx:46 | the filter keeps the listed order: filtering a concatenation concatenates the filtered parts |
| Chapters.IsChapterPage | src/App.tsx:46 | the regular expression's `.test`, an unanchored search; which glob paths it accepts is stated by ChapterDirectorySelection |
| Chapters.ChapterDirectorySelection | src/App.tsx:46 | a glob path `…chapter-<dir>/<file>` is kept exactly when `dir` is `01`..`13`, or a name that ends in `chapter-01`..`chapter-13` |
| Chapters.ChapterZeroNotSelected | src/App.tsx:46 | a `chapter-0` page listed by the `chapter-*` glob does not pass the filter |
| Chapters.NumberedChapterSelected | src/App.tsx:46 | every page of `chapter-01` to `chapter-13` passes the filter |
| Book.FrontCover | src/App.tsx:31 | `portada` is a cover path containing `cover-1` with no earlier cover path containing it, and it is absent exactly when no cover path contains it |
| Book.BackCover | src/App.tsx:32 | `contra` is a cover path containing `cover-2` with no earlier cover path containing it, and it is absent exactly when no cover path contains it |
| Book.CoverPage | src/App.tsx:56 | a found cover contributes one page, its image; a missing one contributes none |
| Book.Chapter0 | src/App.tsx:35-37 | `chapter0` has one image per `chapter-0` path and holds exactly their images |
| Book.CharacterDescription | src/App.tsx:40-42 | `characterDesc` has one image per `character-description` path and holds exactly their images |
| Book.ChapterN | src/App.tsx:45-48 | `chapterN` has one image per path the chapter filter keeps and holds exactly their images |
| Book.FinalChapter | src/App.tsx:51-53 | `finalChapter` has one image per `final-chapter` path and holds exactly their images |
| Book.InteriorPages | src/App.tsx:59-62 | the four sections in reading order; that its pages are non-empty images is InteriorImagesNonEmpty |
| Book.WholeBook | src/App.tsx:29-68 | the value of `todasLasPaginas`; where its covers go and its length are FrontCoverIsFirst, BackCoverIsLast and WholeBookLength |
| Book.BuildWholeBook | src/App.tsx:29-68 | the pushes of `todasLasPaginas` leave `libroFinal` equal to: front cover if found, the four sorted sections in order, back cover if found |
| Book.KeepTruthy | src/App.tsx:105 | `.filter(Boolean)` keeps exactly the non-null, non-empty entries and adds nothing |
| Book.KeepTruthyAppend | src/App.tsx:105 | filtering a concatenation concatenates the filtered parts |
| Book.KeepTruthyLast | src/App.tsx:104-105 | a final entry survives the filter exactly when it is truthy |
| Book.KeepTruthyOfImages | src/App.tsx:105 | entries that are all non-empty images pass the filter unchanged |
| Book.Truthy | src/App.tsx:105 | `Boolean(entry)`: false for `null` and the empty string; KeepTruthy keeps exactly the entries it accepts |
| Book.BookSlots | src/App.tsx:99-104 | the array literal before filtering; what the filter makes of it is BackSlotFiltered and BookPagesAreInteriorThenBackCover |
| Book.BookPages | src/App.tsx:99-105 | `paginasLibro` has no null and no empty entry |
| BookProperties.SortedPagesFrom | src/App.tsx:45-48 | every image of a sorted section is the image of one of its paths |
| BookProperties.SectionFollowsNumericOrder | src/App.tsx:35-37 | in a section, the image of a path that compares smaller stands earlier than that of a path that compares greater |
| BookProperties.ChapterNFromChapterPaths | src/App.tsx:45-48 | every numbered-chapter image comes from a `chapter-*` path that matches the chapter expression |
| BookProperties.ChapterNSkipsChapterZero | src/App.tsx:45-48 | no `chapter-0` path is among the paths of the numbered chapters |
| BookProperties.InteriorImagesNonEmpty | src/App.tsx:59-62 | with non-empty images in the catalogs, every interior page is a non-empty image |
| BookProperties.BackSlotFiltered | src/App.tsx:104-105 | the `contra ? … : null` slot filters to nothing without a back cover, and to the back-cover page when its image is non-empty |
| BookProperties.BookPagesAreInteriorThenBackCover | src/App.tsx:99-105 | with non-empty images, `paginasLibro` is the four sections in order followed by the back cover when one was found |
| BookProperties.BackCoverIsLast | src/App.tsx:65 | a found back cover is the last page of `todasLasPaginas` and, when non-empty, of `paginasLibro`; with none, neither builder appends anything |
| BookProperties.BackCoverOnce | src/App.tsx:99-105 | a back cover whose image is its own occurs exactly once in `paginasLibro` when that image is non-empty, and not at all when the filter drops it |
| BookProperties.BackCoverOnceInWholeBook | src/App.tsx:29-68 | a back cover whose image is its own, and whose path is not the front cover's, occurs exactly once in `todasLasPaginas` |
| BookProperties.FrontCoverIsFirst | src/App.tsx:56 | a found front cover is page 0 of `todasLasPaginas`; with none, `todasLasPaginas` starts with the interior |
| BookProperties.FrontCoverOnlyFirst | src/App.tsx:56-105 | a front cover whose image is its own, and whose path is not the back cover's, is nowhere after page 0 of `todasLasPaginas` and nowhere in `paginasLibro` |
| BookProperties.SharedCoverPath | src/App.tsx:31-32 | a cover path containing both markers makes its image the first and last page of `todasLasPaginas` and the last page of `paginasLibro` |
| BookProperties.BuildersAgree | src/App.tsx:29-105 | with non-empty images, `todasLasPaginas` is `paginasLibro` with the front cover, if found, put in front |
| BookProperties.WholeBookLength | src/App.tsx:29-68 | `todasLasPaginas` has one page per section path plus one per cover found |
| BookProperties.BookPagesLength | src/App.tsx:99-105 | `paginasLibro` has one page per section path plus one for a found back cover; with empty images, at most that many |
| BookProperties.NoCovers | src/App.tsx:29-105 | when no cover path contains either marker, `todasLasPaginas` is exactly the sorted interior sections, and so is `paginasLibro` when every image is non-empty |
| Scenario.ExampleCovers | src/App.tsx:30-32 | with covers `covers/cover-1.png` and `covers/cover-2.png`, those are the front and back cover |
| Scenario.ExampleChapterZero | src/App.tsx:35-37 | `chapter-0/p-2.png, chapter-0/p-1.png` give the pages `R3, R4` |
| Scenario.ExampleChapterN | src/App.tsx:45-48 | the two `chapter-0` pages that the `chapter-*` glob lists give no numbered-chapter page |
| Scenario.ExampleBookPages | src/App.tsx:99-105 | the example's `paginasLibro` is `[R3, R4, R2]` |
| Scenario.ExampleWholeBook | src/App.tsx:29-68 | the example's `todasLasPaginas` is `R1` followed by `[R3, R4, R2]` |

## Left out

- Collation.NumericCompare: only a simplified `localeCompare` with `numeric: true`. It
  splits on maximal runs of ASCII digits, compares them by value, and puts digit runs
  before other characters. Everything else compares by code point. Locale collation
  (case and accent levels, punctuation weights, non-ASCII digits) is not modelled,
  because it depends on the engine's ICU data. The two orders differ for punctuation and
  case. ICU puts `-`, `.` and `_` before digits, so `p.png` precedes `p1.png` there, while
  the model puts `p1.png` first. ICU compares letters without case at the first level, so
  `page-1` precedes `Page-2`, while the model puts `Page-2` first by code point. Asset
  names that differ only in their numbers, such as `page-9` and `page-10`, sort the same
  way in both.
- BookProperties.FrontCoverOnlyFirst: requires that no other asset shares the front
  cover's image and that the front path is not also the back cover. The code gives no
  such guarantee; `SharedCoverPath` covers the shared-path case.
- BookProperties.BackCoverOnce and BookProperties.BackCoverOnceInWholeBook: require
  that no other asset shares the back cover's image, and for `todasLasPaginas` that the
  back path is not also the front cover. The code does not prevent a shared image, which
  would then occur more than once.
- BookProperties.BuildersAgree and BookProperties.BookPagesAreInteriorThenBackCover:
  require non-empty image URLs. `.filter(Boolean)` would also drop an empty URL, which
  `todasLasPaginas` keeps.
- Asset discovery by `import.meta.glob`, including the extension patterns: the five
  catalogs are inputs, because discovery happens in the bundler at build time. A path
  is assumed to be listed by the glob that the model states it belongs to.
- `useMemo` caching and its dependency list: the memo is modelled as the value it
  computes. Caching changes no result.
- The second computation of `portada`, `contra` and the sections for `paginasLibro`
  (`src/App.tsx:79-96`): it is the same code as in `todasLasPaginas`, so both builders
  share one model of it.
- The window-size state, the resize listener and the layout arithmetic
  (`src/App.tsx:8-27`, `71-76`): user-interface sizing with browser I/O and floating
  point.
- The rendered markup: the cover view, the "Abrir libro" button, the `showBook` state,
  the `HTMLFlipBook` widget and its navigation buttons (`src/App.tsx:107-169`). These
  are rendering and third-party widget calls.
- `src/components/BookPreview.tsx`, `src/components/BookCard.tsx`,
  `src/components/Chapter.tsx` and `eslint.config.js` are not part of this model. They
  are presentation components and lint configuration, not page assembly.

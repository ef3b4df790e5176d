# The Enchanted Castle reader, modelled in Dafny

The Enchanted Castle reader is a small React application. It shows E. Nesbit's novel one page at a time. This project models the four pieces of it that hold logic rather than presentation, and proves what they promise:

- **The paginator** (`parseBookContent`, `client/src/lib/book-parser.ts`):
  - It normalises line endings, trims the text and splits it at every `"\n\n"` (two line feeds in a row; a line that holds only spaces does not split). Pieces that trim to nothing are dropped; the rest are the paragraphs.
  - It packs the paragraphs greedily into text pages of about 800 characters, and never splits a paragraph.
  - It splices one comic page in after the first text page, numbers the pages 1..N and returns them as the single chapter "Chapter I".
  - Module `BookParser`. `Paginate`, `SpliceComic`, `Renumber` and `ParseBookContent` are methods with the source's loops. A ghost out-parameter `groups` records which paragraphs went to which page.
  - They are proved against the specification predicates `IsGreedyPacking` and `Layout`.
- **The reading session** (`Home`, `client/src/pages/Home.tsx`):
  - It tracks the current page and the bookmark flag.
  - It keeps a single saved-page entry in local storage under `enchanted-castle-page`.
  - Its actions are loading on start, next, previous and the bookmark toggle.
  - Module `Reader`, class `ReaderSession`. The storage entry is a field of type `Option<string>`.
  - A page number is an integer or `NaN` (`None`), because it comes from `parseInt` of whatever the entry holds.
- **The bookmark list** (`tests/bookmarks.test.ts`, the reader's bookmark helpers as that file writes them out):
  - load with a fallback to the empty list, save, prepend, remove by id, the "is this page bookmarked" query;
  - the two migrations of the legacy single-page entry.
  - Module `Bookmarks`, class `BookmarkStore`.
  - The stored record is modelled by what `JSON.parse` makes of it: absent, unparseable, not an array, or a list of bookmarks.
- **The asset path joiner** (`withBasePath`, `client/src/lib/assets.ts`):
  - Module `Assets`.
  - The build-time `BASE_URL` is an explicit parameter; `None` stands for "/".

The JavaScript built-ins these rely on are modelled in their own modules, over `seq<char>`:

- `JsString`: `trim` with the ECMAScript whitespace set, `split` on a string separator, the global `\r\n` replacement, `startsWith` and `endsWith`.
- `JsNumber`: `parseInt` in base 10 and `toString` on integers and `NaN`.
- `Seqs`: `filter` and concatenation.

The paginator is modelled as the code is written, not as `tests/book-parser.test.ts` describes it:

- There is no splitting at `CHAPTER` headings and no extraction of `<comic-panel>` tags. `book-parser.ts` does neither.
- An empty text gives one chapter that holds only the comic page (`EmptyTextOnlyComic`), not an empty list of chapters.

## Model

| member | source | states |
|---|---|---|
| Seqs.Filter | client/src/lib/book-parser.ts:31 | `filter` keeps exactly the elements that satisfy the test, in their original order; when every element passes, the list is unchanged |
| Seqs.FilterMultiset | client/src/lib/book-parser.ts:31 | `filter` keeps each passing element as many times as it occurs, and no failing one |
| JsString.TrimSpec | client/src/lib/book-parser.ts:28 | `trim` gives the slice of the string after its whitespace prefix, with only whitespace after it; the result is empty iff the string is all whitespace, and otherwise starts and ends with non-whitespace |
| JsString.TrimDropsBlankTail | client/src/lib/book-parser.ts:41 | trimming removes at least the whitespace the string ends with, so a page buffer loses its closing blank line |
| JsString.Split | client/src/lib/book-parser.ts:31 | `split` gives at least one piece, and the first piece is a prefix of the string |
| JsString.SplitJoin | client/src/lib/book-parser.ts:31 | joining the pieces of a split with the separator gives back the string, so splitting loses nothing |
| JsString.SplitPiecesAvoidSeparator | client/src/lib/book-parser.ts:31 | no piece of a split contains the separator |
| JsString.SplitLeftmost | client/src/lib/book-parser.ts:31 | the separator that closes each piece but the last is the leftmost occurrence after the piece starts: the piece followed by all but the last character of the separator does not contain it (so `"\n\n\n"` splits as `["", "\n"]`) |
| JsString.ReplaceCrlfSpec | client/src/lib/book-parser.ts:28 | the replacement never lengthens the text, and leaves a text without `\r\n` unchanged |
| JsString.ReplaceCrlfAtPair | client/src/lib/book-parser.ts:28 | a `\r\n` between any two texts becomes `\n`, and the texts on either side are replaced on their own; with the previous row this determines the result for every text |
| JsString.ReplaceCrlfShortens | client/src/lib/book-parser.ts:28 | a text that holds a `\r\n` gets strictly shorter |
| JsString.ReplaceCrlfOnlyDropsCarriageReturns | client/src/lib/book-parser.ts:28 | the replacement only deletes carriage returns: every other character is kept, in order |
| JsNumber.ParseIntToString | client/src/pages/Home.tsx:21-24 | `parseInt(n.toString())` is `n` for every integer `n` |
| JsNumber.ParseSignedDigits | client/src/pages/Home.tsx:21-24 | `parseInt` reads an optional minus sign followed by decimal digits as their signed value |
| JsNumber.ParseIntReadsLeadingNumber | client/src/pages/Home.tsx:23 | `parseInt` skips leading whitespace, reads an optional minus sign and the decimal digits after it as their signed value, and ignores whatever follows the digits |
| JsNumber.ParseIntWithoutDigits | tests/bookmarks.test.ts:175-176 | `parseInt` gives `NaN` when no digit follows the leading whitespace and the optional sign, so the `!isNaN` guard rejects such an entry |
| JsNumber.ParseIntSkipsBlank | client/src/pages/Home.tsx:23 | whitespace in front of the text does not change what `parseInt` reads |
| JsNumber.NumberToString | client/src/pages/Home.tsx:45 | `currentPage.toString()` is never the empty string |
| JsNumber.ParseNumberToString | client/src/pages/Home.tsx:45-51 | reading back what `toString` wrote gives the same page number, `NaN` included |
| JsNumber.NumberToStringInjective | client/src/pages/Home.tsx:45 | two page numbers have the same string iff they are equal, so comparing the stored string with `currentPage.toString()` compares page numbers |
| BookParser.ParagraphsNotBlank | client/src/lib/book-parser.ts:28-31 | no paragraph is blank |
| BookParser.ParagraphsAreNonBlankPieces | client/src/lib/book-parser.ts:28-31 | the paragraphs are exactly the non-blank pieces of the normalised, trimmed text split at "\n\n", in their order; no paragraph contains "\n\n" |
| BookParser.ParagraphsKeepRepetitions | client/src/lib/book-parser.ts:28-31 | a non-blank piece occurs among the paragraphs as many times as among the pieces, a blank one never |
| BookParser.EmptyTextHasNoParagraph | client/src/lib/book-parser.ts:28-31 | the empty text has no paragraph |
| BookParser.PageContentNotEmpty | client/src/lib/book-parser.ts:38-58 | a page whose last paragraph is not blank has non-empty trimmed content |
| BookParser.PageContentBound | client/src/lib/book-parser.ts:38-49 | a text page built from two or more paragraphs has at most 800 characters |
| BookParser.SharedPageParagraphsFit | client/src/lib/book-parser.ts:38-48 | every paragraph on a page shared with another paragraph has at most 800 characters |
| BookParser.OversizedParagraphAlone | client/src/lib/book-parser.ts:38-49 | a paragraph longer than 800 characters is alone on its page |
| BookParser.GreedyPackingIsUnique | client/src/lib/book-parser.ts:37-59 | two greedy packings of the same paragraphs are equal, so the pages are determined by the text |
| BookParser.PackFlush | client/src/lib/book-parser.ts:38-46 | flushing a non-empty buffer that the next paragraph would overflow keeps the packing greedy |
| BookParser.PackAppend | client/src/lib/book-parser.ts:48 | appending a paragraph that fits, or one to an empty buffer, keeps the packing greedy |
| BookParser.PackStepIsPacked | client/src/lib/book-parser.ts:37-49 | every state the loop reaches, paragraph by paragraph, is a greedy packing in progress |
| BookParser.PackFinish | client/src/lib/book-parser.ts:52-59 | flushing the last buffer when it is not empty completes a greedy packing of all the paragraphs |
| BookParser.Paginate | client/src/lib/book-parser.ts:33-59 | the text pages are the greedy packing of the paragraphs: the groups concatenate to the paragraphs in order, none is empty, every paragraph inside a group fitted, every group was closed because the next paragraph overflowed it; page `i` is numbered `i + 1` and holds its group's buffer, trimmed and non-empty, as a text page of "Chapter I" without image |
| BookParser.PagesOfAreTextPages | client/src/lib/book-parser.ts:38-59 | the text pages are numbered 1..N in order and none has empty content |
| BookParser.SpliceComic | client/src/lib/book-parser.ts:63-82 | the comic page lands at index 1 when there is a text page and at index 0 otherwise; the text pages keep their order around it; one page is added |
| BookParser.Renumber | client/src/lib/book-parser.ts:85-87 | page `i` gets id `i + 1` and nothing else about it changes |
| BookParser.LayoutNumbering | client/src/lib/book-parser.ts:63-87 | the book has one page more than it has text pages, its ids are 1..N in order, and exactly one page is the comic page (image `/images/comic-panel-1.png`, empty caption and dialogue), at index 1, or at index 0 when there is no text |
| BookParser.LayoutTextPages | client/src/lib/book-parser.ts:38-59 | every text page keeps its group's place around the comic page, shows its group trimmed, has kind text and chapter "Chapter I", no image, and non-empty content |
| BookParser.LayoutTextPage | client/src/lib/book-parser.ts:63-87 | the page at a text page's place in the book shows its group trimmed and is numbered by its position |
| BookParser.SplicedPagesAreLayout | client/src/lib/book-parser.ts:78-87 | splicing the comic page in and renumbering gives exactly the layout of the packing |
| BookParser.NoParagraphsOnlyComic | client/src/lib/book-parser.ts:78-82 | without paragraphs the book is the comic page alone, numbered 1 |
| BookParser.EmptyTextOnlyComic | client/src/lib/book-parser.ts:21-95 | the empty text gives one chapter "Chapter I" holding only the comic page |
| BookParser.ParsedShape | client/src/lib/book-parser.ts:78-95 | the parsed book is one chapter, id 1, titled "Chapter I", whose pages are numbered 1..N with exactly one comic page, the second, or the only one when there is no text |
| BookParser.GroupsEndWithParagraph | client/src/lib/book-parser.ts:31-59 | in the packing of a text's paragraphs every group is non-empty and ends with a non-blank paragraph |
| BookParser.ParsedTextPagesHaveContent | client/src/lib/book-parser.ts:21-95 | every text page of the parsed book has non-empty content |
| BookParser.ParseBookContent | client/src/lib/book-parser.ts:21-95 | the result is one chapter, with id 1 and title "Chapter I", holding the layout of the greedy packing of the text's paragraphs; its pages are numbered 1..N and exactly one of them, the second (the first when there is no text), is the comic page |
| Reader.NextPage | client/src/pages/Home.tsx:28-35 | "next" moves iff there is a chapter and the page is a number below the first chapter's page count, and then moves by exactly one |
| Reader.PrevPage | client/src/pages/Home.tsx:37-42 | "previous" moves iff the page is a number above 1, and then moves back by exactly one |
| Reader.NavigationStaysInRange | client/src/pages/Home.tsx:28-42 | from a page between 1 and the page count, any sequence of next and previous stays between 1 and the page count |
| Reader.NaNPageIsStuck | client/src/pages/Home.tsx:28-42 | a `NaN` page never moves |
| Reader.NextPrevInverse | client/src/pages/Home.tsx:28-42 | "previous" undoes a "next" that moved, and "next" undoes a "previous" that moved, inside the book |
| Reader.BookmarkSurvivesReload | client/src/pages/Home.tsx:16-26 | the value the bookmark button saves is non-empty, is read back on load as the same page, and makes the button show as pressed |
| Reader.ReaderSession.ShownAsBookmarked | client/src/pages/Home.tsx:124 | the button shows as pressed only when the session is bookmarked and the saved entry reads back as the current page, and it does whenever the entry is exactly `currentPage.toString()` with the flag set |
| Reader.ReaderSession.constructor | client/src/pages/Home.tsx:11-13 | a session starts with no chapters, on page 1, not bookmarked, with storage as found |
| Reader.ReaderSession.LoadOnStart | client/src/pages/Home.tsx:16-26 | the chapters are the parsed book; a non-empty saved entry sets the page to its `parseInt` and marks the session bookmarked; otherwise page and flag stay; storage is unchanged |
| Reader.ReaderSession.RestoreSavedPage | client/src/pages/Home.tsx:20-25 | the restore step alone: a non-empty saved entry sets the page to its `parseInt` and sets the flag; chapters and storage are unchanged |
| Reader.ReaderSession.HandleNext | client/src/pages/Home.tsx:28-35 | the page becomes `NextPage` of the old page; chapters, the flag and storage are unchanged |
| Reader.ReaderSession.HandlePrev | client/src/pages/Home.tsx:37-42 | the page becomes `PrevPage` of the old page; chapters, the flag and storage are unchanged |
| Reader.ReaderSession.HandleBookmark | client/src/pages/Home.tsx:44-54 | the displayed flag (line 124) flips. When it was shown, the entry is removed and the flag cleared; otherwise the entry is overwritten with the current page and the flag set. The page and chapters are unchanged |
| Bookmarks.Decode | tests/bookmarks.test.ts:34-43 | loading gives the stored array, and the empty list when the record is missing, unparseable or not an array |
| Bookmarks.WithoutId | tests/bookmarks.test.ts:58 | keeps exactly the bookmarks whose id differs, in their order and as many times as they occur, and drops every one with that id; an absent id leaves the list unchanged |
| Bookmarks.OnPage | tests/bookmarks.test.ts:65 | true iff some bookmark has the page id |
| Bookmarks.CountOnPage | tests/bookmarks.test.ts:219-220 | the number of bookmarks on a page is positive iff the page is bookmarked |
| Bookmarks.AddThenRemove | tests/bookmarks.test.ts:49-61 | removing the id of a bookmark just prepended with a new id gives back the earlier list |
| Bookmarks.RemoveOnlyBookmarkOfPage | tests/bookmarks.test.ts:144-153 | after removing the id of the only bookmark of a page, the page is no longer bookmarked |
| Bookmarks.AddUnlessOnPage | tests/bookmarks.test.ts:209-213 | the migrated bookmark is prepended iff its page had none; afterwards the page is bookmarked |
| Bookmarks.MigrationLeavesOneOnPage | tests/bookmarks.test.ts:197-221 | with at most one bookmark on the page before, the guarded migration leaves exactly one |
| Bookmarks.MigrationIdempotent | tests/bookmarks.test.ts:205-215 | running the guarded migration again for the same page changes nothing |
| Bookmarks.BookmarkStore.constructor | tests/bookmarks.test.ts:68-71 | the store holds the given record and legacy entry |
| Bookmarks.BookmarkStore.LoadBookmarks | tests/bookmarks.test.ts:34-43 | loading gives the stored array, and the empty list when the record is missing, unparseable or not an array |
| Bookmarks.BookmarkStore.IsPageBookmarked | tests/bookmarks.test.ts:63-66 | true iff a loaded bookmark has the page id |
| Bookmarks.BookmarkStore.SaveBookmarks | tests/bookmarks.test.ts:45-47 | loading after saving gives back the same bookmarks, every field included; the legacy entry is untouched |
| Bookmarks.BookmarkStore.AddBookmark | tests/bookmarks.test.ts:49-54 | returns and stores the new bookmark followed by the earlier ones in their order |
| Bookmarks.BookmarkStore.RemoveBookmark | tests/bookmarks.test.ts:56-61 | returns and stores the earlier bookmarks whose id differs, in their order |
| Bookmarks.BookmarkStore.MigrateLegacy | tests/bookmarks.test.ts:172-187 | a non-empty legacy entry that reads as a number becomes a bookmark on that page in chapter 1, "CHAPTER I", put first, and the entry is deleted; otherwise nothing changes |
| Bookmarks.BookmarkStore.MigrateLegacyWithoutDuplicate | tests/bookmarks.test.ts:205-215 | a non-empty legacy entry is always deleted, and its page gets a bookmark unless it already has one; a missing or empty entry changes nothing |
| Assets.IsAbsoluteUrl | client/src/lib/assets.ts:5 | a URL used as it is has at least two characters; a path rooted at a single "/" is never one, and nor is a path starting with any character other than "/", "h" or "d" |
| Assets.NormalizeBase | client/src/lib/assets.ts:9 | the base ends with "/", it extends the given base by at most one character, and it is the given base iff that already ends with "/" |
| Assets.NormalizePath | client/src/lib/assets.ts:10 | the path loses one character, and only when it starts with "/" |
| Assets.WithBasePath | client/src/lib/assets.ts:1-12 | a missing or empty path gives ""; an absolute or `data:` URL is returned unchanged; any other path gives the normalised base followed by the normalised path |
| Assets.OneSlashAtJoin | client/src/lib/assets.ts:8-11 | where a relative path meets the base, the base part ends with "/" and the path part does not start with one, so the join adds no "/" of its own; a base that already ends with "//", such as `"/app//"`, keeps both |
| Assets.RootedPathUnderDefaultBase | client/src/lib/assets.ts:8-11 | under the base "/", or with no base, a path starting with "/" maps to itself |
| Assets.RelativePathUnderDefaultBase | client/src/lib/assets.ts:8-11 | with no base, a relative path gains a leading "/" |

## Left out

- Lengths are counted in Unicode characters. JavaScript's `length` counts UTF-16 code units. A text with characters outside the Basic Multilingual Plane could therefore be paginated differently.
- Reader.ReaderSession.RestoreSavedPage: the model reads the saved entry with base-10 `parseInt`. The source's `parseInt` has no radix and would read a `0x` prefix as hexadecimal. The reader itself never writes such a value.
- Reader.ReaderSession.LoadOnStart: it reads the saved entry through `RestoreSavedPage`, so the same difference applies.
- JsNumber.ParseInt: the result is an exact integer. JavaScript numbers are doubles, so integers beyond 2^53 lose precision and `-0` is a value of its own.
- Bookmarks.BookmarkStore.MigrateLegacyWithoutDuplicate: when the legacy entry reads as `NaN`, the source still prepends a bookmark with page `NaN`. The model only deletes the entry, because page ids are integers here. In the source the guard `b.pageId === pageId` never holds for `NaN`, and `JSON.stringify` stores that page id as `null`. So every guarded migration of such an entry prepends one more bookmark, and `MigrationLeavesOneOnPage`'s "exactly one" does not hold in the source for it.
- Bookmarks.Decode: a stored array is taken to hold well-formed bookmarks. The source returns any array as it is, whatever its elements are.
- `JSON.stringify`/`JSON.parse` are not modelled as text. The record is modelled by what parsing it yields.
- The bookmark id and creation time come from `Date.now`, `Math.random` and the clock. They are parameters here.
- Bookmark helpers:
  - Only the bookmark logic that `tests/bookmarks.test.ts` writes out is modelled.
  - Its progress-persistence checks (lines 224-249) only write and read local storage directly and hold no logic.
- `window.scrollTo`, React's scheduling of state updates, the cover screen (`showCover`, `handleStartReading`) and the choice of the page to render are not modelled. They are side effects or presentation.
- Not modelled, because they are presentation, build or data:
  - the UI components;
  - `client/src/main.tsx`;
  - the scripts under `scripts/`;
  - the novel text in `client/src/lib/book-content.ts`;
  - the illustration data and its tests;
  - the end-to-end tests.

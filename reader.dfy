/**
 * The reading session of the `Home` page: which page is shown, whether the
 * page is bookmarked, and the single saved-page entry kept in local storage
 * under `BookmarkKey`. A page number is a JavaScript number that is an
 * integer or `NaN` (`None`), since it may come from `parseInt` of whatever
 * the storage holds.
 */
module Reader {
  import opened Wrappers
  import opened JsNumber
  import opened BookParser

  /** The storage key of the saved page. */
  const BookmarkKey := "enchanted-castle-page"

  datatype Nav = Next | Prev

  /**
   * `handleNext`: one page forward, unless there is no chapter or the page is
   * already the last one of the first chapter (a `NaN` page never moves).
   */
  function NextPage(chapters: seq<Chapter>, current: Option<int>): (r: Option<int>)
    ensures r != current <==> |chapters| > 0 && current.Some? && current.value < |chapters[0].pages|
    ensures r != current ==> r == Some(current.value + 1)
  {
    if |chapters| == 0 then current
    else if current.Some? && current.value < |chapters[0].pages| then Some(current.value + 1)
    else current
  }

  /** `handlePrev`: one page back, unless the page is 1 or lower (or `NaN`). */
  function PrevPage(current: Option<int>): (r: Option<int>)
    ensures r != current <==> current.Some? && current.value > 1
    ensures r != current ==> r == Some(current.value - 1)
  {
    if current.Some? && current.value > 1 then Some(current.value - 1) else current
  }

  /** The page after a sequence of button presses. */
  function Navigate(chapters: seq<Chapter>, current: Option<int>, navs: seq<Nav>): Option<int>
    decreases |navs|
  {
    if navs == [] then current
    else
      var next := match navs[0] case Next => NextPage(chapters, current) case Prev => PrevPage(current);
      Navigate(chapters, next, navs[1..])
  }

  /** Starting on a page of the book, no sequence of presses leaves the book. */
  lemma {:induction false} NavigationStaysInRange(chapters: seq<Chapter>, current: int, navs: seq<Nav>)
    requires |chapters| > 0 && 1 <= current <= |chapters[0].pages|
    ensures var r := Navigate(chapters, Some(current), navs); r.Some? && 1 <= r.value <= |chapters[0].pages|
    decreases |navs|
  {
    if navs != [] {
      var next := match navs[0] case Next => NextPage(chapters, Some(current)) case Prev => PrevPage(Some(current));
      NavigationStaysInRange(chapters, next.value, navs[1..]);
    }
  }

  /** A `NaN` page is stuck: no press changes it. */
  lemma {:induction false} NaNPageIsStuck(chapters: seq<Chapter>, navs: seq<Nav>)
    ensures Navigate(chapters, None, navs) == None
    decreases |navs|
  {
    if navs != [] {
      NaNPageIsStuck(chapters, navs[1..]);
    }
  }

  /** "Previous" undoes a "next" that moved, and "next" undoes a "previous" that moved inside the book. */
  lemma {:induction false} NextPrevInverse(chapters: seq<Chapter>, current: int)
    requires |chapters| > 0 && 1 <= current <= |chapters[0].pages|
    ensures NextPage(chapters, Some(current)) != Some(current) ==> PrevPage(NextPage(chapters, Some(current))) == Some(current)
    ensures PrevPage(Some(current)) != Some(current) ==> NextPage(chapters, PrevPage(Some(current))) == Some(current)
  {
  }

  /** The saved entry names a page to restore: it is present and not the empty string (which is falsy). */
  predicate HasSavedPage(saved: Option<string>)
  {
    saved.Some? && saved.value != ""
  }

  /**
   * The load effect's restore step took the session from page `before` and
   * flag `wasBookmarked` to page `after` and flag `isBookmarked`: a non-empty
   * saved entry gives its `parseInt` and sets the flag; otherwise both stay.
   */
  predicate Restored(saved: Option<string>, before: Option<int>, wasBookmarked: bool, after: Option<int>, isBookmarked: bool)
  {
    if HasSavedPage(saved) then after == ParseInt(saved.value) && isBookmarked
    else after == before && isBookmarked == wasBookmarked
  }

  /** The bookmark button shows as pressed: the session is bookmarked and the entry holds this page. */
  predicate Shown(isBookmarked: bool, saved: Option<string>, current: Option<int>)
  {
    isBookmarked && saved == Some(NumberToString(current))
  }

  /**
   * A page saved by the bookmark button is restored on the next load: the
   * entry is non-empty, reads back as the same page, and shows as bookmarked.
   */
  lemma {:induction false} BookmarkSurvivesReload(current: Option<int>)
    ensures HasSavedPage(Some(NumberToString(current)))
    ensures ParseInt(NumberToString(current)) == current
    ensures Shown(true, Some(NumberToString(current)), ParseInt(NumberToString(current)))
  {
    ParseNumberToString(current);
  }

  /** The state of the `Home` page, with the saved-page entry of local storage. */
  class ReaderSession {
    var chapters: seq<Chapter>
    var currentPage: Option<int>
    var isBookmarked: bool
    /** The value under `BookmarkKey`, `None` when the key is absent. */
    var saved: Option<string>

    /** The initial state: no chapters yet, page 1, not bookmarked; storage as found. */
    constructor(storage: Option<string>)
      ensures chapters == [] && currentPage == Some(1) && !isBookmarked && saved == storage
    {
      chapters := [];
      currentPage := Some(1);
      isBookmarked := false;
      saved := storage;
    }

    /** `isBookmarked && localStorage.getItem(key) === currentPage.toString()`, the flag the controls show. */
    function ShownAsBookmarked(): (r: bool)
      reads this
      ensures r ==> isBookmarked && saved.Some? && ParseInt(saved.value) == currentPage
      ensures isBookmarked && saved == Some(NumberToString(currentPage)) ==> r
    {
      ParseNumberToString(currentPage);
      Shown(isBookmarked, saved, currentPage)
    }

    /**
     * The load effect: parse the book and restore the saved page, if any,
     * marking the session bookmarked. The two steps touch different fields,
     * so their order does not matter. Storage is only read.
     */
    method LoadOnStart(rawText: string) returns (ghost groups: seq<seq<string>>)
      modifies this
      ensures ParsedFrom(chapters, rawText, groups)
      ensures saved == old(saved)
      ensures Restored(saved, old(currentPage), old(isBookmarked), currentPage, isBookmarked)
    {
      RestoreSavedPage();
      var parsed;
      parsed, groups := ParseBookContent(rawText);
      chapters := parsed;
    }

    /** The second half of the load effect: `if (savedPage) { ... }`. */
    method RestoreSavedPage()
      modifies this
      ensures chapters == old(chapters) && saved == old(saved)
      ensures Restored(saved, old(currentPage), old(isBookmarked), currentPage, isBookmarked)
    {
      var savedPage := saved;
      if savedPage.Some? && savedPage.value != "" {
        currentPage := ParseInt(savedPage.value);
        isBookmarked := true;
      }
    }

    /** `handleNext`; storage and the bookmark flag are untouched. */
    method HandleNext()
      modifies this
      ensures currentPage == NextPage(chapters, old(currentPage))
      ensures chapters == old(chapters) && isBookmarked == old(isBookmarked) && saved == old(saved)
    {
      if |chapters| == 0 {
        return;
      }
      var totalPages := |chapters[0].pages|;
      if currentPage.Some? && currentPage.value < totalPages {
        currentPage := Some(currentPage.value + 1);
      }
    }

    /** `handlePrev`; storage and the bookmark flag are untouched. */
    method HandlePrev()
      modifies this
      ensures currentPage == PrevPage(old(currentPage))
      ensures chapters == old(chapters) && isBookmarked == old(isBookmarked) && saved == old(saved)
    {
      if currentPage.Some? && currentPage.value > 1 {
        currentPage := Some(currentPage.value - 1);
      }
    }

    /**
     * `handleBookmark`: when the button shows as pressed, the entry is
     * removed; otherwise the current page is written over whatever the entry
     * held. Either way the shown flag flips and the page stays.
     */
    method HandleBookmark()
      modifies this
      ensures ShownAsBookmarked() == !old(ShownAsBookmarked())
      ensures isBookmarked == !old(ShownAsBookmarked())
      ensures saved == if old(ShownAsBookmarked()) then None else Some(NumberToString(currentPage))
      ensures currentPage == old(currentPage) && chapters == old(chapters)
    {
      if isBookmarked && saved == Some(NumberToString(currentPage)) {
        saved := None;
        isBookmarked := false;
      } else {
        saved := Some(NumberToString(currentPage));
        isBookmarked := true;
      }
    }
  }
}

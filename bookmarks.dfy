/**
 * The bookmark list the reader keeps in local storage under
 * `BookmarksKey`, and the migration of the older single-page entry kept under
 * `LegacyKey`. The stored record is modelled by what `JSON.parse` makes of
 * it rather than by its text.
 */
module Bookmarks {
  import opened Wrappers
  import opened Seqs
  import opened JsNumber

  const BookmarksKey := "enchanted-castle-bookmarks"
  const LegacyKey := "enchanted-castle-page"
  /** The chapter a migrated bookmark is filed under. */
  const MigratedChapterId := 1
  const MigratedChapterTitle := "CHAPTER I"

  datatype Bookmark = Bookmark(
    id: string,
    pageId: int,
    chapterId: int,
    chapterTitle: string,
    excerpt: string,
    createdAt: string)

  /**
   * The bookmarks entry of local storage: missing (or the falsy empty
   * string), text `JSON.parse` rejects, a JSON value that is not an array,
   * or an array of bookmarks.
   */
  datatype Record = Absent | Unparseable | NotAnArray | Stored(items: seq<Bookmark>)

  /** `loadBookmarks`: the stored array, or the empty list whenever there is none to read. */
  function Decode(record: Record): (bs: seq<Bookmark>)
    ensures record.Stored? ==> bs == record.items
    ensures !record.Stored? ==> bs == []
  {
    match record
    case Stored(items) => items
    case _ => []
  }

  /** `bookmarks.filter(b => b.id !== id)`. */
  function WithoutId(bs: seq<Bookmark>, id: string): (r: seq<Bookmark>)
    ensures forall b :: b in r <==> b in bs && b.id != id
    ensures IsSubsequence(r, bs)
    ensures forall b :: multiset(r)[b] == if b.id != id then multiset(bs)[b] else 0
    ensures (forall i :: 0 <= i < |bs| ==> bs[i].id != id) ==> r == bs
  {
    FilterMultiset((b: Bookmark) => b.id != id, bs);
    Filter((b: Bookmark) => b.id != id, bs)
  }

  /** `bookmarks.some(b => b.pageId === pageId)`. */
  function OnPage(bs: seq<Bookmark>, pageId: int): (r: bool)
    ensures r <==> exists i :: 0 <= i < |bs| && bs[i].pageId == pageId
    decreases |bs|
  {
    if bs == [] then false
    else if bs[0].pageId == pageId then true
    else
      var r := OnPage(bs[1..], pageId);
      assert forall i :: 1 <= i < |bs| ==> bs[i] == bs[1..][i - 1];
      r
  }

  /** How many bookmarks point at `pageId` (`bookmarks.filter(b => b.pageId === pageId).length`). */
  function CountOnPage(bs: seq<Bookmark>, pageId: int): (n: nat)
    ensures n <= |bs|
    ensures n > 0 <==> OnPage(bs, pageId)
  {
    var r := Filter((b: Bookmark) => b.pageId == pageId, bs);
    assert forall i :: 0 <= i < |bs| && bs[i].pageId == pageId ==> bs[i] in r;
    assert |r| > 0 ==> r[0] in bs;
    |r|
  }

  /** Adding a bookmark whose id is new and then removing that id gives back the list. */
  lemma {:induction false} AddThenRemove(bs: seq<Bookmark>, b: Bookmark)
    requires forall c :: c in bs ==> c.id != b.id
    ensures WithoutId([b] + bs, b.id) == bs
  {
    var f := (c: Bookmark) => c.id != b.id;
    assert ([b] + bs)[1..] == bs;
    assert Filter(f, bs) == bs;
  }

  /** After removing the only bookmark of a page, the page is no longer bookmarked. */
  lemma {:induction false} RemoveOnlyBookmarkOfPage(bs: seq<Bookmark>, id: string, pageId: int)
    requires forall b :: b in bs && b.pageId == pageId ==> b.id == id
    ensures !OnPage(WithoutId(bs, id), pageId)
  {
    var r := WithoutId(bs, id);
    forall i | 0 <= i < |r|
      ensures r[i].pageId != pageId
    {
      assert r[i] in r;
    }
  }

  /** The bookmark the migration files for a legacy page. */
  function MigratedBookmark(id: string, pageId: int, excerpt: string, createdAt: string): Bookmark
  {
    Bookmark(id, pageId, MigratedChapterId, MigratedChapterTitle, excerpt, createdAt)
  }

  /** The guarded migration's list: `b` is prepended unless its page already has a bookmark. */
  function AddUnlessOnPage(bs: seq<Bookmark>, b: Bookmark): (r: seq<Bookmark>)
    ensures OnPage(r, b.pageId)
    ensures r == bs || r == [b] + bs
    ensures r == bs <==> OnPage(bs, b.pageId)
  {
    if OnPage(bs, b.pageId) then bs else
      assert ([b] + bs)[0] == b;
      [b] + bs
  }

  /**
   * With at most one bookmark on the page beforehand, the guarded migration
   * leaves exactly one, so the page is never bookmarked twice.
   */
  lemma {:induction false} MigrationLeavesOneOnPage(bs: seq<Bookmark>, b: Bookmark)
    requires CountOnPage(bs, b.pageId) <= 1
    ensures CountOnPage(AddUnlessOnPage(bs, b), b.pageId) == 1
  {
    var onPage := (c: Bookmark) => c.pageId == b.pageId;
    if !OnPage(bs, b.pageId) {
      assert ([b] + bs)[1..] == bs;
      assert Filter(onPage, [b] + bs) == [b] + Filter(onPage, bs);
    }
  }

  /** Running the guarded migration a second time for the same page changes nothing. */
  lemma {:induction false} MigrationIdempotent(bs: seq<Bookmark>, b: Bookmark, again: Bookmark)
    requires again.pageId == b.pageId
    ensures AddUnlessOnPage(AddUnlessOnPage(bs, b), again) == AddUnlessOnPage(bs, b)
  {
  }

  /** Local storage as far as bookmarks go: the bookmarks record and the legacy page entry. */
  class BookmarkStore {
    var record: Record
    /** The value under `LegacyKey`, `None` when the key is absent. */
    var legacy: Option<string>

    constructor(record0: Record, legacy0: Option<string>)
      ensures record == record0 && legacy == legacy0
    {
      record := record0;
      legacy := legacy0;
    }

    /** `loadBookmarks()`. */
    function LoadBookmarks(): (bs: seq<Bookmark>)
      reads this
      ensures record.Stored? ==> bs == record.items
      ensures !record.Stored? ==> bs == []
    {
      Decode(record)
    }

    /** `isPageBookmarked(pageId)`. */
    function IsPageBookmarked(pageId: int): (r: bool)
      reads this
      ensures r <==> exists b :: b in LoadBookmarks() && b.pageId == pageId
    {
      var bs := LoadBookmarks();
      assert forall b :: b in bs ==> exists i :: 0 <= i < |bs| && bs[i] == b;
      OnPage(bs, pageId)
    }

    /** `saveBookmarks(bs)`: loading afterwards gives back `bs`, every field included. */
    method SaveBookmarks(bs: seq<Bookmark>)
      modifies this
      ensures record == Stored(bs) && legacy == old(legacy)
      ensures LoadBookmarks() == bs
    {
      record := Stored(bs);
    }

    /** `addBookmark(b)`: the new bookmark first, then the earlier ones in their order. */
    method AddBookmark(b: Bookmark) returns (updated: seq<Bookmark>)
      modifies this
      ensures updated == [b] + old(LoadBookmarks())
      ensures record == Stored(updated) && legacy == old(legacy)
    {
      var existing := LoadBookmarks();
      updated := [b] + existing;
      SaveBookmarks(updated);
    }

    /** `removeBookmark(id)`: the bookmarks with another id, in their order. */
    method RemoveBookmark(id: string) returns (updated: seq<Bookmark>)
      modifies this
      ensures updated == WithoutId(old(LoadBookmarks()), id)
      ensures record == Stored(updated) && legacy == old(legacy)
    {
      var existing := LoadBookmarks();
      updated := WithoutId(existing, id);
      SaveBookmarks(updated);
    }

    /**
     * The plain migration: a non-empty legacy entry that reads as a page
     * number becomes a bookmark on that page and the entry is deleted; an
     * entry that reads as `NaN` is left alone. `id` and `createdAt` stand for
     * the generated id and the current time.
     */
    method MigrateLegacy(id: string, createdAt: string)
      modifies this
      ensures var entry := old(legacy);
        if entry.Some? && entry.value != "" && ParseInt(entry.value).Some? then
          var b := MigratedBookmark(id, ParseInt(entry.value).value, "Migrated bookmark", createdAt);
          record == Stored([b] + old(LoadBookmarks())) && legacy == None
        else
          record == old(record) && legacy == old(legacy)
    {
      var legacyPage := legacy;
      if legacyPage.Some? && legacyPage.value != "" {
        var pageId := ParseInt(legacyPage.value);
        if pageId.Some? {
          var migrated := MigratedBookmark(id, pageId.value, "Migrated bookmark", createdAt);
          var _ := AddBookmark(migrated);
          legacy := None;
        }
      }
    }

    /**
     * The migration guarded against duplicates: a non-empty legacy entry
     * becomes a bookmark on its page unless that page already has one, and
     * the entry is deleted either way.
     */
    method MigrateLegacyWithoutDuplicate(id: string, createdAt: string)
      modifies this
      ensures var entry := old(legacy);
        if entry.Some? && entry.value != "" then
          legacy == None &&
          if ParseInt(entry.value).Some? then
            var b := MigratedBookmark(id, ParseInt(entry.value).value, "Migrated", createdAt);
            LoadBookmarks() == AddUnlessOnPage(old(LoadBookmarks()), b)
          else
            record == old(record)
        else
          record == old(record) && legacy == old(legacy)
    {
      var legacyPage := legacy;
      if legacyPage.Some? && legacyPage.value != "" {
        var pageId := ParseInt(legacyPage.value);
        if pageId.Some? {
          var alreadyBookmarked := IsPageBookmarked(pageId.value);
          if !alreadyBookmarked {
            var _ := AddBookmark(MigratedBookmark(id, pageId.value, "Migrated", createdAt));
          }
        }
        legacy := None;
      }
    }
  }
}

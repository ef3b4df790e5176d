/**
 * The book paginator: turns the raw text of the novel into one chapter of
 * pages. Paragraphs are packed greedily into text pages of about
 * `CharsPerPage` characters, one comic page is spliced in after the first
 * text page, and the pages are numbered 1..N in reading order.
 */
module BookParser {
  import opened Wrappers
  import opened Seqs
  import opened JsString

  /** The packing threshold, in characters of the page buffer. */
  const CharsPerPage := 800
  /** The one chapter the parser emits, and the `chapter` field of every page. */
  const ChapterTitle := "Chapter I"
  /** The image of the injected comic page. */
  const ComicImage := "/images/comic-panel-1.png"

  datatype PageKind = Text | Comic

  datatype BookPage = BookPage(
    id: int,
    content: string,
    chapter: string,
    kind: PageKind,
    imageSrc: Option<string>,
    caption: Option<string>,
    dialogue: Option<seq<string>>)

  datatype Chapter = Chapter(id: int, title: string, pages: seq<BookPage>)

  /** A text page as the paginator pushes it: no image, caption or dialogue. */
  function TextPage(id: int, content: string): BookPage
  {
    BookPage(id, content, ChapterTitle, Text, None, None, None)
  }

  /** The hard-coded comic page, with an empty caption and an empty dialogue. */
  function ComicPage(id: int): BookPage
  {
    BookPage(id, "", ChapterTitle, Comic, Some(ComicImage), Some(""), Some([]))
  }

  /**
   * The paragraphs the paginator packs: line endings normalised, the text
   * trimmed and split at every "\n\n", and pieces that trim to nothing dropped.
   */
  function Paragraphs(text: string): seq<string>
  {
    Filter((p: string) => |Trim(p)| > 0, Split(Trim(ReplaceCrlf(text)), "\n\n"))
  }

  /**
   * The paragraphs are exactly the non-blank pieces, in their order, and no
   * paragraph holds a paragraph break.
   */
  lemma {:induction false} ParagraphsAreNonBlankPieces(text: string)
    ensures var pieces := Split(Trim(ReplaceCrlf(text)), "\n\n");
      (forall p :: p in Paragraphs(text) <==> p in pieces && !Blank(p))
      && IsSubsequence(Paragraphs(text), pieces)
    ensures forall p :: p in Paragraphs(text) ==> !Contains(p, "\n\n")
  {
    var clean := Trim(ReplaceCrlf(text));
    var pieces := Split(clean, "\n\n");
    var keep := (p: string) => |Trim(p)| > 0;
    assert Paragraphs(text) == Filter(keep, pieces);
    forall p
      ensures p in Paragraphs(text) <==> p in pieces && !Blank(p)
    {
      TrimSpec(p);
    }
    SplitPiecesAvoidSeparator(clean, "\n\n");
  }

  /**
   * A non-blank piece occurs among the paragraphs as often as among the
   * pieces, and a blank one not at all.
   */
  lemma {:induction false} ParagraphsKeepRepetitions(text: string)
    ensures forall p ::
      multiset(Paragraphs(text))[p]
        == (if Blank(p) then 0 else multiset(Split(Trim(ReplaceCrlf(text)), "\n\n"))[p])
  {
    var pieces := Split(Trim(ReplaceCrlf(text)), "\n\n");
    assert Paragraphs(text) == Filter((p: string) => |Trim(p)| > 0, pieces);
    NonBlankKeepsRepetitions(pieces);
  }

  /** Dropping the pieces that trim to nothing keeps every other piece as often as it occurs. */
  lemma {:induction false} NonBlankKeepsRepetitions(pieces: seq<string>)
    ensures forall p ::
      multiset(Filter((p: string) => |Trim(p)| > 0, pieces))[p]
        == (if Blank(p) then 0 else multiset(pieces)[p])
  {
    var keep := (p: string) => |Trim(p)| > 0;
    FilterMultiset(keep, pieces);
    forall p
      ensures multiset(Filter(keep, pieces))[p] == (if Blank(p) then 0 else multiset(pieces)[p])
    {
      TrimSpec(p);
    }
  }

  /** No paragraph is blank. */
  lemma {:induction false} ParagraphsNotBlank(text: string)
    ensures forall p :: p in Paragraphs(text) ==> !Blank(p)
  {
    ParagraphsAreNonBlankPieces(text);
  }

  /** What the page buffer holds once the paragraphs of `group` were appended. */
  function Buffer(group: seq<string>): string
    decreases |group|
  {
    if group == [] then "" else Buffer(group[..|group| - 1]) + group[|group| - 1] + "\n\n"
  }

  /** While the group was collected no flush happened: each later paragraph fitted the buffer. */
  ghost predicate FitsOnPage(group: seq<string>)
  {
    forall j :: 1 <= j < |group| ==> |Buffer(group[..j])| + |group[j]| <= CharsPerPage
  }

  /**
   * `groups` is the greedy packing of `paragraphs`: the groups, concatenated,
   * are the paragraphs in order; no group is empty; inside a group every
   * paragraph fitted; and each group was closed only because the first
   * paragraph of the next one would have overflowed it.
   */
  ghost predicate IsGreedyPacking(paragraphs: seq<string>, groups: seq<seq<string>>)
  {
    && Flatten(groups) == paragraphs
    && (forall i :: 0 <= i < |groups| ==> groups[i] != [] && FitsOnPage(groups[i]))
    && (forall i :: 0 <= i < |groups| - 1 ==> |Buffer(groups[i])| + |groups[i + 1][0]| > CharsPerPage)
  }

  lemma {:induction false} FitsOnPageSnoc(group: seq<string>, p: string)
    requires FitsOnPage(group)
    requires group == [] || |Buffer(group)| + |p| <= CharsPerPage
    ensures FitsOnPage(group + [p])
  {
    var g := group + [p];
    forall j | 1 <= j < |g| ensures |Buffer(g[..j])| + |g[j]| <= CharsPerPage {
      if j < |group| {
        assert g[..j] == group[..j];
      } else {
        assert g[..j] == group;
      }
    }
  }

  /** A non-blank paragraph makes its page's content non-empty. */
  lemma {:induction false} PageContentNotEmpty(group: seq<string>)
    requires group != [] && !Blank(group[|group| - 1])
    ensures Trim(Buffer(group)) != []
  {
    var p := group[|group| - 1];
    var before := Buffer(group[..|group| - 1]);
    var i :| 0 <= i < |p| && !IsWhitespace(p[i]);
    assert Buffer(group)[|before| + i] == p[i];
    TrimSpec(Buffer(group));
  }

  /** A page collected from two or more paragraphs has at most `CharsPerPage` characters. */
  lemma {:induction false} PageContentBound(group: seq<string>)
    requires |group| >= 2 && FitsOnPage(group)
    ensures |Trim(Buffer(group))| <= CharsPerPage
  {
    var n := |group|;
    var b := Buffer(group);
    assert group[..n - 1][..n - 1] == group[..n - 1];
    assert |Buffer(group[..n - 1])| + |group[n - 1]| <= CharsPerPage;
    assert b[|b| - 2..] == "\n\n";
    TrimDropsBlankTail(b, 2);
  }

  /** Every paragraph on a page shared with another paragraph has at most `CharsPerPage` characters. */
  lemma {:induction false} SharedPageParagraphsFit(group: seq<string>)
    requires FitsOnPage(group)
    ensures |group| >= 2 ==> forall j :: 0 <= j < |group| ==> |group[j]| <= CharsPerPage
  {
    if |group| >= 2 {
      assert group[..1][..0] == [];
      assert |Buffer(group[..1])| == |group[0]| + 2;
    }
  }

  /** A paragraph longer than `CharsPerPage` always gets a text page of its own. */
  lemma {:induction false} OversizedParagraphAlone(paragraphs: seq<string>, groups: seq<seq<string>>, i: int, p: string)
    requires IsGreedyPacking(paragraphs, groups)
    requires 0 <= i < |groups| && p in groups[i] && |p| > CharsPerPage
    ensures groups[i] == [p]
  {
    SharedPageParagraphsFit(groups[i]);
  }

  /** The greedy packing of a paragraph list is unique: the pages are determined by the text. */
  lemma {:induction false} GreedyPackingIsUnique(paragraphs: seq<string>, g1: seq<seq<string>>, g2: seq<seq<string>>)
    requires IsGreedyPacking(paragraphs, g1) && IsGreedyPacking(paragraphs, g2)
    ensures g1 == g2
    decreases |paragraphs|
  {
    if g1 == [] || g2 == [] {
    } else {
      FirstGroupNotShorter(paragraphs, g1, g2);
      FirstGroupNotShorter(paragraphs, g2, g1);
      var a := g1[0];
      assert a == g2[0] by {
        assert paragraphs[..|a|] == a;
        assert paragraphs[..|g2[0]|] == g2[0];
      }
      var rest := paragraphs[|a|..];
      assert Flatten(g1[1..]) == rest;
      assert Flatten(g2[1..]) == rest;
      assert IsGreedyPacking(rest, g1[1..]) by {
        forall i | 0 <= i < |g1[1..]| - 1
          ensures |Buffer(g1[1..][i])| + |g1[1..][i + 1][0]| > CharsPerPage
        {
          assert g1[1..][i] == g1[i + 1] && g1[1..][i + 1] == g1[i + 2];
        }
      }
      assert IsGreedyPacking(rest, g2[1..]) by {
        forall i | 0 <= i < |g2[1..]| - 1
          ensures |Buffer(g2[1..][i])| + |g2[1..][i + 1][0]| > CharsPerPage
        {
          assert g2[1..][i] == g2[i + 1] && g2[1..][i + 1] == g2[i + 2];
        }
      }
      GreedyPackingIsUnique(rest, g1[1..], g2[1..]);
      assert g1 == [a] + g1[1..];
      assert g2 == [a] + g2[1..];
    }
  }

  /** A greedy first group that is not everything was closed because the next paragraph overflowed it. */
  lemma {:induction false} FirstGroupClosedByOverflow(paragraphs: seq<string>, groups: seq<seq<string>>)
    requires IsGreedyPacking(paragraphs, groups) && groups != [] && |groups[0]| < |paragraphs|
    ensures |Buffer(groups[0])| + |paragraphs[|groups[0]|]| > CharsPerPage
  {
    var a := groups[0];
    assert paragraphs == a + Flatten(groups[1..]);
    if |groups| > 1 {
      assert Flatten(groups[1..]) == groups[1] + Flatten(groups[2..]);
      assert paragraphs[|a|] == groups[1][0];
    }
  }

  /** Inside a greedy first group, each paragraph after the first fitted the buffer. */
  lemma {:induction false} FirstGroupFitsAt(paragraphs: seq<string>, groups: seq<seq<string>>, j: int)
    requires IsGreedyPacking(paragraphs, groups) && groups != [] && 1 <= j < |groups[0]|
    ensures |Buffer(paragraphs[..j])| + |paragraphs[j]| <= CharsPerPage
  {
    FlattenStartsWithFirst(groups);
    assert groups[0][..j] == paragraphs[..j];
  }

  /** The first greedy group is as long as any other greedy first group. */
  lemma {:induction false} FirstGroupNotShorter(paragraphs: seq<string>, g1: seq<seq<string>>, g2: seq<seq<string>>)
    requires IsGreedyPacking(paragraphs, g1) && IsGreedyPacking(paragraphs, g2)
    requires g1 != [] && g2 != []
    ensures |g1[0]| >= |g2[0]|
  {
    FlattenStartsWithFirst(g1);
    FlattenStartsWithFirst(g2);
    var a, b := g1[0], g2[0];
    if |a| < |b| {
      FirstGroupFitsAt(paragraphs, g2, |a|);
      FirstGroupClosedByOverflow(paragraphs, g1);
    }
  }

  /**
   * The state of the paginating loop after the paragraphs `done`: `groups`
   * were flushed as pages and `group` is in the buffer.
   */
  ghost predicate Packed(done: seq<string>, groups: seq<seq<string>>, group: seq<string>)
  {
    && Flatten(groups) + group == done
    && (forall i :: 0 <= i < |groups| ==> groups[i] != [] && FitsOnPage(groups[i]))
    && FitsOnPage(group)
    && (forall i :: 0 <= i < |groups| - 1 ==> |Buffer(groups[i])| + |groups[i + 1][0]| > CharsPerPage)
    && (|groups| > 0 ==> group != [] && |Buffer(groups[|groups| - 1])| + |group[0]| > CharsPerPage)
  }

  /** The loop step that flushes the buffer before taking paragraph `p`. */
  lemma {:induction false} PackFlush(done: seq<string>, groups: seq<seq<string>>, group: seq<string>, p: string)
    requires Packed(done, groups, group)
    requires group != [] && |Buffer(group)| + |p| > CharsPerPage
    ensures Packed(done + [p], groups + [group], [p])
  {
    FlattenSnoc(groups, group);
    var gs := groups + [group];
    forall i | 0 <= i < |gs|
      ensures gs[i] != [] && FitsOnPage(gs[i])
    {
      if i < |groups| {
        assert gs[i] == groups[i];
      }
    }
    forall i | 0 <= i < |gs| - 1
      ensures |Buffer(gs[i])| + |gs[i + 1][0]| > CharsPerPage
    {
      assert gs[i] == groups[i];
      if i + 1 < |groups| {
        assert gs[i + 1] == groups[i + 1];
      } else {
        assert i == |groups| - 1 && gs[i + 1] == group;
      }
    }
    assert FitsOnPage([p]);
  }

  /** The loop step that adds paragraph `p` to the buffer without a flush. */
  lemma {:induction false} PackAppend(done: seq<string>, groups: seq<seq<string>>, group: seq<string>, p: string)
    requires Packed(done, groups, group)
    requires group == [] || |Buffer(group)| + |p| <= CharsPerPage
    ensures Packed(done + [p], groups, group + [p])
  {
    FitsOnPageSnoc(group, p);
    if group != [] {
      assert (group + [p])[0] == group[0];
    }
  }

  /** After the last paragraph the final flush leaves a greedy packing. */
  lemma {:induction false} PackFinish(paragraphs: seq<string>, groups: seq<seq<string>>, group: seq<string>)
    requires Packed(paragraphs, groups, group)
    ensures group == [] ==> IsGreedyPacking(paragraphs, groups)
    ensures group != [] ==> IsGreedyPacking(paragraphs, groups + [group])
  {
    FlattenSnoc(groups, group);
    var gs := groups + [group];
    assert forall i :: 0 <= i < |groups| ==> gs[i] == groups[i];
  }

  /**
   * The state of the paginating loop after the paragraphs `done`, one step
   * at a time: the groups already flushed as pages and the group in the buffer.
   */
  ghost function PackStep(done: seq<string>): (seq<seq<string>>, seq<string>)
    decreases |done|
  {
    if done == [] then ([], [])
    else
      var (groups, group) := PackStep(done[..|done| - 1]);
      var p := done[|done| - 1];
      if |Buffer(group)| + |p| > CharsPerPage && |Buffer(group)| > 0 then (groups + [group], [p])
      else (groups, group + [p])
  }

  lemma {:induction false} BufferEmpty(group: seq<string>)
    ensures |Buffer(group)| == 0 <==> group == []
  {
  }

  /** Every state of the loop is a greedy packing in progress. */
  lemma {:induction false} PackStepIsPacked(done: seq<string>)
    ensures Packed(done, PackStep(done).0, PackStep(done).1)
    decreases |done|
  {
    if done != [] {
      var prev, p := done[..|done| - 1], done[|done| - 1];
      PackStepIsPacked(prev);
      var (groups, group) := PackStep(prev);
      assert done == prev + [p];
      BufferEmpty(group);
      if |Buffer(group)| + |p| > CharsPerPage && |Buffer(group)| > 0 {
        PackFlush(prev, groups, group, p);
      } else {
        PackAppend(prev, groups, group, p);
      }
    }
  }

  /**
   * `pages` are the text pages made from `groups`, numbered from 1: each
   * holds its group's buffer, trimmed, and that content is never empty.
   */
  ghost predicate PagesOf(pages: seq<BookPage>, groups: seq<seq<string>>)
  {
    && |pages| == |groups|
    && (forall i :: 0 <= i < |pages| ==> pages[i] == TextPage(i + 1, Trim(Buffer(groups[i]))))
    && (forall i :: 0 <= i < |pages| ==> pages[i].content != [])
  }

  lemma {:induction false} PagesOfSnoc(pages: seq<BookPage>, groups: seq<seq<string>>, group: seq<string>)
    requires PagesOf(pages, groups)
    requires group != [] && !Blank(group[|group| - 1])
    ensures PagesOf(pages + [TextPage(|pages| + 1, Trim(Buffer(group)))], groups + [group])
  {
    PageContentNotEmpty(group);
    var ps, gs := pages + [TextPage(|pages| + 1, Trim(Buffer(group)))], groups + [group];
    forall i | 0 <= i < |ps|
      ensures ps[i] == TextPage(i + 1, Trim(Buffer(gs[i]))) && ps[i].content != []
    {
      if i < |pages| {
        assert ps[i] == pages[i] && gs[i] == groups[i];
      }
    }
  }

  /** Pages made from groups are text pages numbered from 1, with content. */
  lemma {:induction false} PagesOfAreTextPages(pages: seq<BookPage>, groups: seq<seq<string>>)
    requires PagesOf(pages, groups)
    ensures forall i :: 0 <= i < |pages| ==> pages[i] == TextPage(i + 1, pages[i].content) && pages[i].content != []
  {
  }

  lemma {:induction false} BufferSnoc(group: seq<string>, p: string)
    ensures Buffer(group + [p]) == Buffer(group) + p + "\n\n"
  {
    assert (group + [p])[..|group|] == group;
  }

  /**
   * The paginating loop of `parseBookContent`: append each paragraph and
   * "\n\n" to a buffer, first flushing the buffer as a trimmed text page when
   * it is non-empty and the paragraph would take it past `CharsPerPage`;
   * finally flush what is left. `groups` records which paragraphs went to
   * which page.
   */
  method Paginate(paragraphs: seq<string>) returns (pages: seq<BookPage>, ghost groups: seq<seq<string>>)
    requires forall p :: p in paragraphs ==> !Blank(p)
    ensures IsGreedyPacking(paragraphs, groups)
    ensures PagesOf(pages, groups)
    ensures forall i :: 0 <= i < |pages| ==> pages[i] == TextPage(i + 1, pages[i].content) && pages[i].content != []
  {
    var currentPageContent := "";
    var pageIndex := 1;
    pages := [];
    groups := [];
    ghost var group: seq<string> := [];
    for k := 0 to |paragraphs|
      invariant (groups, group) == PackStep(paragraphs[..k])
      invariant currentPageContent == Buffer(group)
      invariant group != [] ==> !Blank(group[|group| - 1])
      invariant PagesOf(pages, groups) && pageIndex == |pages| + 1
    {
      var paragraph := paragraphs[k];
      assert paragraphs[..k + 1][..k] == paragraphs[..k];
      BufferEmpty(group);
      if |currentPageContent| + |paragraph| > CharsPerPage && |currentPageContent| > 0 {
        PageContentNotEmpty(group);
        PagesOfSnoc(pages, groups, group);
        pages := pages + [TextPage(pageIndex, Trim(currentPageContent))];
        pageIndex := pageIndex + 1;
        groups := groups + [group];
        currentPageContent := "";
        group := [];
      }
      BufferSnoc(group, paragraph);
      currentPageContent := currentPageContent + paragraph + "\n\n";
      group := group + [paragraph];
    }
    assert paragraphs[..|paragraphs|] == paragraphs;
    PackStepIsPacked(paragraphs);
    PackFinish(paragraphs, groups, group);
    if group != [] {
      PageContentNotEmpty(group);
      PagesOfSnoc(pages, groups, group);
    }
    if |Trim(currentPageContent)| > 0 {
      pages := pages + [TextPage(pageIndex, Trim(currentPageContent))];
      pageIndex := pageIndex + 1;
      groups := groups + [group];
    }
    PagesOfAreTextPages(pages, groups);
  }

  /** Where the comic page lands among `textPages + 1` pages: after the first text page, if any. */
  function ComicIndex(textPages: nat): nat
  {
    if textPages > 0 then 1 else 0
  }

  /** Where the `i`-th text page lands once the comic page is spliced in. */
  function TextIndex(i: nat): nat
  {
    if i == 0 then 0 else i + 1
  }

  /**
   * Inserts the comic page into the text pages: `pages.splice(1, 0, comic)`
   * when there is a text page, `pages.push(comic)` otherwise.
   */
  method SpliceComic(textPages: seq<BookPage>) returns (pages: seq<BookPage>)
    ensures |pages| == |textPages| + 1
    ensures pages[ComicIndex(|textPages|)] == ComicPage(0)
    ensures forall i :: 0 <= i < |textPages| ==> pages[TextIndex(i)] == textPages[i]
  {
    pages := textPages;
    var comicPages := [ComicPage(0)];
    if |pages| > 0 {
      pages := pages[..1] + comicPages + pages[1..];
    } else {
      pages := pages + comicPages;
    }
  }

  /** The re-indexing `forEach`: page `i` (from 0) gets id `i + 1`; nothing else changes. */
  method Renumber(pages: seq<BookPage>) returns (renumbered: seq<BookPage>)
    ensures |renumbered| == |pages|
    ensures forall i :: 0 <= i < |pages| ==> renumbered[i] == pages[i].(id := i + 1)
  {
    renumbered := pages;
    for index := 0 to |renumbered|
      invariant |renumbered| == |pages|
      invariant forall i :: 0 <= i < index ==> renumbered[i] == pages[i].(id := i + 1)
      invariant forall i :: index <= i < |pages| ==> renumbered[i] == pages[i]
    {
      renumbered := renumbered[index := renumbered[index].(id := index + 1)];
    }
  }

  /**
   * The book's pages for a greedy packing `groups`, described page by page:
   * the comic page at `ComicIndex`, the text pages around it in order, each
   * page numbered by its position from 1.
   */
  ghost function Layout(groups: seq<seq<string>>): (pages: seq<BookPage>)
  {
    seq(|groups| + 1, i requires 0 <= i <= |groups| => LayoutPage(groups, i))
  }

  /** Page `i` (from 0) of `Layout(groups)`. */
  ghost function LayoutPage(groups: seq<seq<string>>, i: nat): BookPage
    requires i <= |groups|
  {
    if i == ComicIndex(|groups|) then ComicPage(i + 1)
    else TextPage(i + 1, Trim(Buffer(groups[if i == 0 then 0 else i - 1])))
  }

  /**
   * In a layout every page is numbered by its position, and exactly one page
   * is the comic page: the second one, or the only one when there is no text.
   */
  lemma {:induction false} LayoutNumbering(groups: seq<seq<string>>)
    ensures |Layout(groups)| == |groups| + 1
    ensures forall i :: 0 <= i < |Layout(groups)| ==> Layout(groups)[i].id == i + 1
    ensures forall i :: 0 <= i < |Layout(groups)| ==>
      (Layout(groups)[i].kind == Comic <==> i == ComicIndex(|groups|))
    ensures Layout(groups)[ComicIndex(|groups|)] == ComicPage(ComicIndex(|groups|) + 1)
  {
    var pages := Layout(groups);
    assert forall i :: 0 <= i < |pages| ==> pages[i] == LayoutPage(groups, i);
  }

  /**
   * In a layout the text pages keep the order of their groups around the
   * comic page, each shows its group trimmed, and none is blank when every
   * group ends with a non-blank paragraph.
   */
  lemma {:induction false} LayoutTextPages(groups: seq<seq<string>>)
    requires forall g :: g in groups ==> g != [] && !Blank(g[|g| - 1])
    ensures forall i :: 0 <= i < |groups| ==>
      Layout(groups)[TextIndex(i)] == TextPage(TextIndex(i) + 1, Trim(Buffer(groups[i])))
    ensures forall i :: 0 <= i < |groups| ==> Layout(groups)[TextIndex(i)].content != []
  {
    forall i | 0 <= i < |groups|
      ensures Layout(groups)[TextIndex(i)] == TextPage(TextIndex(i) + 1, Trim(Buffer(groups[i])))
      ensures Layout(groups)[TextIndex(i)].content != []
    {
      LayoutTextPage(groups, i);
      assert groups[i] in groups;
      PageContentNotEmpty(groups[i]);
    }
  }

  /** The page of `Layout(groups)` at `TextIndex(i)` shows group `i` trimmed. */
  lemma {:induction false} LayoutTextPage(groups: seq<seq<string>>, i: nat)
    requires i < |groups|
    ensures Layout(groups)[TextIndex(i)] == TextPage(TextIndex(i) + 1, Trim(Buffer(groups[i])))
  {
    var j := TextIndex(i);
    assert j != ComicIndex(|groups|);
    assert (if j == 0 then 0 else j - 1) == i;
    assert Layout(groups)[j] == LayoutPage(groups, j);
  }

  /** Splicing the comic page into the text pages of `groups` and renumbering gives their layout. */
  lemma {:induction false} SplicedPagesAreLayout(textPages: seq<BookPage>, groups: seq<seq<string>>, spliced: seq<BookPage>, pages: seq<BookPage>)
    requires PagesOf(textPages, groups)
    requires |spliced| == |textPages| + 1 && spliced[ComicIndex(|textPages|)] == ComicPage(0)
    requires forall i :: 0 <= i < |textPages| ==> spliced[TextIndex(i)] == textPages[i]
    requires |pages| == |spliced| && forall i :: 0 <= i < |spliced| ==> pages[i] == spliced[i].(id := i + 1)
    ensures pages == Layout(groups)
  {
    forall i | 0 <= i < |pages|
      ensures pages[i] == LayoutPage(groups, i)
    {
      if i != ComicIndex(|groups|) {
        var j := if i == 0 then 0 else i - 1;
        assert TextIndex(j) == i;
        assert spliced[i] == textPages[j];
      }
    }
  }

  /**
   * `chapters` is what the parser makes of `text`: the single chapter
   * "Chapter I" holding the layout of the greedy packing `groups` of the
   * paragraphs of `text`.
   */
  ghost predicate ParsedFrom(chapters: seq<Chapter>, text: string, groups: seq<seq<string>>)
  {
    IsGreedyPacking(Paragraphs(text), groups) && chapters == [Chapter(1, ChapterTitle, Layout(groups))]
  }

  /** Without paragraphs there is no text page: the layout is the comic page alone. */
  lemma {:induction false} NoParagraphsOnlyComic(groups: seq<seq<string>>)
    requires IsGreedyPacking([], groups)
    ensures Layout(groups) == [ComicPage(1)]
  {
    FlattenStartsWithFirst(groups);
    assert Layout(groups)[0] == LayoutPage(groups, 0);
  }

  /** The empty text gives one chapter holding only the comic page. */
  lemma {:induction false} EmptyTextOnlyComic(chapters: seq<Chapter>, groups: seq<seq<string>>)
    requires ParsedFrom(chapters, "", groups)
    ensures chapters == [Chapter(1, ChapterTitle, [ComicPage(1)])]
  {
    EmptyTextHasNoParagraph();
    NoParagraphsOnlyComic(groups);
  }

  /** The empty text has no paragraph. */
  lemma {:induction false} EmptyTextHasNoParagraph()
    ensures Paragraphs("") == []
  {
    var keep := (p: string) => |Trim(p)| > 0;
    assert ReplaceCrlf("") == "";
    assert LeadingWhitespace("") == 0 && TrailingWhitespace("") == 0;
    assert Trim("") == "";
    assert Split("", "\n\n") == [""];
    assert !keep("");
    assert Filter(keep, [""]) == Filter(keep, [""][1..]);
    assert Paragraphs("") == Filter(keep, [""]);
  }

  /** What the parser returns is one chapter "Chapter I" numbered 1, its pages numbered 1..N, with one comic page. */
  lemma {:induction false} ParsedShape(chapters: seq<Chapter>, groups: seq<seq<string>>)
    requires chapters == [Chapter(1, ChapterTitle, Layout(groups))]
    ensures |chapters| == 1 && chapters[0].id == 1 && chapters[0].title == ChapterTitle
    ensures forall i :: 0 <= i < |chapters[0].pages| ==> chapters[0].pages[i].id == i + 1
    ensures forall i :: 0 <= i < |chapters[0].pages| ==>
      (chapters[0].pages[i].kind == Comic <==> i == ComicIndex(|chapters[0].pages| - 1))
  {
    LayoutNumbering(groups);
  }

  /** In the packing of a text's paragraphs, every group ends with a non-blank paragraph. */
  lemma {:induction false} GroupsEndWithParagraph(text: string, groups: seq<seq<string>>)
    requires IsGreedyPacking(Paragraphs(text), groups)
    ensures forall g :: g in groups ==> g != [] && !Blank(g[|g| - 1])
  {
    ParagraphsNotBlank(text);
    FlattenMember(groups);
    forall g | g in groups
      ensures g != [] && !Blank(g[|g| - 1])
    {
      var i :| 0 <= i < |groups| && groups[i] == g;
      assert g[|g| - 1] in groups[i];
    }
  }

  /** Every text page of the parsed book shows some text: none trims to nothing. */
  lemma {:induction false} ParsedTextPagesHaveContent(chapters: seq<Chapter>, text: string, groups: seq<seq<string>>)
    requires ParsedFrom(chapters, text, groups)
    ensures forall i :: 0 <= i < |chapters[0].pages| && chapters[0].pages[i].kind == Text ==>
      chapters[0].pages[i].content != []
  {
    GroupsEndWithParagraph(text, groups);
    LayoutTextPages(groups);
    LayoutNumbering(groups);
    forall i | 0 <= i < |chapters[0].pages| && chapters[0].pages[i].kind == Text
      ensures chapters[0].pages[i].content != []
    {
      var j := if i == 0 then 0 else i - 1;
      assert TextIndex(j) == i;
    }
  }

  /**
   * `parseBookContent`: paginate the paragraphs of `text`, splice the comic
   * page in at index 1 (index 0 when there is no text page), number the
   * pages 1..N, and wrap them in the single chapter "Chapter I".
   */
  method ParseBookContent(text: string) returns (chapters: seq<Chapter>, ghost groups: seq<seq<string>>)
    ensures ParsedFrom(chapters, text, groups)
    ensures |chapters| == 1 && chapters[0].id == 1 && chapters[0].title == ChapterTitle
    ensures forall i :: 0 <= i < |chapters[0].pages| ==> chapters[0].pages[i].id == i + 1
    ensures forall i :: 0 <= i < |chapters[0].pages| ==>
      (chapters[0].pages[i].kind == Comic <==> i == ComicIndex(|chapters[0].pages| - 1))
  {
    var paragraphs := Paragraphs(text);
    ParagraphsNotBlank(text);
    var textPages;
    textPages, groups := Paginate(paragraphs);
    var spliced := SpliceComic(textPages);
    var pages := Renumber(spliced);
    SplicedPagesAreLayout(textPages, groups, spliced, pages);
    chapters := [Chapter(1, ChapterTitle, pages)];
    ParsedShape(chapters, groups);
  }
}

/** The PyPDF2 splitter that cuts a document at its bookmarks: the outline
    is flattened depth first, entries that cannot be read as a titled page
    are skipped, the entries are sorted stably by page, a sentinel "END" at
    the page count closes the last section, and each section's pages are
    copied one by one into `<title>.pdf`. The outline is a tree of nested
    lists; each leaf carries what unpacking it and resolving its page gives:
    the title and page, or `None` when that raises `ValueError` or `TypeError`. */
module BookmarkSplit {
  import opened Wrappers
  import opened Text
  import opened Sections

  const EndTitle: string := "END"

  /** An outline item: a nested list of items, or a leaf bookmark. */
  datatype Bookmark =
    | Nested(items: seq<Bookmark>)
    | Leaf(resolved: Option<SplitPoint>)

  /** The entries of an outline list, depth first and in list order: a
      nested list contributes its own entries in place, a leaf its resolved
      entry, and an unreadable leaf nothing. */
  function Flatten(items: seq<Bookmark>): seq<SplitPoint>
    decreases items
  {
    if items == [] then [] else FlattenItem(items[0]) + Flatten(items[1..])
  }

  /** What one item contributes. */
  function FlattenItem(item: Bookmark): seq<SplitPoint>
    decreases item
  {
    match item
    case Nested(children) => Flatten(children)
    case Leaf(r) => if r.Some? then [r.value] else []
  }

  /** Flattening a list is flattening its two halves one after the other. */
  lemma {:induction false} FlattenAppend(a: seq<Bookmark>, b: seq<Bookmark>)
    ensures Flatten(a + b) == Flatten(a) + Flatten(b)
    decreases a
  {
    if a == [] {
      assert a + b == b;
    } else {
      assert (a + b)[0] == a[0];
      assert (a + b)[1..] == a[1..] + b;
      FlattenAppend(a[1..], b);
    }
  }

  /** Every readable leaf's entry, and only those, in order: a prefix of the
      items contributes a prefix of the entries. */
  lemma FlattenPrefix(items: seq<Bookmark>, i: nat)
    requires i < |items|
    ensures Flatten(items[..i + 1]) == Flatten(items[..i]) + FlattenItem(items[i])
  {
    assert items[..i + 1] == items[..i] + [items[i]];
    FlattenAppend(items[..i], [items[i]]);
    assert [items[i]][1..] == [];
  }

  /** `extract_bookmarks(bookmarks_list, extracted_data)` of lines 53-66: the
      items in order; a nested list is handled by the recursive call, which
      appends to the same list; a leaf is appended when it can be read. */
  method ExtractBookmarks(items: seq<Bookmark>, extracted: seq<SplitPoint>) returns (result: seq<SplitPoint>)
    ensures result == extracted + Flatten(items)
    decreases items
  {
    result := extracted;
    for i := 0 to |items|
      invariant result == extracted + Flatten(items[..i])
    {
      FlattenPrefix(items, i);
      match items[i]
      case Nested(children) =>
        result := ExtractBookmarks(children, result);
      case Leaf(r) =>
        if r.Some? {
          result := result + [r.value];
        }
    }
    assert items[..|items|] == items;
  }

  /** Inserts `p` after every entry whose page is not larger: the step of a
      stable sort by page. */
  function InsertByPage(sorted: seq<SplitPoint>, p: SplitPoint): seq<SplitPoint>
  {
    if sorted == [] || sorted[|sorted| - 1].startPage <= p.startPage then sorted + [p]
    else InsertByPage(sorted[..|sorted| - 1], p) + [sorted[|sorted| - 1]]
  }

  /** Python's stable `list.sort(key=lambda x: x['start_page'])`. */
  function SortByPage(s: seq<SplitPoint>): seq<SplitPoint>
  {
    if s == [] then [] else InsertByPage(SortByPage(s[..|s| - 1]), s[|s| - 1])
  }

  /** The entries on page `page`, in order. */
  function OnPage(s: seq<SplitPoint>, page: nat): seq<SplitPoint>
  {
    if s == [] then []
    else OnPage(s[..|s| - 1], page) + (if s[|s| - 1].startPage == page then [s[|s| - 1]] else [])
  }

  lemma {:induction false} OnPageAppend(a: seq<SplitPoint>, b: seq<SplitPoint>, page: nat)
    ensures OnPage(a + b, page) == OnPage(a, page) + OnPage(b, page)
    decreases |b|
  {
    if b == [] {
      assert a + b == a;
    } else {
      assert (a + b)[..|a + b| - 1] == a + b[..|b| - 1];
      OnPageAppend(a, b[..|b| - 1], page);
    }
  }

  /** Inserting adds exactly `p`. */
  lemma {:induction false} InsertByPageCount(sorted: seq<SplitPoint>, p: SplitPoint)
    ensures multiset(InsertByPage(sorted, p)) == multiset(sorted) + multiset{p}
    decreases |sorted|
  {
    if !(sorted == [] || sorted[|sorted| - 1].startPage <= p.startPage) {
      var init := sorted[..|sorted| - 1];
      assert sorted == init + [sorted[|sorted| - 1]];
      InsertByPageCount(init, p);
    }
  }

  /** Inserting keeps the order by page. */
  lemma {:induction false} InsertByPageAscending(sorted: seq<SplitPoint>, p: SplitPoint)
    requires Ascending(sorted)
    ensures Ascending(InsertByPage(sorted, p))
    decreases |sorted|
  {
    var r := InsertByPage(sorted, p);
    if !(sorted == [] || sorted[|sorted| - 1].startPage <= p.startPage) {
      var init := sorted[..|sorted| - 1];
      var last := sorted[|sorted| - 1];
      InsertByPageAscending(init, p);
      InsertByPageCount(init, p);
      var inner := InsertByPage(init, p);
      assert r == inner + [last];
      assert |inner| == |init| + 1 by {
        assert |multiset(inner)| == |multiset(init)| + 1;
      }
      forall i | 0 <= i < |inner| ensures inner[i].startPage <= last.startPage {
        assert inner[i] in multiset(inner);
        if inner[i] != p {
          assert inner[i] in multiset(init);
          var k :| 0 <= k < |init| && init[k] == inner[i];
          assert sorted[k] == init[k];
        }
      }
    }
  }

  /** Inserting puts `p` after every entry already on its page: on each page
      the entries keep their order and `p` comes last. */
  lemma {:induction false} InsertByPageStable(sorted: seq<SplitPoint>, p: SplitPoint, page: nat)
    ensures OnPage(InsertByPage(sorted, p), page) == OnPage(sorted, page) + OnPage([p], page)
    decreases |sorted|
  {
    if sorted == [] || sorted[|sorted| - 1].startPage <= p.startPage {
      OnPageAppend(sorted, [p], page);
    } else {
      var init := sorted[..|sorted| - 1];
      var last := sorted[|sorted| - 1];
      assert sorted == init + [last];
      var inner := InsertByPage(init, p);
      assert InsertByPage(sorted, p) == inner + [last];
      InsertByPageStable(init, p, page);
      OnPageAppend(inner, [last], page);
      OnPageAppend(init, [last], page);
      assert [p][..0] == [] && [last][..0] == [];
      if last.startPage == page {
        assert OnPage([p], page) == [];
        assert OnPage(init, page) + OnPage([p], page) == OnPage(init, page);
        assert OnPage(sorted, page) + OnPage([p], page) == OnPage(sorted, page);
      } else {
        assert OnPage([last], page) == [];
        assert OnPage(inner, page) + OnPage([last], page) == OnPage(inner, page);
        assert OnPage(init, page) + OnPage([last], page) == OnPage(init, page);
      }
    }
  }

  /** The sort orders the entries by page, keeps every entry (a permutation),
      and is stable: the entries on any one page keep their order of discovery. */
  lemma {:induction false} SortByPageFacts(s: seq<SplitPoint>)
    ensures Ascending(SortByPage(s))
    ensures multiset(SortByPage(s)) == multiset(s)
    ensures forall page :: OnPage(SortByPage(s), page) == OnPage(s, page)
  {
    if s != [] {
      var init := s[..|s| - 1];
      assert s == init + [s[|s| - 1]];
      SortByPageFacts(init);
      InsertByPageCount(SortByPage(init), s[|s| - 1]);
      InsertByPageAscending(SortByPage(init), s[|s| - 1]);
      forall page ensures OnPage(SortByPage(s), page) == OnPage(s, page) {
        InsertByPageStable(SortByPage(init), s[|s| - 1], page);
        OnPageAppend(init, [s[|s| - 1]], page);
      }
    }
  }

  /** `title.replace(' ', '_').replace('/', '-') + ".pdf"`: the name ends in
      `.pdf`; before it stands the title character by character, with each
      space turned into an underscore and each slash into a dash, so it
      holds no space and no slash. */
  function BookmarkFilename(title: string): (r: string)
    ensures EndsWith(r, ".pdf")
    ensures |r| == |title| + 4
    ensures forall i :: 0 <= i < |title| ==>
              r[i] == (if title[i] == ' ' then '_' else if title[i] == '/' then '-' else title[i])
    ensures forall i :: 0 <= i < |r| - 4 ==> r[i] != ' ' && r[i] != '/'
  {
    ReplaceChar(ReplaceChar(title, ' ', '_'), '/', '-') + ".pdf"
  }

  /** The name carries no page number, so titles that differ only in spaces
      against underscores, or slashes against dashes, share one file name. */
  lemma BookmarkFilenameCollides(t1: string, t2: string)
    requires |t1| == |t2|
    requires forall i :: 0 <= i < |t1| ==>
               t1[i] == t2[i] || (t1[i] == ' ' && t2[i] == '_') || (t1[i] == '/' && t2[i] == '-')
    ensures BookmarkFilename(t1) == BookmarkFilename(t2)
  {
    var a, b := ReplaceChar(ReplaceChar(t1, ' ', '_'), '/', '-'), ReplaceChar(ReplaceChar(t2, ' ', '_'), '/', '-');
    assert forall i :: 0 <= i < |a| ==> a[i] == b[i];
    assert a == b;
  }

  /** `split_pdf_by_bookmarks`: an empty outline, or one with no readable
      entry, ends the run with nothing written; otherwise the entries are
      sorted by page and the copy loop runs over them and the sentinel. */
  method SplitPdfByBookmarks(outline: seq<Bookmark>, pageCount: nat) returns (outcome: SplitOutcome)
    ensures outcome.NothingFound? <==> Flatten(outline) == []
    ensures !outcome.NothingFound? ==>
              outcome == CopiedFiles(AdjacentSections(WithSentinel(SortByPage(Flatten(outline)), EndTitle, pageCount)),
                                     pageCount, BookmarkFilename)
  {
    if outline == [] {
      assert Flatten(outline) == [];
      return NothingFound;
    }
    var bookmarkData := ExtractBookmarks(outline, []);
    assert bookmarkData == Flatten(outline);
    if bookmarkData == [] {
      return NothingFound;
    }
    var sorted := SortByPage(bookmarkData);
    var bounded := sorted + [SplitPoint(EndTitle, pageCount)];
    outcome := CopySections(bounded, pageCount, BookmarkFilename);
    assert bounded == WithSentinel(SortByPage(Flatten(outline)), EndTitle, pageCount);
    CopiedNeverNothing(AdjacentSections(bounded), pageCount, BookmarkFilename);
  }

  /** The copy loop ends with files written or with a failure, never with
      "nothing found". */
  lemma {:induction false} CopiedNeverNothing(sections: seq<Section>, pageCount: nat, nameOf: string -> string)
    ensures !CopiedFiles(sections, pageCount, nameOf).NothingFound?
  {
    if sections != [] {
      CopiedNeverNothing(sections[..|sections| - 1], pageCount, nameOf);
    }
  }

  /** With every bookmark inside the document (page at most the page count),
      every section is written: one file per entry in page order, file k
      named after entry k and holding the pages up to the next entry; the
      files together hold every page from the smallest bookmark page on. */
  lemma BookmarksInside(outline: seq<Bookmark>, pageCount: nat)
    requires Flatten(outline) != []
    requires forall k :: 0 <= k < |Flatten(outline)| ==> Flatten(outline)[k].startPage <= pageCount
    ensures var sorted := SortByPage(Flatten(outline));
      var outcome := CopiedFiles(AdjacentSections(WithSentinel(sorted, EndTitle, pageCount)), pageCount, BookmarkFilename);
      && outcome.Split?
      && CopiedSplit(sorted, pageCount, outcome.files, BookmarkFilename)
      && (forall k :: 0 <= k < |Flatten(outline)| ==> sorted[0].startPage <= Flatten(outline)[k].startPage)
  {
    var entries := Flatten(outline);
    var sorted := SortByPage(entries);
    SortByPageFacts(entries);
    assert |sorted| == |entries| by {
      assert |multiset(sorted)| == |multiset(entries)|;
    }
    forall k | 0 <= k < |sorted| ensures sorted[k].startPage <= pageCount {
      assert sorted[k] in multiset(entries);
    }
    forall k | 0 <= k < |entries| ensures sorted[0].startPage <= entries[k].startPage {
      assert entries[k] in multiset(sorted);
      var j :| 0 <= j < |sorted| && sorted[j] == entries[k];
    }
    CopiedSplitInside(sorted, EndTitle, pageCount, BookmarkFilename);
  }

  /** No deduplication: two bookmarks on one page give a section with no
      pages, and its file is still written, empty. */
  lemma SamePageGivesEmptyFile(sorted: seq<SplitPoint>, pageCount: nat, k: nat)
    requires sorted != [] && Ascending(sorted)
    requires forall j :: 0 <= j < |sorted| ==> sorted[j].startPage <= pageCount
    requires k + 1 < |sorted| && sorted[k].startPage == sorted[k + 1].startPage
    ensures var outcome := CopiedFiles(AdjacentSections(WithSentinel(sorted, EndTitle, pageCount)), pageCount, BookmarkFilename);
      && outcome.Split? && |outcome.files| == |sorted|
      && outcome.files[k] == OutputFile(BookmarkFilename(sorted[k].title), [])
  {
    CopiedSplitInside(sorted, EndTitle, pageCount, BookmarkFilename);
  }
}

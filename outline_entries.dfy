/** What both Gemini bookmark scripts do with the model's answer once it is
    parsed: the title-to-page mapping is walked in its iteration order, and
    an entry whose 1-based page lies inside the document becomes an outline
    entry on the 0-based page index; the others are skipped. The rewritten
    document keeps every page of the original, in order. */
module OutlineEntries {
  import opened Sections

  /** One `add_outline_entry(title, page_index)` call. */
  datatype OutlineEntry = OutlineEntry(title: string, pageIndex: nat)

  /** The rewritten document: the pages copied from the original, in order,
      then the outline entries added to it, in order. */
  datatype BookmarkedPdf = BookmarkedPdf(pages: seq<nat>, outline: seq<OutlineEntry>)

  /** `0 <= page_num - 1 < len(reader.pages)`. */
  predicate InRange(pageNum: int, pageCount: nat) {
    0 <= pageNum - 1 < pageCount
  }

  /** The outline entries the mapping yields, in mapping order. */
  function ValidEntries(mapping: seq<(string, int)>, pageCount: nat): (r: seq<OutlineEntry>)
    ensures forall k :: 0 <= k < |r| ==> r[k].pageIndex < pageCount
  {
    if mapping == [] then []
    else
      var prev := ValidEntries(mapping[..|mapping| - 1], pageCount);
      var (title, pageNum) := mapping[|mapping| - 1];
      if InRange(pageNum, pageCount) then prev + [OutlineEntry(title, pageNum - 1)] else prev
  }

  /** How many pairs of the mapping have an in-range page. */
  function InRangeCount(mapping: seq<(string, int)>, pageCount: nat): nat
  {
    if mapping == [] then 0
    else InRangeCount(mapping[..|mapping| - 1], pageCount)
         + (if InRange(mapping[|mapping| - 1].1, pageCount) then 1 else 0)
  }

  /** An entry is added exactly when some pair names its title with its
      page plus one, and that page is inside the document. */
  lemma {:induction false} ValidEntriesMembers(mapping: seq<(string, int)>, pageCount: nat, e: OutlineEntry)
    ensures e in ValidEntries(mapping, pageCount) <==>
              e.pageIndex < pageCount && (e.title, e.pageIndex + 1) in mapping
  {
    if mapping != [] {
      var init := mapping[..|mapping| - 1];
      var last := mapping[|mapping| - 1];
      assert mapping == init + [last];
      ValidEntriesMembers(init, pageCount, e);
      assert (e.title, e.pageIndex + 1) in mapping <==> (e.title, e.pageIndex + 1) in init || (e.title, e.pageIndex + 1) == last;
      if InRange(last.1, pageCount) {
        assert OutlineEntry(last.0, last.1 - 1) == e <==> (e.title, e.pageIndex + 1) == last;
      }
    }
  }

  /** One outline entry per in-range pair: the counter of the scripts
      equals the number of entries added. */
  lemma {:induction false} ValidEntriesCount(mapping: seq<(string, int)>, pageCount: nat)
    ensures |ValidEntries(mapping, pageCount)| == InRangeCount(mapping, pageCount)
  {
    if mapping != [] {
      ValidEntriesCount(mapping[..|mapping| - 1], pageCount);
    }
  }

  /** Skipping an out-of-range pair does not stop the walk: the entries of
      a mapping are those of its two halves, one after the other. */
  lemma {:induction false} ValidEntriesAppend(a: seq<(string, int)>, b: seq<(string, int)>, pageCount: nat)
    ensures ValidEntries(a + b, pageCount) == ValidEntries(a, pageCount) + ValidEntries(b, pageCount)
    decreases |b|
  {
    if b == [] {
      assert a + b == a;
    } else {
      assert (a + b)[..|a + b| - 1] == a + b[..|b| - 1];
      ValidEntriesAppend(a, b[..|b| - 1], pageCount);
    }
  }

  /** `for page in reader.pages: writer.add_page(page)`: every page, in order. */
  method CopyAllPages(pageCount: nat) returns (pages: seq<nat>)
    ensures pages == Range(0, pageCount)
  {
    pages := [];
    for n := 0 to pageCount
      invariant pages == Range(0, n)
    {
      RangeAppend(0, n, n + 1);
      pages := pages + [n];
    }
  }

  /** The loop over `bookmark_data.items()`: each in-range pair adds an
      outline entry on its 0-based page and bumps the counter. */
  method ApplyOutlineEntries(mapping: seq<(string, int)>, pageCount: nat)
    returns (entries: seq<OutlineEntry>, added: nat)
    ensures entries == ValidEntries(mapping, pageCount)
    ensures added == InRangeCount(mapping, pageCount)
  {
    entries, added := [], 0;
    for i := 0 to |mapping|
      invariant entries == ValidEntries(mapping[..i], pageCount)
      invariant added == InRangeCount(mapping[..i], pageCount)
    {
      assert mapping[..i + 1][..i] == mapping[..i];
      var (title, pageNum) := mapping[i];
      var pageIndex := pageNum - 1;
      if 0 <= pageIndex < pageCount {
        entries := entries + [OutlineEntry(title, pageIndex)];
        added := added + 1;
      }
    }
    assert mapping[..|mapping|] == mapping;
  }

  /** A reader's pages copied to a new writer, the mapping's outline entries
      added: the document the scripts save. */
  method Bookmark(mapping: seq<(string, int)>, pageCount: nat) returns (pdf: BookmarkedPdf, added: nat)
    ensures pdf == BookmarkedPdf(Range(0, pageCount), ValidEntries(mapping, pageCount))
    ensures added == |pdf.outline|
  {
    var pages := CopyAllPages(pageCount);
    var entries;
    entries, added := ApplyOutlineEntries(mapping, pageCount);
    ValidEntriesCount(mapping, pageCount);
    pdf := BookmarkedPdf(pages, entries);
  }
}

/** What every splitter script shares: split points found in page order, the
    sentinel at the page count, the half-open sections between adjacent
    points, and the page-by-page copy loop of the PyPDF2 scripts. */
module Sections {
  import opened Wrappers

  /** A heading or bookmark title and the 0-based page it starts on. */
  datatype SplitPoint = SplitPoint(title: string, startPage: nat)

  /** The pages [startPage, endPage) that one output file receives. */
  datatype Section = Section(title: string, startPage: nat, endPage: nat)

  /** One output PDF: its file name and the source pages copied into it, in order. */
  datatype OutputFile = OutputFile(name: string, pages: seq<nat>)

  /** How a split run ends: the early "nothing found" return, every section
      written, or an error after the files in `written` were already saved. */
  datatype SplitOutcome =
    | NothingFound
    | Split(files: seq<OutputFile>)
    | Failed(written: seq<OutputFile>)

  /** Python's `range(start, end)`. */
  function Range(start: nat, end: nat): (r: seq<nat>)
    ensures |r| == if start < end then end - start else 0
    ensures forall k :: 0 <= k < |r| ==> r[k] == start + k
    decreases end - start
  {
    if start < end then [start] + Range(start + 1, end) else []
  }

  /** Adjacent ranges join into one. */
  lemma RangeAppend(a: nat, b: nat, c: nat)
    requires a <= b <= c
    ensures Range(a, b) + Range(b, c) == Range(a, c)
  {
    var l, r, all := Range(a, b), Range(b, c), Range(a, c);
    assert |l + r| == |all|;
    forall k | 0 <= k < |all| ensures (l + r)[k] == all[k] {
      if k < |l| { assert (l + r)[k] == l[k]; } else { assert (l + r)[k] == r[k - |l|]; }
    }
  }

  ghost predicate StrictlyIncreasing(points: seq<SplitPoint>) {
    forall i, j :: 0 <= i < j < |points| ==> points[i].startPage < points[j].startPage
  }

  ghost predicate Ascending(points: seq<SplitPoint>) {
    forall i, j :: 0 <= i < j < |points| ==> points[i].startPage <= points[j].startPage
  }

  ghost predicate AllBelow(points: seq<SplitPoint>, bound: nat) {
    forall k :: 0 <= k < |points| ==> points[k].startPage < bound
  }

  /** The split points of a scan that visits pages in order and records one
      point for each page whose scan produced a title (`hits[i]` is page i's). */
  function PagePoints(hits: seq<Option<string>>): seq<SplitPoint>
  {
    PointsBefore(hits, |hits|)
  }

  /** The points recorded once the first `n` pages have been scanned. */
  function PointsBefore(hits: seq<Option<string>>, n: nat): seq<SplitPoint>
    requires n <= |hits|
  {
    if n == 0 then []
    else
      var prev := PointsBefore(hits, n - 1);
      match hits[n - 1]
      case None => prev
      case Some(t) => prev + [SplitPoint(t, n - 1)]
  }

  /** Every point recorded so far comes from a hit on its own page, and the
      pages strictly increase below `n`. */
  lemma {:induction false} PointsBeforeSound(hits: seq<Option<string>>, n: nat)
    requires n <= |hits|
    ensures StrictlyIncreasing(PointsBefore(hits, n))
    ensures AllBelow(PointsBefore(hits, n), n)
    ensures forall k :: 0 <= k < |PointsBefore(hits, n)| ==>
              hits[PointsBefore(hits, n)[k].startPage] == Some(PointsBefore(hits, n)[k].title)
  {
    if n > 0 {
      var prev := PointsBefore(hits, n - 1);
      PointsBeforeSound(hits, n - 1);
      if hits[n - 1].Some? {
        var p := SplitPoint(hits[n - 1].value, n - 1);
        assert PointsBefore(hits, n) == prev + [p];
        assert forall k :: 0 <= k < |prev| ==> (prev + [p])[k] == prev[k];
        assert (prev + [p])[|prev|] == p;
      }
    }
  }

  /** Every point comes from a hit on its own page, the pages strictly
      increase, and so no page contributes two points. */
  lemma PagePointsSound(hits: seq<Option<string>>)
    ensures StrictlyIncreasing(PagePoints(hits))
    ensures AllBelow(PagePoints(hits), |hits|)
    ensures forall k :: 0 <= k < |PagePoints(hits)| ==>
              hits[PagePoints(hits)[k].startPage] == Some(PagePoints(hits)[k].title)
  {
    PointsBeforeSound(hits, |hits|);
  }

  /** Every page before `n` with a hit has contributed a point. */
  lemma {:induction false} PointsBeforeComplete(hits: seq<Option<string>>, n: nat, i: nat)
    requires n <= |hits| && i < n && hits[i].Some?
    ensures exists k :: 0 <= k < |PointsBefore(hits, n)| && PointsBefore(hits, n)[k].startPage == i
  {
    var prev := PointsBefore(hits, n - 1);
    if i == n - 1 {
      assert PointsBefore(hits, n)[|prev|].startPage == i;
    } else {
      PointsBeforeComplete(hits, n - 1, i);
      var k :| 0 <= k < |prev| && prev[k].startPage == i;
      assert PointsBefore(hits, n)[k] == prev[k];
    }
  }

  /** Every page with a hit contributes a point. */
  lemma PagePointsComplete(hits: seq<Option<string>>, i: nat)
    requires i < |hits| && hits[i].Some?
    ensures exists k :: 0 <= k < |PagePoints(hits)| && PagePoints(hits)[k].startPage == i
  {
    PointsBeforeComplete(hits, |hits|, i);
    var k :| 0 <= k < |PointsBefore(hits, |hits|)| && PointsBefore(hits, |hits|)[k].startPage == i;
    assert PagePoints(hits)[k].startPage == i;
  }

  /** The scan finds nothing exactly when no page has a hit. */
  lemma PagePointsEmpty(hits: seq<Option<string>>)
    ensures PagePoints(hits) == [] <==> forall i :: 0 <= i < |hits| ==> hits[i].None?
  {
    PagePointsSound(hits);
    if PagePoints(hits) != [] {
      assert hits[PagePoints(hits)[0].startPage].Some?;
    }
    if exists i :: 0 <= i < |hits| && hits[i].Some? {
      var i :| 0 <= i < |hits| && hits[i].Some?;
      PagePointsComplete(hits, i);
    }
  }

  /** The sentinel the scripts append: its page is the document's page count. */
  function WithSentinel(points: seq<SplitPoint>, sentinel: string, pageCount: nat): seq<SplitPoint>
  {
    points + [SplitPoint(sentinel, pageCount)]
  }

  /** Section i runs from point i's page up to point i+1's page: the loop
      `for i in range(len(split_points) - 1)` over the bounded point list. */
  function AdjacentSections(bounded: seq<SplitPoint>): seq<Section>
  {
    if |bounded| <= 1 then []
    else seq(|bounded| - 1, i requires 0 <= i < |bounded| - 1 =>
               Section(bounded[i].title, bounded[i].startPage, bounded[i + 1].startPage))
  }

  /** Section i is point i's title and runs from point i's page up to the
      next point's page, or up to the page count for the last point. */
  lemma SectionAt(points: seq<SplitPoint>, sentinel: string, pageCount: nat, i: nat)
    requires i < |points|
    ensures |AdjacentSections(WithSentinel(points, sentinel, pageCount))| == |points|
    ensures AdjacentSections(WithSentinel(points, sentinel, pageCount))[i]
         == Section(points[i].title, points[i].startPage, if i + 1 < |points| then points[i + 1].startPage else pageCount)
  {
    var b := WithSentinel(points, sentinel, pageCount);
    assert b[i + 1] == if i + 1 < |points| then points[i + 1] else SplitPoint(sentinel, pageCount);
  }

  /** One section per point, titled by it; consecutive sections share their
      boundary; the first starts at the first point, not at page 0; the last
      ends at the page count. */
  lemma SectionsContiguous(points: seq<SplitPoint>, sentinel: string, pageCount: nat)
    requires points != []
    ensures var s := AdjacentSections(WithSentinel(points, sentinel, pageCount));
      && |s| == |points|
      && (forall i :: 0 <= i < |s| ==> s[i].title == points[i].title && s[i].startPage == points[i].startPage)
      && (forall i :: 0 <= i < |s| - 1 ==> s[i].endPage == s[i + 1].startPage)
      && s[0].startPage == points[0].startPage
      && s[|s| - 1].endPage == pageCount
  {
    var s := AdjacentSections(WithSentinel(points, sentinel, pageCount));
    forall i | 0 <= i < |points|
      ensures s[i] == Section(points[i].title, points[i].startPage, if i + 1 < |points| then points[i + 1].startPage else pageCount)
    {
      SectionAt(points, sentinel, pageCount, i);
    }
  }

  /** Strictly increasing points below the page count give sections that each
      hold at least one page. */
  lemma SectionsNonEmpty(points: seq<SplitPoint>, sentinel: string, pageCount: nat)
    requires StrictlyIncreasing(points) && AllBelow(points, pageCount)
    ensures var s := AdjacentSections(WithSentinel(points, sentinel, pageCount));
      forall i :: 0 <= i < |s| ==> s[i].startPage < s[i].endPage
  {
    var b := WithSentinel(points, sentinel, pageCount);
    var s := AdjacentSections(b);
    forall i | 0 <= i < |s| ensures s[i].startPage < s[i].endPage {
      assert b[i] == points[i];
      if i + 1 < |points| {
        assert b[i + 1] == points[i + 1];
      }
    }
  }

  /** The pages of a list of sections, section after section. */
  function SectionPages(s: seq<Section>): seq<nat>
  {
    if s == [] then [] else Range(s[0].startPage, s[0].endPage) + SectionPages(s[1..])
  }

  /** Over points in ascending order, none beyond the page count, the
      sections together hold exactly the pages from the first point to the
      end, each once and in order: the pages before the first point belong to
      no section, and the total is the page count minus the first point's page. */
  lemma {:induction false} SectionsCover(points: seq<SplitPoint>, sentinel: string, pageCount: nat)
    requires points != [] && Ascending(points)
    requires forall k :: 0 <= k < |points| ==> points[k].startPage <= pageCount
    ensures SectionPages(AdjacentSections(WithSentinel(points, sentinel, pageCount)))
         == Range(points[0].startPage, pageCount)
    decreases |points|
  {
    var b := WithSentinel(points, sentinel, pageCount);
    var s := AdjacentSections(b);
    var rest := points[1..];
    if rest == [] {
      assert s == [Section(points[0].title, points[0].startPage, pageCount)];
    } else {
      SectionsCover(rest, sentinel, pageCount);
      var sr := AdjacentSections(WithSentinel(rest, sentinel, pageCount));
      assert WithSentinel(rest, sentinel, pageCount) == b[1..];
      assert s[1..] == sr;
      assert sr[0].startPage == rest[0].startPage;
      RangeAppend(points[0].startPage, points[1].startPage, pageCount);
    }
  }

  /** The files the page-by-page copy loop leaves behind for `sections`: a
      section reaching past the last page raises on the first missing page,
      which ends the run; the files saved before it stay. */
  function CopiedFiles(sections: seq<Section>, pageCount: nat, nameOf: string -> string): SplitOutcome
  {
    if sections == [] then Split([])
    else
      match CopiedFiles(sections[..|sections| - 1], pageCount, nameOf)
      case Split(fs) =>
        var s := sections[|sections| - 1];
        if s.startPage < s.endPage && s.endPage > pageCount then Failed(fs)
        else Split(fs + [OutputFile(nameOf(s.title), Range(s.startPage, s.endPage))])
      case other => other
  }

  /** Sections that stay inside the document are all written, one file each,
      named by `nameOf` and holding exactly the section's pages, in order. */
  lemma {:induction false} CopiedFilesInside(sections: seq<Section>, pageCount: nat, nameOf: string -> string)
    requires forall i :: 0 <= i < |sections| ==> sections[i].endPage <= pageCount
    ensures CopiedFiles(sections, pageCount, nameOf).Split?
    ensures var fs := CopiedFiles(sections, pageCount, nameOf).files;
      && |fs| == |sections|
      && forall i :: 0 <= i < |fs| ==>
           fs[i] == OutputFile(nameOf(sections[i].title), Range(sections[i].startPage, sections[i].endPage))
  {
    if sections != [] {
      var init := sections[..|sections| - 1];
      CopiedFilesInside(init, pageCount, nameOf);
    }
  }

  /** Once the copy loop has failed, the sections after it change nothing. */
  lemma {:induction false} CopiedFailureStays(sections: seq<Section>, i: nat, pageCount: nat, nameOf: string -> string)
    requires i <= |sections|
    requires CopiedFiles(sections[..i], pageCount, nameOf).Failed?
    ensures CopiedFiles(sections, pageCount, nameOf) == CopiedFiles(sections[..i], pageCount, nameOf)
    decreases |sections| - i
  {
    if i < |sections| {
      var longer := sections[..i + 1];
      assert longer[..i] == sections[..i];
      CopiedFailureStays(sections, i + 1, pageCount, nameOf);
    } else {
      assert sections[..i] == sections;
    }
  }

  /** The pages of a list of files, file after file. */
  function FilePages(files: seq<OutputFile>): seq<nat>
  {
    if files == [] then [] else files[0].pages + FilePages(files[1..])
  }

  /** Files that hold the sections' pages one for one hold all of them together. */
  lemma {:induction false} FilePagesOfSections(files: seq<OutputFile>, sections: seq<Section>)
    requires |files| == |sections|
    requires forall i :: 0 <= i < |files| ==> files[i].pages == Range(sections[i].startPage, sections[i].endPage)
    ensures FilePages(files) == SectionPages(sections)
  {
    if files != [] {
      FilePagesOfSections(files[1..], sections[1..]);
    }
  }

  /** Files that hold, one for one, the pages from each point up to the next
      point (or the end) hold together every page from the first point on,
      once each and in order. */
  lemma {:induction false} PointFilesCover(points: seq<SplitPoint>, pageCount: nat, files: seq<OutputFile>)
    requires points != [] && Ascending(points)
    requires forall k :: 0 <= k < |points| ==> points[k].startPage <= pageCount
    requires |files| == |points|
    requires forall k {:trigger files[k]} :: 0 <= k < |files| ==>
               files[k].pages == Range(points[k].startPage, if k + 1 < |points| then points[k + 1].startPage else pageCount)
    ensures FilePages(files) == Range(points[0].startPage, pageCount)
    decreases |points|
  {
    if |points| == 1 {
      assert files[0].pages == Range(points[0].startPage, pageCount);
      assert FilePages(files) == files[0].pages + FilePages([]);
    } else {
      var rest, later := points[1..], files[1..];
      forall k | 0 <= k < |later|
        ensures later[k].pages == Range(rest[k].startPage, if k + 1 < |rest| then rest[k + 1].startPage else pageCount)
      {
        assert later[k] == files[k + 1] && rest[k] == points[k + 1];
        if k + 1 < |rest| {
          assert rest[k + 1] == points[k + 2];
        }
      }
      PointFilesCover(rest, pageCount, later);
      assert files[0].pages == Range(points[0].startPage, points[1].startPage);
      RangeAppend(points[0].startPage, points[1].startPage, pageCount);
    }
  }

  /** `for page_num in range(start, end): writer.add_page(reader.pages[page_num])`:
      the pages go in one at a time; an index at or past `pageCount` raises. */
  method CopyPageRange(start: nat, end: nat, pageCount: nat) returns (pages: seq<nat>, ok: bool)
    ensures ok <==> !(start < end && end > pageCount)
    ensures ok ==> pages == Range(start, end)
  {
    pages, ok := [], true;
    var pageNum := start;
    while pageNum < end
      invariant start <= pageNum
      invariant pageNum == start || pageNum <= end
      invariant pageNum == start || pageNum <= pageCount
      invariant pages == Range(start, pageNum)
    {
      if pageNum >= pageCount {
        ok := false;
        return;
      }
      RangeAppend(start, pageNum, pageNum + 1);
      pages := pages + [pageNum];
      pageNum := pageNum + 1;
    }
  }

  /** The section loop of the PyPDF2 splitters, over the points with their
      sentinel: each adjacent pair in order, its pages copied one at a time
      into a new file named by `nameOf` of the pair's first title; the first
      page index past the document ends the run. */
  method CopySections(bounded: seq<SplitPoint>, pageCount: nat, nameOf: string -> string)
    returns (outcome: SplitOutcome)
    ensures outcome == CopiedFiles(AdjacentSections(bounded), pageCount, nameOf)
  {
    ghost var sections := AdjacentSections(bounded);
    var files: seq<OutputFile> := [];
    if |bounded| <= 1 {
      return Split(files);
    }
    for i := 0 to |bounded| - 1
      invariant CopiedFiles(sections[..i], pageCount, nameOf) == Split(files)
    {
      assert sections[..i + 1][..i] == sections[..i];
      var startPage := bounded[i].startPage;
      var endPage := bounded[i + 1].startPage;
      var title := bounded[i].title;
      assert sections[i] == Section(title, startPage, endPage);
      var pages, ok := CopyPageRange(startPage, endPage, pageCount);
      if !ok {
        assert CopiedFiles(sections[..i + 1], pageCount, nameOf) == Failed(files);
        CopiedFailureStays(sections, i + 1, pageCount, nameOf);
        return Failed(files);
      }
      files := files + [OutputFile(nameOf(title), pages)];
    }
    assert sections[..|bounded| - 1] == sections;
    outcome := Split(files);
  }

  /** The result of a copy loop that wrote every section of `points`: one file
      per point, file k named after point k's title and holding the pages
      from point k up to the next point (or the end of the document), and all
      files together holding the pages from the first point on, in order. */
  ghost predicate CopiedSplit(points: seq<SplitPoint>, pageCount: nat, files: seq<OutputFile>, nameOf: string -> string)
    requires points != []
  {
    && |files| == |points|
    && (forall k :: 0 <= k < |files| ==>
          files[k] == OutputFile(nameOf(points[k].title),
                                 Range(points[k].startPage, if k + 1 < |points| then points[k + 1].startPage else pageCount)))
    && FilePages(files) == Range(points[0].startPage, pageCount)
  }

  /** Points in ascending order, none past the page count, never reach a
      missing page: the copy loop writes every section, one file each. */
  lemma CopiedSplitInside(points: seq<SplitPoint>, sentinel: string, pageCount: nat, nameOf: string -> string)
    requires points != [] && Ascending(points)
    requires forall k :: 0 <= k < |points| ==> points[k].startPage <= pageCount
    ensures CopiedFiles(AdjacentSections(WithSentinel(points, sentinel, pageCount)), pageCount, nameOf).Split?
    ensures CopiedSplit(points, pageCount,
              CopiedFiles(AdjacentSections(WithSentinel(points, sentinel, pageCount)), pageCount, nameOf).files, nameOf)
  {
    var sections := AdjacentSections(WithSentinel(points, sentinel, pageCount));
    SectionsContiguous(points, sentinel, pageCount);
    assert forall i :: 0 <= i < |sections| ==> sections[i].endPage <= pageCount;
    CopiedFilesInside(sections, pageCount, nameOf);
    var files := CopiedFiles(sections, pageCount, nameOf).files;
    PointFilesCover(points, pageCount, files);
  }
}

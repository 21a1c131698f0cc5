/** The PyMuPDF splitter that cuts a document at its "PART" and "Chapter"
    headings: a page-by-page scan keeps the first heading line of each page,
    a sentinel at the page count closes the last section, and every section is
    saved under a `Page_NNNN_<safe title>.pdf` name. The heading pattern is the
    parameter `matchLine`, which returns the matched text (`match.group(0)`). */
module PartsChapters {
  import opened Wrappers
  import opened Text
  import opened Sections
  import opened SafeNames

  const EndTitle: string := "END_OF_DOCUMENT"

  /** The title of a page's first line that, once stripped, matches the
      heading pattern: the stripped matched text. */
  function FirstHeading(lines: seq<string>, matchLine: string -> Option<string>, isSpace: char -> bool): Option<string>
  {
    if lines == [] then None
    else
      match matchLine(Strip(lines[0], isSpace))
      case Some(matched) => Some(Strip(matched, isSpace))
      case None => FirstHeading(lines[1..], matchLine, isSpace)
  }

  /** A heading is found exactly when some stripped line matches, and it is
      the stripped matched text of the first such line. */
  lemma {:induction false} FirstHeadingSpec(lines: seq<string>, matchLine: string -> Option<string>, isSpace: char -> bool)
    ensures var r := FirstHeading(lines, matchLine, isSpace);
      && (r.Some? <==> exists j :: 0 <= j < |lines| && matchLine(Strip(lines[j], isSpace)).Some?)
      && (r.Some? ==> exists j :: 0 <= j < |lines| && matchLine(Strip(lines[j], isSpace)).Some?
                        && (forall k :: 0 <= k < j ==> matchLine(Strip(lines[k], isSpace)).None?)
                        && r.value == Strip(matchLine(Strip(lines[j], isSpace)).value, isSpace))
  {
    if lines != [] && matchLine(Strip(lines[0], isSpace)).None? {
      var tail := lines[1..];
      FirstHeadingSpec(tail, matchLine, isSpace);
      assert forall j :: 1 <= j < |lines| ==> tail[j - 1] == lines[j];
      var r := FirstHeading(tail, matchLine, isSpace);
      if r.Some? {
        var j :| 0 <= j < |tail| && matchLine(Strip(tail[j], isSpace)).Some?
                 && (forall k :: 0 <= k < j ==> matchLine(Strip(tail[k], isSpace)).None?)
                 && r.value == Strip(matchLine(Strip(tail[j], isSpace)).value, isSpace);
        assert matchLine(Strip(lines[j + 1], isSpace)).Some?;
      }
    }
  }

  /** What a page contributes: nothing when its text could not be extracted
      (`None`) or is empty, otherwise its first heading. */
  function PageHit(page: Option<string>, matchLine: string -> Option<string>, isSpace: char -> bool): Option<string>
  {
    match page
    case None => None
    case Some(text) => if text == "" then None else FirstHeading(SplitLines(text), matchLine, isSpace)
  }

  /** `Hits(pages, ...)[i]` is `PageHit(pages[i], ...)`: what page i contributes. */
  function Hits(pages: seq<Option<string>>, matchLine: string -> Option<string>, isSpace: char -> bool): (r: seq<Option<string>>)
    ensures |r| == |pages|
  {
    seq(|pages|, i requires 0 <= i < |pages| => PageHit(pages[i], matchLine, isSpace))
  }

  /** The inner scan of lines 74-88: the page's lines in order, stripped;
      the first one the heading pattern matches gives the page's title (the
      stripped matched text) and ends the scan. */
  method ScanPage(text: string, matchLine: string -> Option<string>, isSpace: char -> bool)
    returns (title: Option<string>)
    requires text != ""
    ensures title == PageHit(Some(text), matchLine, isSpace)
  {
    var lines := SplitLines(text);
    assert PageHit(Some(text), matchLine, isSpace) == FirstHeading(lines, matchLine, isSpace);
    var j := 0;
    while j < |lines|
      invariant 0 <= j <= |lines|
      invariant FirstHeading(lines[j..], matchLine, isSpace) == FirstHeading(lines, matchLine, isSpace)
    {
      var line := Strip(lines[j], isSpace);
      var m := matchLine(line);
      if m.Some? {
        return Some(Strip(m.value, isSpace));
      }
      assert lines[j..][1..] == lines[j + 1..];
      j := j + 1;
    }
    assert lines[j..] == [];
    return None;
  }

  /** The body of the page loop, lines 70-88, on page i: a page whose text
      could not be extracted or is empty contributes nothing; otherwise its
      first heading is appended, guarded by "the last point is not on this
      page", which holds because every earlier point lies before page i. */
  method ScanPageAt(pages: seq<Option<string>>, i: nat, points: seq<SplitPoint>,
                    matchLine: string -> Option<string>, isSpace: char -> bool)
    returns (next: seq<SplitPoint>)
    requires i < |pages|
    requires points == PointsBefore(Hits(pages, matchLine, isSpace), i)
    requires points == [] || points[|points| - 1].startPage < i
    ensures next == PointsBefore(Hits(pages, matchLine, isSpace), i + 1)
    ensures next == [] || next[|next| - 1].startPage <= i
  {
    next := points;
    if pages[i].None? || pages[i].value == "" {
      return;
    }
    var title := ScanPage(pages[i].value, matchLine, isSpace);
    if title.Some? {
      if points == [] || points[|points| - 1].startPage != i {
        next := points + [SplitPoint(title.value, i)];
      } else {
        assert false;
      }
    }
  }

  /** The scan of lines 65-92: every page in order, each contributing its
      first heading as a split point. */
  method CollectSplitPoints(pages: seq<Option<string>>, matchLine: string -> Option<string>, isSpace: char -> bool)
    returns (points: seq<SplitPoint>)
    ensures points == PagePoints(Hits(pages, matchLine, isSpace))
  {
    points := [];
    var i := 0;
    while i < |pages|
      invariant 0 <= i <= |pages|
      invariant points == PointsBefore(Hits(pages, matchLine, isSpace), i)
      invariant points == [] || points[|points| - 1].startPage < i
    {
      points := ScanPageAt(pages, i, points, matchLine, isSpace);
      i := i + 1;
    }
  }

  /** The name the scripts give the section starting at `startPage` under
      `title`: `PageFilename` of the two. */
  function PageName(normalize: string -> string, isSpace: char -> bool): (string, nat) -> string
  {
    (title: string, startPage: nat) => PageFilename(title, startPage, normalize, isSpace)
  }

  /** The file a non-empty section is saved as, under the name `nameOf` gives
      its title and start page. */
  function SectionFile(s: Section, nameOf: (string, nat) -> string): OutputFile
  {
    OutputFile(nameOf(s.title, s.startPage), Range(s.startPage, s.endPage))
  }

  /** The files the section loop saves: a section with pages is written under
      its name; an empty one is skipped. */
  function PageNamedFiles(sections: seq<Section>, nameOf: (string, nat) -> string): seq<OutputFile>
  {
    if sections == [] then []
    else
      var prev := PageNamedFiles(sections[..|sections| - 1], nameOf);
      var s := sections[|sections| - 1];
      if s.endPage > s.startPage
      then prev + [SectionFile(s, nameOf)]
      else prev
  }

  /** When no section is empty, none is skipped: file i is section i. */
  lemma {:induction false} NoSectionSkipped(sections: seq<Section>, nameOf: (string, nat) -> string)
    requires forall i :: 0 <= i < |sections| ==> sections[i].startPage < sections[i].endPage
    ensures var fs := PageNamedFiles(sections, nameOf);
      && |fs| == |sections|
      && forall i :: 0 <= i < |fs| ==> fs[i] == SectionFile(sections[i], nameOf)
  {
    if sections != [] {
      var init := sections[..|sections| - 1];
      NoSectionSkipped(init, nameOf);
      var fs := PageNamedFiles(sections, nameOf);
      forall i | 0 <= i < |fs| ensures fs[i] == SectionFile(sections[i], nameOf) {
        if i < |init| {
          assert init[i] == sections[i];
        }
      }
    }
  }

  /** The section loop of lines 98-138: sentinel, adjacent pairs, the
      non-empty check, `insert_pdf` of the range and the file name, which the
      scripts build with `PageName`. */
  method WriteSections(points: seq<SplitPoint>, pageCount: nat, nameOf: (string, nat) -> string)
    returns (files: seq<OutputFile>)
    ensures files == PageNamedFiles(AdjacentSections(WithSentinel(points, EndTitle, pageCount)), nameOf)
  {
    var bounded := points + [SplitPoint(EndTitle, pageCount)];
    ghost var sections := AdjacentSections(bounded);
    files := [];
    for i := 0 to |bounded| - 1
      invariant files == PageNamedFiles(sections[..i], nameOf)
    {
      var startPage := bounded[i].startPage;
      var endPage := bounded[i + 1].startPage;
      var title := bounded[i].title;
      assert sections[..i + 1][..i] == sections[..i];
      assert sections[..i + 1][i] == Section(title, startPage, endPage);
      if endPage > startPage {
        var copied := Range(startPage, endPage);
        var filename := nameOf(title, startPage);
        files := files + [OutputFile(filename, copied)];
      }
    }
    assert sections[..|bounded| - 1] == sections;
  }

  /** A naming that tells sections apart by their start page, whatever
      their titles. */
  ghost predicate DistinctByPage(nameOf: (string, nat) -> string)
  {
    forall t1, p1, t2, p2 :: p1 != p2 ==> nameOf(t1, p1) != nameOf(t2, p2)
  }

  /** The `Page_` names tell sections apart by their start page. */
  lemma PageNameDistinct(normalize: string -> string, isSpace: char -> bool)
    ensures DistinctByPage(PageName(normalize, isSpace))
  {
    forall t1, p1, t2, p2 | p1 != p2
      ensures PageName(normalize, isSpace)(t1, p1) != PageName(normalize, isSpace)(t2, p2)
    {
      PageFilenamesDistinct(t1, p1, t2, p2, normalize, isSpace);
    }
  }

  /** What a finished split over `points` looks like: one file per point,
      file k holding the pages from point k up to the next point (or the end)
      and named after point k; the names are distinct; and the files
      together hold every page from the first point on, once each and in order. */
  ghost predicate NamedSplit(points: seq<SplitPoint>, pageCount: nat, files: seq<OutputFile>,
                             nameOf: (string, nat) -> string)
    requires points != []
  {
    && |files| == |points|
    && (forall k :: 0 <= k < |files| ==>
          && files[k].name == nameOf(points[k].title, points[k].startPage)
          && files[k].pages == Range(points[k].startPage, if k + 1 < |points| then points[k + 1].startPage else pageCount))
    && (forall k, l :: 0 <= k < l < |files| ==> files[k].name != files[l].name)
    && FilePages(files) == Range(points[0].startPage, pageCount)
  }

  /** Over strictly increasing points below the page count, the section loop
      writes one file per point, named after that point and filled with the
      pages up to the next point (or the end). */
  lemma PageNamedFilesShape(points: seq<SplitPoint>, pageCount: nat, nameOf: (string, nat) -> string)
    requires points != [] && StrictlyIncreasing(points) && AllBelow(points, pageCount)
    ensures var files := PageNamedFiles(AdjacentSections(WithSentinel(points, EndTitle, pageCount)), nameOf);
      && |files| == |points|
      && (forall k :: 0 <= k < |files| ==>
            && files[k].name == nameOf(points[k].title, points[k].startPage)
            && files[k].pages == Range(points[k].startPage, if k + 1 < |points| then points[k + 1].startPage else pageCount))
  {
    var sections := AdjacentSections(WithSentinel(points, EndTitle, pageCount));
    SectionsContiguous(points, EndTitle, pageCount);
    SectionsNonEmpty(points, EndTitle, pageCount);
    NoSectionSkipped(sections, nameOf);
    var files := PageNamedFiles(sections, nameOf);
    forall k | 0 <= k < |files|
      ensures files[k].name == nameOf(points[k].title, points[k].startPage)
      ensures files[k].pages == Range(points[k].startPage, if k + 1 < |points| then points[k + 1].startPage else pageCount)
    {
      var end := if k + 1 < |points| then points[k + 1].startPage else pageCount;
      assert sections[k] == Section(points[k].title, points[k].startPage, end);
      assert files[k] == SectionFile(sections[k], nameOf);
    }
  }

  /** Over strictly increasing points below the page count, and under a
      naming that tells start pages apart, the section loop produces a
      `NamedSplit`: no section is skipped, no two files share a name, and no
      page from the first point on is lost or repeated. */
  lemma NamedFilesSplit(points: seq<SplitPoint>, pageCount: nat, nameOf: (string, nat) -> string)
    requires points != [] && StrictlyIncreasing(points) && AllBelow(points, pageCount)
    requires DistinctByPage(nameOf)
    ensures NamedSplit(points, pageCount,
              PageNamedFiles(AdjacentSections(WithSentinel(points, EndTitle, pageCount)), nameOf), nameOf)
  {
    var files := PageNamedFiles(AdjacentSections(WithSentinel(points, EndTitle, pageCount)), nameOf);
    PageNamedFilesShape(points, pageCount, nameOf);
    PointFilesCover(points, pageCount, files);
    forall k, l | 0 <= k < l < |files| ensures files[k].name != files[l].name {
      assert points[k].startPage < points[l].startPage;
    }
  }

  /** `split_pdf_by_content`: "nothing found" exactly when no page has a
      heading; otherwise the points are the heading pages in order, each with
      its page's first heading as title, and the files are their
      `NamedSplit` under the `Page_` names. */
  method SplitPdfByContent(pages: seq<Option<string>>, matchLine: string -> Option<string>,
                           normalize: string -> string, isSpace: char -> bool)
    returns (outcome: SplitOutcome)
    ensures outcome.NothingFound? <==> forall i :: 0 <= i < |pages| ==> Hits(pages, matchLine, isSpace)[i].None?
    ensures outcome.NothingFound? || outcome.Split?
    ensures outcome.Split? ==>
      var points := PagePoints(Hits(pages, matchLine, isSpace));
      && points != []
      && StrictlyIncreasing(points)
      && (forall k :: 0 <= k < |points| ==>
            points[k].startPage < |pages| && Hits(pages, matchLine, isSpace)[points[k].startPage] == Some(points[k].title))
      && NamedSplit(points, |pages|, outcome.files, PageName(normalize, isSpace))
  {
    var points := CollectSplitPoints(pages, matchLine, isSpace);
    ghost var hits := Hits(pages, matchLine, isSpace);
    PagePointsEmpty(hits);
    if points == [] {
      return NothingFound;
    }
    var files := WriteSections(points, |pages|, PageName(normalize, isSpace));
    PagePointsSound(hits);
    PageNameDistinct(normalize, isSpace);
    NamedFilesSplit(points, |pages|, PageName(normalize, isSpace));
    outcome := Split(files);
  }
}

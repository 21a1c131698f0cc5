/** The PyPDF2 splitter that cuts a document at title lines: every page's
    text is split into lines, the first stripped line the title pattern
    accepts becomes that page's split point, a sentinel "END" at the page
    count closes the last section, and each section's pages are copied one
    by one into `<title>.pdf` with spaces, slashes and colons rewritten. The
    title pattern is the parameter `matchLine`; a page whose text cannot be
    extracted is `None`, and its exception ends the whole run. */
module ContentBased {
  import opened Wrappers
  import opened Text
  import opened Sections

  const EndTitle: string := "END"

  predicate NotColon(c: char) {
    c != ':'
  }

  /** The first line that, once stripped, the title pattern accepts; the
      title is that stripped line. */
  function FirstTitleLine(lines: seq<string>, matchLine: string -> bool, isSpace: char -> bool): Option<string>
  {
    if lines == [] then None
    else if matchLine(Strip(lines[0], isSpace)) then Some(Strip(lines[0], isSpace))
    else FirstTitleLine(lines[1..], matchLine, isSpace)
  }

  /** A title is found exactly when some stripped line is accepted, and it
      is the first such line, stripped. */
  lemma {:induction false} FirstTitleLineSpec(lines: seq<string>, matchLine: string -> bool, isSpace: char -> bool)
    ensures var r := FirstTitleLine(lines, matchLine, isSpace);
      && (r.Some? <==> exists j :: 0 <= j < |lines| && matchLine(Strip(lines[j], isSpace)))
      && (r.Some? ==> exists j :: 0 <= j < |lines| && matchLine(Strip(lines[j], isSpace))
                        && (forall k :: 0 <= k < j ==> !matchLine(Strip(lines[k], isSpace)))
                        && r.value == Strip(lines[j], isSpace))
  {
    if lines != [] && !matchLine(Strip(lines[0], isSpace)) {
      var tail := lines[1..];
      FirstTitleLineSpec(tail, matchLine, isSpace);
      assert forall j :: 1 <= j < |lines| ==> tail[j - 1] == lines[j];
      var r := FirstTitleLine(tail, matchLine, isSpace);
      if r.Some? {
        var j :| 0 <= j < |tail| && matchLine(Strip(tail[j], isSpace))
                 && (forall k :: 0 <= k < j ==> !matchLine(Strip(tail[k], isSpace)))
                 && r.value == Strip(tail[j], isSpace);
        assert matchLine(Strip(lines[j + 1], isSpace));
      }
    }
  }

  /** What a page contributes: the first title line of its text (nothing
      for a page whose extraction raises; the run stops there anyway). */
  function PageTitle(page: Option<string>, matchLine: string -> bool, isSpace: char -> bool): Option<string>
  {
    match page
    case None => None
    case Some(text) => FirstTitleLine(SplitLines(text), matchLine, isSpace)
  }

  /** `TitleHits(pages, ...)[i]` is `PageTitle(pages[i], ...)`. */
  function TitleHits(pages: seq<Option<string>>, matchLine: string -> bool, isSpace: char -> bool): (r: seq<Option<string>>)
    ensures |r| == |pages|
  {
    seq(|pages|, i requires 0 <= i < |pages| => PageTitle(pages[i], matchLine, isSpace))
  }

  /** The inner scan of lines 55-62: the page's lines in order, stripped;
      the first one the pattern accepts is the page's title and ends the scan. */
  method ScanPage(text: string, matchLine: string -> bool, isSpace: char -> bool)
    returns (title: Option<string>)
    ensures title == PageTitle(Some(text), matchLine, isSpace)
  {
    var lines := SplitLines(text);
    assert PageTitle(Some(text), matchLine, isSpace) == FirstTitleLine(lines, matchLine, isSpace);
    var j := 0;
    while j < |lines|
      invariant 0 <= j <= |lines|
      invariant FirstTitleLine(lines[j..], matchLine, isSpace) == FirstTitleLine(lines, matchLine, isSpace)
    {
      var line := Strip(lines[j], isSpace);
      if matchLine(line) {
        return Some(line);
      }
      assert lines[j..][1..] == lines[j + 1..];
      j := j + 1;
    }
    assert lines[j..] == [];
    return None;
  }

  /** The body of the page loop, lines 53-62, on a page whose text was
      extracted: its first title line, if any, is appended as a split point. */
  method ScanPageAt(pages: seq<Option<string>>, i: nat, points: seq<SplitPoint>,
                    matchLine: string -> bool, isSpace: char -> bool)
    returns (next: seq<SplitPoint>)
    requires i < |pages| && pages[i].Some?
    requires points == PointsBefore(TitleHits(pages, matchLine, isSpace), i)
    ensures next == PointsBefore(TitleHits(pages, matchLine, isSpace), i + 1)
  {
    var title := ScanPage(pages[i].value, matchLine, isSpace);
    next := if title.Some? then points + [SplitPoint(title.value, i)] else points;
  }

  /** The scan of lines 52-62: pages in order, each page's first title line
      appended as a split point; a page whose text cannot be extracted stops
      the scan with `ok` false. */
  method CollectTitlePoints(pages: seq<Option<string>>, matchLine: string -> bool, isSpace: char -> bool)
    returns (points: seq<SplitPoint>, ok: bool)
    ensures ok <==> None !in pages
    ensures ok ==> points == PagePoints(TitleHits(pages, matchLine, isSpace))
  {
    points := [];
    var i := 0;
    while i < |pages|
      invariant 0 <= i <= |pages|
      invariant forall k :: 0 <= k < i ==> pages[k].Some?
      invariant points == PointsBefore(TitleHits(pages, matchLine, isSpace), i)
    {
      if pages[i].None? {
        return points, false;
      }
      points := ScanPageAt(pages, i, points, matchLine, isSpace);
      i := i + 1;
    }
    ok := true;
  }

  /** `title.replace(' ', '_').replace('/', '-').replace(':', '')`. */
  function ContentStem(title: string): string
  {
    Filter(ReplaceChar(ReplaceChar(title, ' ', '_'), '/', '-'), NotColon)
  }

  /** The three replacements leave no space, slash or colon in the stem. */
  lemma ContentStemClean(title: string)
    ensures forall i :: 0 <= i < |ContentStem(title)| ==>
              ContentStem(title)[i] != ' ' && ContentStem(title)[i] != '/' && ContentStem(title)[i] != ':'
  {
    var replaced := ReplaceChar(ReplaceChar(title, ' ', '_'), '/', '-');
    var stem := ContentStem(title);
    FilterShape(replaced, NotColon);
    forall i | 0 <= i < |stem| ensures stem[i] != ' ' && stem[i] != '/' && stem[i] != ':' {
      assert stem[i] in stem;
      var k :| 0 <= k < |replaced| && replaced[k] == stem[i];
    }
  }

  /** The colons go last, but the other two replacements neither make nor
      remove a colon: the stem is the title without its colons, with each
      space turned into an underscore and each slash into a dash. */
  lemma ContentStemMap(title: string)
    ensures |ContentStem(title)| == |Filter(title, NotColon)|
    ensures forall i :: 0 <= i < |ContentStem(title)| ==>
              var c := Filter(title, NotColon)[i];
              ContentStem(title)[i] == (if c == ' ' then '_' else if c == '/' then '-' else c)
  {
    FilterReplaceChar(ReplaceChar(title, ' ', '_'), '/', '-', NotColon);
    FilterReplaceChar(title, ' ', '_', NotColon);
  }

  /** The file name `f"{...}.pdf"` of a section: it ends in `.pdf`; before it
      stand the title's characters other than colons, in order, with each
      space turned into an underscore and each slash into a dash, so it
      holds no space, slash or colon. */
  function ContentFilename(title: string): (r: string)
    ensures EndsWith(r, ".pdf")
    ensures |r| == |Filter(title, NotColon)| + 4
    ensures forall i :: 0 <= i < |r| - 4 ==>
              var c := Filter(title, NotColon)[i];
              r[i] == (if c == ' ' then '_' else if c == '/' then '-' else c)
    ensures forall i :: 0 <= i < |r| - 4 ==> r[i] != ' ' && r[i] != '/' && r[i] != ':'
  {
    var stem := ContentStem(title);
    ContentStemClean(title);
    ContentStemMap(title);
    assert (stem + ".pdf")[|stem|..] == ".pdf";
    assert forall i :: 0 <= i < |stem| ==> (stem + ".pdf")[i] == stem[i];
    stem + ".pdf"
  }

  /** A title with no space, slash or colon is used as it is. */
  lemma ContentFilenameKeepsPlainTitle(title: string)
    requires forall i :: 0 <= i < |title| ==> title[i] != ' ' && title[i] != '/' && title[i] != ':'
    ensures ContentFilename(title) == title + ".pdf"
  {
    assert ReplaceChar(title, ' ', '_') == title;
    assert ReplaceChar(title, '/', '-') == title;
    FilterAccepted(title, NotColon);
  }

  /** `split_pdf_by_content`: a page whose text cannot be extracted ends the
      run before anything is written; otherwise "nothing found" exactly when
      no page has a title line; otherwise every page with a title line starts
      one section, in page order, and every section is written. */
  method SplitPdfByContent(pages: seq<Option<string>>, matchLine: string -> bool, isSpace: char -> bool)
    returns (outcome: SplitOutcome)
    ensures outcome.Failed? <==> None in pages
    ensures outcome.Failed? ==> outcome.written == []
    ensures outcome.NothingFound? <==>
              None !in pages && forall i :: 0 <= i < |pages| ==> TitleHits(pages, matchLine, isSpace)[i].None?
    ensures outcome.Split? ==>
      var points := PagePoints(TitleHits(pages, matchLine, isSpace));
      && points != []
      && StrictlyIncreasing(points)
      && (forall k :: 0 <= k < |points| ==>
            points[k].startPage < |pages| && TitleHits(pages, matchLine, isSpace)[points[k].startPage] == Some(points[k].title))
      && CopiedSplit(points, |pages|, outcome.files, ContentFilename)
  {
    var points, ok := CollectTitlePoints(pages, matchLine, isSpace);
    if !ok {
      return Failed([]);
    }
    ghost var hits := TitleHits(pages, matchLine, isSpace);
    PagePointsEmpty(hits);
    if points == [] {
      return NothingFound;
    }
    var bounded := points + [SplitPoint(EndTitle, |pages|)];
    outcome := CopySections(bounded, |pages|, ContentFilename);
    PagePointsSound(hits);
    assert Ascending(points);
    CopiedSplitInside(points, EndTitle, |pages|, ContentFilename);
    assert bounded == WithSentinel(points, EndTitle, |pages|);
  }
}

/** The PyMuPDF splitter whose titles carry context: on each page the first
    "PART"/"Chapter" prefix found in the page text is followed by a
    description taken from the text right after it, the two together form
    the section title, and the sections are cut and named exactly as by the
    parts-and-chapters splitter. The prefix search is the parameter `search`:
    it returns the matched text (`match.group(0)`) and the page text after
    the match (`text[match.end():]`), or `None` when nothing matches. */
module ContextualTitles {
  import opened Wrappers
  import opened Text
  import opened Sections
  import opened SafeNames
  import PartsChapters

  /** What the prefix search reports: the matched text and what follows it. */
  datatype PrefixMatch = PrefixMatch(matched: string, after: string)

  /** The longest description `(.{1,150})` may take. */
  const MaxDescription: nat := 150

  /** Where the lookahead `(?=\n|$)` holds: at the end of the text or in
      front of a newline (`$` without MULTILINE also holds in front of a
      final newline, which the newline case already covers). */
  predicate Boundary(text: string, k: nat)
    requires k <= |text|
  {
    k == |text| || text[k] == '\n'
  }

  /** The greedy `.{1,k}` followed by the lookahead: the largest length from
      k down to 1 at which the lookahead holds. */
  function LongestSpan(text: string, k: nat): (r: Option<nat>)
    requires k <= |text|
    ensures r.Some? ==> 1 <= r.value <= k && Boundary(text, r.value)
    ensures r.Some? ==> forall j :: r.value < j <= k ==> !Boundary(text, j)
    ensures r.None? <==> forall j :: 1 <= j <= k ==> !Boundary(text, j)
  {
    if k == 0 then None
    else if Boundary(text, k) then Some(k)
    else LongestSpan(text, k - 1)
  }

  /** `re.match(r'(.{1,150})(?=\n|$)', text, re.DOTALL)`: the length of
      `group(1)`, or `None` when there is no match. DOTALL lets the span run
      over newlines, so it is the longest prefix of at most 150 characters
      that ends at a newline or at the end of the text. */
  function DescriptionSpan(text: string): (r: Option<nat>)
    ensures r.Some? ==> 1 <= r.value <= MaxDescription && r.value <= |text| && Boundary(text, r.value)
    ensures r.Some? ==> forall j :: r.value < j <= |text| && j <= MaxDescription ==> !Boundary(text, j)
    ensures r.None? <==> forall j :: 1 <= j <= |text| && j <= MaxDescription ==> !Boundary(text, j)
  {
    LongestSpan(text, if |text| <= MaxDescription then |text| else MaxDescription)
  }

  /** A non-empty text of at most 150 characters is taken whole: the span is
      not cut at the first newline. */
  lemma DescriptionTakesShortText(text: string)
    requires 1 <= |text| <= MaxDescription
    ensures DescriptionSpan(text) == Some(|text|)
  {
  }

  /** The description of lines 77-85: the text after the prefix, stripped;
      its matched span with every white-space run turned into one space,
      stripped again; empty when the span does not match. */
  function Description(after: string, isSpace: char -> bool): string
  {
    var rest := Strip(after, isSpace);
    match DescriptionSpan(rest)
    case None => ""
    case Some(k) => Strip(CollapseRuns(rest[..k], isSpace, ' '), isSpace)
  }

  /** The description holds at most 150 characters, starts and ends with no
      white space, its only white space is single spaces, never two in a row. */
  lemma DescriptionShape(after: string, isSpace: char -> bool)
    ensures var d := Description(after, isSpace);
      && |d| <= MaxDescription
      && (d == [] || (!isSpace(d[0]) && !isSpace(d[|d| - 1])))
      && (forall i :: 0 <= i < |d| && isSpace(d[i]) ==> d[i] == ' ')
      && (forall i :: 0 <= i < |d| - 1 && isSpace(d[i]) ==> !isSpace(d[i + 1]))
  {
    var rest := Strip(after, isSpace);
    match DescriptionSpan(rest)
    case None =>
    case Some(k) =>
      var c := CollapseRuns(rest[..k], isSpace, ' ');
      CollapseRunsReplaces(rest[..k], isSpace, ' ');
      CollapseRunsSeparated(rest[..k], isSpace, ' ');
      StripShape(c, isSpace);
      StripCollapsed(c, isSpace);
  }

  /** Two words with a run of white space between them, short enough to be
      taken whole, describe as the two words joined by one space. */
  lemma {:induction false} DescriptionJoinsWords(a: string, w: string, b: string, isSpace: char -> bool)
    requires isSpace(' ')
    requires a != [] && forall i :: 0 <= i < |a| ==> !isSpace(a[i])
    requires w != [] && forall i :: 0 <= i < |w| ==> isSpace(w[i])
    requires b != [] && forall i :: 0 <= i < |b| ==> !isSpace(b[i])
    requires |a| + |w| + |b| <= MaxDescription
    ensures Description(a + w + b, isSpace) == a + " " + b
  {
    var after := a + w + b;
    assert after[0] == a[0] && after[|after| - 1] == b[|b| - 1];
    StripClean(after, isSpace);
    DescriptionTakesShortText(after);
    assert after[..|after|] == after;
    CollapseRunsLaw(a, w, b, isSpace, ' ');
    CollapseRunsNoSpace(a, isSpace, ' ');
    CollapseRunsNoSpace(b, isSpace, ' ');
    var joined := a + " " + b;
    assert joined[0] == a[0] && joined[|joined| - 1] == b[|b| - 1];
    StripClean(joined, isSpace);
  }

  /** Stripping keeps a text's white space single spaces that never follow
      each other. */
  lemma StripCollapsed(c: string, isSpace: char -> bool)
    requires forall i :: 0 <= i < |c| && isSpace(c[i]) ==> c[i] == ' '
    requires forall i :: 0 <= i < |c| - 1 && isSpace(c[i]) ==> !isSpace(c[i + 1])
    ensures var d := Strip(c, isSpace);
      && |d| <= |c|
      && (forall i :: 0 <= i < |d| && isSpace(d[i]) ==> d[i] == ' ')
      && (forall i :: 0 <= i < |d| - 1 && isSpace(d[i]) ==> !isSpace(d[i + 1]))
  {
    var d := Strip(c, isSpace);
    var a := StripOffset(c, isSpace);
    StripShape(c, isSpace);
    assert forall i :: 0 <= i < |d| ==> d[i] == c[a + i];
  }

  /** Line 88: the prefix, then a space and the description when there is one. */
  function ComposeTitle(prefix: string, description: string): string
  {
    if description != "" then prefix + " " + description else prefix
  }

  /** The description back out of a composed title, given the prefix length:
      whatever follows the prefix and its space. */
  function DescriptionOfTitle(title: string, prefixLength: nat): string
  {
    if |title| <= prefixLength then "" else title[prefixLength + 1..]
  }

  /** A composed title starts with the prefix, is the bare prefix exactly
      when the description is empty, and gives the description back. */
  lemma ComposeTitleParts(prefix: string, description: string)
    ensures var title := ComposeTitle(prefix, description);
      && |title| >= |prefix| && title[..|prefix|] == prefix
      && (title == prefix <==> description == "")
      && (description != "" ==> title[|prefix|] == ' ')
      && DescriptionOfTitle(title, |prefix|) == description
  {
    var title := ComposeTitle(prefix, description);
    if description != "" {
      assert title[|prefix| + 1..] == description;
      assert |title| > |prefix|;
    }
  }

  /** What a page contributes: nothing when its text could not be extracted
      (`None`) or is empty, or when the prefix is not found; otherwise the
      stripped prefix composed with the description after it. */
  function PageTitle(page: Option<string>, search: string -> Option<PrefixMatch>, isSpace: char -> bool): Option<string>
  {
    match page
    case None => None
    case Some(text) =>
      if text == "" then None
      else
        match search(text)
        case None => None
        case Some(m) => Some(ComposeTitle(Strip(m.matched, isSpace), Description(m.after, isSpace)))
  }

  /** `TitleHits(pages, ...)[i]` is `PageTitle(pages[i], ...)`. */
  function TitleHits(pages: seq<Option<string>>, search: string -> Option<PrefixMatch>, isSpace: char -> bool): (r: seq<Option<string>>)
    ensures |r| == |pages|
  {
    seq(|pages|, i requires 0 <= i < |pages| => PageTitle(pages[i], search, isSpace))
  }

  /** The scan of lines 57-95: pages in order, skipping pages whose text
      raised or is empty; a found prefix gives a title that is appended
      under the guard "no point yet or the last one is on another page",
      which always holds. */
  method CollectSplitPoints(pages: seq<Option<string>>, search: string -> Option<PrefixMatch>, isSpace: char -> bool)
    returns (points: seq<SplitPoint>)
    ensures points == PagePoints(TitleHits(pages, search, isSpace))
  {
    ghost var hits := TitleHits(pages, search, isSpace);
    points := [];
    for i := 0 to |pages|
      invariant points == PointsBefore(hits, i)
      invariant points == [] || points[|points| - 1].startPage < i
    {
      assert hits[i] == PageTitle(pages[i], search, isSpace);
      if pages[i].Some? && pages[i].value != "" {
        var text := pages[i].value;
        var m := search(text);
        if m.Some? {
          var matchedPrefix := Strip(m.value.matched, isSpace);
          var descriptionText := Description(m.value.after, isSpace);
          var fullTitle := ComposeTitle(matchedPrefix, descriptionText);
          assert PageTitle(pages[i], search, isSpace) == Some(fullTitle);
          if points == [] || points[|points| - 1].startPage != i {
            points := points + [SplitPoint(fullTitle, i)];
          } else {
            assert false;
          }
        }
      }
    }
  }

  /** `split_pdf_by_content`: "nothing found" exactly when no page has a
      prefix; otherwise the points are the pages with a prefix in order,
      titled by their composed titles, and the files are written as by the
      parts-and-chapters splitter, with the same sentinel and names. */
  method SplitPdfByContent(pages: seq<Option<string>>, search: string -> Option<PrefixMatch>,
                           normalize: string -> string, isSpace: char -> bool)
    returns (outcome: SplitOutcome)
    ensures outcome.NothingFound? <==> forall i :: 0 <= i < |pages| ==> TitleHits(pages, search, isSpace)[i].None?
    ensures outcome.NothingFound? || outcome.Split?
    ensures outcome.Split? ==>
      var points := PagePoints(TitleHits(pages, search, isSpace));
      && points != []
      && StrictlyIncreasing(points)
      && (forall k :: 0 <= k < |points| ==>
            points[k].startPage < |pages| && TitleHits(pages, search, isSpace)[points[k].startPage] == Some(points[k].title))
      && PartsChapters.NamedSplit(points, |pages|, outcome.files, PartsChapters.PageName(normalize, isSpace))
  {
    var points := CollectSplitPoints(pages, search, isSpace);
    ghost var hits := TitleHits(pages, search, isSpace);
    PagePointsEmpty(hits);
    if points == [] {
      return NothingFound;
    }
    var files := PartsChapters.WriteSections(points, |pages|, PartsChapters.PageName(normalize, isSpace));
    PagePointsSound(hits);
    PartsChapters.PageNameDistinct(normalize, isSpace);
    PartsChapters.NamedFilesSplit(points, |pages|, PartsChapters.PageName(normalize, isSpace));
    outcome := Split(files);
  }
}

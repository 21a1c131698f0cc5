# PDF splitters and bookmarkers: a Dafny model of the section logic

The repository is a set of Python scripts. Four of them split a PDF into
one file per section and two add bookmarks suggested by Gemini. This
project models the part of those scripts that carries the logic:

- the scan that finds split points page by page;
- the early "nothing found" return;
- the sentinel at the page count;
- the half-open sections between adjacent split points;
- the page-by-page copy;
- how file names are made;
- the filter that turns the model's title-to-page mapping into outline
  entries.

The PDF libraries, the dialogs and the AI services are left out. The
headings matcher, the white-space class, the Unicode normalisation, the
JSON parser and the bookmark resolution are parameters.

A document is a sequence of page texts. `None` marks a page whose text
extraction raised.

The files:

- `wrappers.dfy`: the `Option` type.
- `text.dfy`: the Python string operations the scripts use (`strip`,
  `re.sub(r'\s+', …)`, `split('\n')`, `replace`, `endswith`,
  `os.path.basename`).
- `sections.dfy`: what every splitter shares:
  - `PagePoints`, one split point per page that has a hit, in page order;
  - the sentinel and `AdjacentSections`;
  - the page-by-page copy loop of the PyPDF2 scripts, which fails with
    `IndexError` past the last page.
- `safe_names.dfy`: the PyMuPDF scripts' sanitised title and the
  `Page_%04d_<title>.pdf` name.
- `parts_chapters.dfy`: `pdf_split_PyMuPDF_only_parts_chapters.py`.
- `contextual_titles.dfy`: `pdf_split_final.py`, which adds the prefix and
  description title.
- `content_based.dfy`: `pdf_split_content_based.py`.
- `bookmark_split.dfy`: `pdf_split_direct.py`, which flattens the outline and
  sorts stably.
- `outline_entries.dfy`: the in-range filter shared by both Gemini scripts.
- `langchain_bookmarks.dfy`: `pdf_split_langchain+gemini.py`.
- `batch_bookmarks.dfy`: `pdf_split_ai.py`.

Scans and loops that mutate lists in the source are methods with loops and
invariants. Each such method is proved equal to a specification function,
and the properties are lemmas about those functions.

The section loop of the PyMuPDF scripts, `PartsChapters.WriteSections`,
takes the file-name function as an argument. Both scripts pass
`PartsChapters.PageName`, the `Page_%04d_<title>.pdf` naming, so the
results about the loop hold for any naming, and the proof that names are
distinct is made once for the `Page_` naming.

The model follows the code as written:

- The first section starts at the first split page, not at page 0.
- The bookmark splitter neither deduplicates bookmarks on the same page nor
  skips empty sections. It writes an empty file
  (`BookmarkSplit.SamePageGivesEmptyFile`).
- In the content-based splitter, a page whose text extraction raises ends
  the whole run, because the exception reaches the outer handler.
- In the PyMuPDF scripts, the "skip empty section" branch and the
  "same page" guard can never trigger. The model keeps both and proves them
  dead.

## Model

| member | source | states |
|---|---|---|
| `Text.TrimStartShape` | pdf_split_PyMuPDF_only_parts_chapters.py:80 | leading strip: the result is a suffix of the input that is empty or starts with a kept character, and everything cut away was dropped |
| `Text.TrimEndShape` | pdf_split_PyMuPDF_only_parts_chapters.py:80 | trailing strip: the result is a prefix of the input that is empty or ends with a kept character, and everything cut away was dropped |
| `Text.StripShape` | pdf_split_PyMuPDF_only_parts_chapters.py:80 | the result neither starts nor ends with a dropped character; it is the slice of the input starting at the first kept character; everything cut away was dropped |
| `Text.Strip` | pdf_split_PyMuPDF_only_parts_chapters.py:80 | `strip(chars)`; no contract of its own: `StripShape`, `StripClean` and `StripAround` give its properties |
| `Text.StripClean` | pdf_split_PyMuPDF_only_parts_chapters.py:123 | a string with no dropped character at either end is its own strip |
| `Text.StripAround` | pdf_split_langchain+gemini.py:76 | stripping removes exactly the dropped characters around a body that starts and ends with kept ones |
| `Text.Filter` | pdf_split_PyMuPDF_only_parts_chapters.py:122 | never longer than its input; the rest is given by `FilterShape`, `FilterAccepted`, `FilterRejected`, `FilterAppend` (which fixes the order of the kept characters) and `FilterReplaceChar` |
| `Text.FilterShape` | pdf_split_PyMuPDF_only_parts_chapters.py:122 | only kept characters remain; a character is in the result iff it is in the input and kept |
| `Text.FilterAccepted` | pdf_split_PyMuPDF_only_parts_chapters.py:122 | a string whose characters are all kept is unchanged |
| `Text.FilterAppend` | pdf_split_PyMuPDF_only_parts_chapters.py:122 | the filter of a concatenation is the filter of the first part followed by that of the second, so the kept characters stay in input order |
| `Text.FilterRejected` | pdf_split_PyMuPDF_only_parts_chapters.py:122 | a string whose every character is rejected filters to nothing |
| `Text.CollapseRuns` | pdf_split_PyMuPDF_only_parts_chapters.py:121 | never longer than its input; the rest is given by `CollapseRunsReplaces`, `CollapseRunsSeparated`, `CollapseRunsNoSpace`, `CollapseRunsShape`, `CollapseRunsLaw` and `CollapseRunsKeeps` |
| `Text.CollapseRunsFirst` | pdf_split_PyMuPDF_only_parts_chapters.py:121 | a character that is not white space is kept in front of the collapse of the rest |
| `Text.CollapseRunsReplaces` | pdf_split_PyMuPDF_only_parts_chapters.py:121 | every white-space character of the result is the replacement |
| `Text.CollapseRunsSeparated` | pdf_split_PyMuPDF_only_parts_chapters.py:121 | no two white-space characters of the result are adjacent |
| `Text.CollapseRunsNoSpace` | pdf_split_PyMuPDF_only_parts_chapters.py:121 | a string with no white space is unchanged |
| `Text.CollapseRunsShape` | pdf_split_PyMuPDF_only_parts_chapters.py:121 | every white-space character of the result is the replacement; no two white-space characters are adjacent; a string with no white space is unchanged |
| `Text.CollapseRunsAppend` | pdf_split_PyMuPDF_only_parts_chapters.py:121 | after a character that is not white space, no run crosses the boundary: the collapse of a concatenation is the collapse of its parts |
| `Text.CollapseRunsRun` | pdf_split_PyMuPDF_only_parts_chapters.py:121 | a non-empty run of white space in front of a string that does not start with white space becomes exactly one replacement |
| `Text.CollapseRunsLaw` | pdf_split_PyMuPDF_only_parts_chapters.py:121 | a maximal white-space run between two parts becomes exactly one replacement, the parts being collapsed on their own: `p + run + q` gives `collapse(p) + [repl] + collapse(q)` |
| `Text.FilterReplaceChar` | pdf_split_content_based.py:84 | replacing a character by one the filter treats alike commutes with the filter |
| `Text.CollapseRunsKeeps` | pdf_split_PyMuPDF_only_parts_chapters.py:121 | every character that is neither white space nor the replacement survives, in order |
| `Text.SplitLines` | pdf_split_PyMuPDF_only_parts_chapters.py:78 | `split('\n')`: at least one piece; the rest is given by `SplitLinesPieces` and `SplitThenJoin` |
| `Text.SplitLinesPieces` | pdf_split_PyMuPDF_only_parts_chapters.py:78 | no piece contains a newline |
| `Text.SplitThenJoin` | pdf_split_PyMuPDF_only_parts_chapters.py:78 | joining the pieces with newlines gives back the text |
| `Text.ReplaceChar` | pdf_split_content_based.py:84 | same length; each occurrence of the character is replaced and every other character is kept |
| `Text.Basename` | pdf_split_langchain+gemini.py:103 | a suffix of the path with no `/`, preceded by a `/` when shorter than the path |
| `Text.BasenameOfFile` | pdf_split_langchain+gemini.py:103 | the base name of a folder, a `/` and a name without `/` is that name |
| `Text.EndsWith` | pdf_split_ai.py:38 | `str.endswith`; a predicate with no contract, used by `PdfFiles` and `PdfFilesAppend` |
| `Sections.Range` | pdf_split_content_based.py:79 | `range(start, end)`: length `end - start` (or 0), element k is `start + k` |
| `Sections.PagePoints` | pdf_split_PyMuPDF_only_parts_chapters.py:69-92 | one split point per page with a hit, in page order; no contract of its own: `PagePointsSound`, `PagePointsComplete` and `PagePointsEmpty` give its properties |
| `Sections.PointsBeforeSound` | pdf_split_PyMuPDF_only_parts_chapters.py:69-88 | after the first n pages, the recorded pages strictly increase and are below n, and each point is its page's hit |
| `Sections.PointsBeforeComplete` | pdf_split_PyMuPDF_only_parts_chapters.py:79-88 | after the first n pages, every page before n with a hit has contributed a point |
| `Sections.PagePointsSound` | pdf_split_PyMuPDF_only_parts_chapters.py:69-88 | split pages strictly increase and are below the page count; each point is its page's hit, so a page has at most one point |
| `Sections.PagePointsComplete` | pdf_split_PyMuPDF_only_parts_chapters.py:79-88 | every page with a hit contributes a point |
| `Sections.PagePointsEmpty` | pdf_split_PyMuPDF_only_parts_chapters.py:94-96 | there are no points iff no page has a hit |
| `Sections.AdjacentSections` | pdf_split_PyMuPDF_only_parts_chapters.py:102-105 | the sections between adjacent points; no contract of its own: `SectionAt`, `SectionsContiguous`, `SectionsNonEmpty` and `SectionsCover` give its properties |
| `Sections.SectionsContiguous` | pdf_split_PyMuPDF_only_parts_chapters.py:99-105 | one section per point, titled by it; consecutive sections share a boundary; the first starts at the first point; the last ends at the page count |
| `Sections.SectionAt` | pdf_split_PyMuPDF_only_parts_chapters.py:99-105 | section i has point i's title and runs from point i's page to the next point's page, or to the page count for the last point |
| `Sections.WithSentinel` | pdf_split_PyMuPDF_only_parts_chapters.py:99 | the final split point at the page count (the same append is at pdf_split_final.py line 101, and with the title `'END'` at pdf_split_content_based.py line 69 and pdf_split_direct.py line 79); no contract of its own: `SectionAt` and `SectionsCover` give its properties |
| `Sections.SectionsNonEmpty` | pdf_split_PyMuPDF_only_parts_chapters.py:111 | for strictly increasing points below the page count, every section has at least one page |
| `Sections.SectionsCover` | pdf_split_PyMuPDF_only_parts_chapters.py:99-117 | for ascending points up to the page count, the sections' pages are exactly `range(first point, page count)`, each once and in order |
| `Sections.FilePagesOfSections` | pdf_split_PyMuPDF_only_parts_chapters.py:113-116 | files holding the sections' ranges one for one hold all the sections' pages together |
| `Sections.PointFilesCover` | pdf_split_content_based.py:69-81 | files that hold, one for one, the pages from each point to the next (or the end) together hold `range(first point, page count)`, each page once and in order |
| `Sections.CopiedFiles` | pdf_split_content_based.py:71-89 | the page-by-page copy of every section; no contract of its own: `CopiedFilesInside`, `CopiedFailureStays`, `CopiedSplitInside` and `CopySections` give its properties |
| `Sections.CopiedFilesInside` | pdf_split_content_based.py:71-89 | sections inside the document are all written, one file each, with the section's pages in order |
| `Sections.CopiedFailureStays` | pdf_split_direct.py:86-97 | after the first IndexError, later sections change nothing: the files already saved are the result |
| `Sections.CopyPageRange` | pdf_split_content_based.py:79-81 | succeeds iff the range does not reach past the last page, and then copies exactly `range(start, end)` |
| `Sections.CopySections` | pdf_split_content_based.py:71-89 | the section loop's result is the `CopiedFiles` specification of its adjacent pairs |
| `Sections.CopiedSplitInside` | pdf_split_content_based.py:69-89 | for ascending points up to the page count, the copy loop writes file k named after point k with the pages up to the next point, and the files hold `range(first point, page count)` |
| `SafeNames.SafeTitle` | pdf_split_PyMuPDF_only_parts_chapters.py:120-124 | the sanitised title; no contract of its own: `SafeTitleShape` and `SafeTitleKeepsSafe` give its properties |
| `SafeNames.SafeTitleShape` | pdf_split_PyMuPDF_only_parts_chapters.py:120-124 | the safe title has only `[A-Za-z0-9_-]`, at most 90 characters, and no leading underscore, whatever the title |
| `SafeNames.SafeTitleKeepsSafe` | pdf_split_PyMuPDF_only_parts_chapters.py:120-124 | an already safe title that the normalisation leaves alone is its own safe title |
| `SafeNames.StripAllowed` | pdf_split_PyMuPDF_only_parts_chapters.py:123-124 | stripping underscores and cutting leaves only allowed characters and no leading underscore |
| `SafeNames.ParseDecimalOfDecimal` | pdf_split_PyMuPDF_only_parts_chapters.py:127 | reading back the decimal digits of n gives n |
| `SafeNames.Padded4` | pdf_split_PyMuPDF_only_parts_chapters.py:127 | `{n:04d}`: all digits, their value is n, exactly four of them when n < 10000, and no leading zero when there are more than four |
| `SafeNames.PageFilename` | pdf_split_PyMuPDF_only_parts_chapters.py:126-130 | the `Page_%04d_<title>.pdf` name; no contract of its own: `PageFilenameShape` and `PageFilenamesDistinct` give its properties |
| `SafeNames.PageFilenameShape` | pdf_split_PyMuPDF_only_parts_chapters.py:126-130 | the name is `Page_`, the padded page, `_`, a safe title and `.pdf` |
| `SafeNames.DigitPrefixUnique` | pdf_split_PyMuPDF_only_parts_chapters.py:130 | digits followed by `_`: the position of the underscore fixes the digits |
| `SafeNames.PageFilenamesDistinct` | pdf_split_PyMuPDF_only_parts_chapters.py:127-130 | different start pages give different file names, whatever the titles |
| `PartsChapters.FirstHeading` | pdf_split_PyMuPDF_only_parts_chapters.py:78-88 | the page's first heading; no contract of its own: `FirstHeadingSpec` gives its properties and `ScanPage` computes it |
| `PartsChapters.PageHit` | pdf_split_PyMuPDF_only_parts_chapters.py:70-88 | what a page contributes: nothing when its text raised or is empty, else its first heading; no contract of its own: `CollectSplitPoints` uses it through `PagePoints` |
| `PartsChapters.FirstHeadingSpec` | pdf_split_PyMuPDF_only_parts_chapters.py:79-88 | a heading exists iff some stripped line matches; it is the stripped match of the first such line |
| `PartsChapters.ScanPage` | pdf_split_PyMuPDF_only_parts_chapters.py:78-88 | the line loop with its break yields the page's first heading |
| `PartsChapters.ScanPageAt` | pdf_split_PyMuPDF_only_parts_chapters.py:70-88 | one page of the scan extends the points recorded so far to those of one more page; the same-page guard always holds |
| `PartsChapters.CollectSplitPoints` | pdf_split_PyMuPDF_only_parts_chapters.py:65-92 | the scan, with its same-page guard, yields exactly `PagePoints` of the page hits (the guard always holds) |
| `PartsChapters.NoSectionSkipped` | pdf_split_PyMuPDF_only_parts_chapters.py:111-136 | when no section is empty, file i is section i's file |
| `PartsChapters.WriteSections` | pdf_split_PyMuPDF_only_parts_chapters.py:98-138 | the section loop writes exactly the non-empty sections, in order, each under the name its title and start page are given |
| `PartsChapters.PageNameDistinct` | pdf_split_PyMuPDF_only_parts_chapters.py:127-130 | the `Page_` naming gives sections with different start pages different names |
| `PartsChapters.PageNamedFiles` | pdf_split_PyMuPDF_only_parts_chapters.py:102-137 | one named file per section; no contract of its own: `NoSectionSkipped`, `PageNamedFilesShape` and `NamedFilesSplit` give its properties |
| `PartsChapters.PageNamedFilesShape` | pdf_split_PyMuPDF_only_parts_chapters.py:99-130 | one file per point; file k is named after point k's title and page and holds the pages up to the next point |
| `PartsChapters.NamedFilesSplit` | pdf_split_PyMuPDF_only_parts_chapters.py:99-130 | under a naming that tells start pages apart, the files also have distinct names, and together hold the pages from the first point to the end, once each |
| `PartsChapters.SplitPdfByContent` | pdf_split_PyMuPDF_only_parts_chapters.py:65-137 | "nothing found" iff no page has a heading; otherwise the points are the heading pages in increasing order, each titled by its page's heading, and the files are their `NamedSplit` under the `Page_` names |
| `ContextualTitles.LongestSpan` | pdf_split_final.py:81 | the greedy `.{1,k}` before `(?=\n\|$)`: the largest length up to k where the lookahead holds, or None iff there is none |
| `ContextualTitles.DescriptionSpan` | pdf_split_final.py:81 | the matched span has 1 to 150 characters, ends at a newline or at the end, and is the longest such span |
| `ContextualTitles.DescriptionTakesShortText` | pdf_split_final.py:81 | a text of at most 150 characters is taken whole, across newlines |
| `ContextualTitles.Description` | pdf_split_final.py:77-85 | the description; no contract of its own: `DescriptionShape` and `DescriptionJoinsWords` give its properties |
| `ContextualTitles.DescriptionShape` | pdf_split_final.py:77-85 | the description has at most 150 characters and no white space at either end, and its white space is single spaces |
| `ContextualTitles.DescriptionJoinsWords` | pdf_split_final.py:77-85 | two words with a white-space run between them, at most 150 characters in all, give the two words joined by one space |
| `ContextualTitles.StripCollapsed` | pdf_split_final.py:85 | stripping keeps white space single and never doubled |
| `ContextualTitles.ComposeTitle` | pdf_split_final.py:88 | the prefix, then a space and the description when there is one; no contract of its own: `ComposeTitleParts` gives its properties |
| `ContextualTitles.ComposeTitleParts` | pdf_split_final.py:88 | the title starts with the prefix; it is the bare prefix iff the description is empty; otherwise a space and the description follow, and the description can be read back |
| `ContextualTitles.PageTitle` | pdf_split_final.py:61-88 | what a page contributes: nothing when its text raised or is empty or has no prefix, else the composed title; no contract of its own: `CollectSplitPoints` uses it through `PagePoints` |
| `ContextualTitles.CollectSplitPoints` | pdf_split_final.py:57-95 | the scan, with its guard, yields exactly `PagePoints` of the composed page titles |
| `ContextualTitles.SplitPdfByContent` | pdf_split_final.py:57-137 | "nothing found" iff no page has a prefix; otherwise points in increasing page order, titled by their composed titles, written as by the parts-and-chapters splitter |
| `ContentBased.FirstTitleLine` | pdf_split_content_based.py:55-62 | the page's first title line; no contract of its own: `FirstTitleLineSpec` gives its properties and `ScanPage` computes it |
| `ContentBased.PageTitle` | pdf_split_content_based.py:54-62 | the first title line of an extracted page; no contract of its own: `CollectTitlePoints` uses it through `PagePoints` |
| `ContentBased.FirstTitleLineSpec` | pdf_split_content_based.py:55-62 | a title exists iff some stripped line is accepted; it is the first such line |
| `ContentBased.ScanPage` | pdf_split_content_based.py:55-62 | the line loop with its break yields the page's first title line |
| `ContentBased.ScanPageAt` | pdf_split_content_based.py:53-62 | one extracted page extends the points recorded so far to those of one more page |
| `ContentBased.CollectTitlePoints` | pdf_split_content_based.py:52-62 | succeeds iff every page's text is extracted, and then yields exactly `PagePoints` of the page titles |
| `ContentBased.ContentStem` | pdf_split_content_based.py:84 | the three replacements; no contract of its own: `ContentStemClean` and `ContentStemMap` give its properties |
| `ContentBased.ContentStemClean` | pdf_split_content_based.py:84 | the three replacements leave no space, `/` or `:` |
| `ContentBased.ContentStemMap` | pdf_split_content_based.py:84 | the stem is the title without its colons, in order, with each space turned into `_` and each `/` into `-` |
| `ContentBased.ContentFilename` | pdf_split_content_based.py:84 | the name ends in `.pdf`; before it stand the title's characters other than `:`, in order, with space turned into `_` and `/` into `-`; so no space, `/` or `:` is left |
| `ContentBased.ContentFilenameKeepsPlainTitle` | pdf_split_content_based.py:84 | a title without space, `/` or `:` is used unchanged |
| `ContentBased.SplitPdfByContent` | pdf_split_content_based.py:52-89 | fails with nothing written iff some page's extraction raises; "nothing found" iff no page has a title line; otherwise increasing points, each the page's first title line, and every section written as a `CopiedSplit` |
| `BookmarkSplit.Flatten` | pdf_split_direct.py:53-66 | the depth-first readable leaves; no contract of its own: `FlattenAppend` and `FlattenPrefix` give its properties and `ExtractBookmarks` computes it |
| `BookmarkSplit.FlattenAppend` | pdf_split_direct.py:53-66 | flattening a list equals flattening its halves one after the other |
| `BookmarkSplit.FlattenPrefix` | pdf_split_direct.py:54-66 | each item adds its own entries after those of the items before it |
| `BookmarkSplit.ExtractBookmarks` | pdf_split_direct.py:53-69 | the recursive walk appends exactly the depth-first flattening of the outline to the list it is given, skipping unreadable leaves |
| `BookmarkSplit.InsertByPageCount` | pdf_split_direct.py:76 | an insertion step adds exactly the new entry |
| `BookmarkSplit.InsertByPageAscending` | pdf_split_direct.py:76 | an insertion step keeps the list ordered by page |
| `BookmarkSplit.InsertByPageStable` | pdf_split_direct.py:76 | an insertion step puts the entry after every entry already on its page |
| `BookmarkSplit.OnPageAppend` | pdf_split_direct.py:76 | the entries on one page of a concatenation are those of the two parts |
| `BookmarkSplit.SortByPage` | pdf_split_direct.py:76 | the sort by page, by insertion; no contract of its own: `SortByPageFacts` gives its properties |
| `BookmarkSplit.SortByPageFacts` | pdf_split_direct.py:76 | the sort is ordered by page, is a permutation, and is stable: on each page the entries keep their discovery order |
| `BookmarkSplit.BookmarkFilename` | pdf_split_direct.py:92 | the name ends in `.pdf` and before it stands the title character by character, with space turned into `_` and `/` into `-`; so no space or `/` is left |
| `BookmarkSplit.BookmarkFilenameCollides` | pdf_split_direct.py:92-93 | titles that differ only by space versus `_` or `/` versus `-` get the same file name, because there is no page prefix |
| `BookmarkSplit.SplitPdfByBookmarks` | pdf_split_direct.py:44-97 | "nothing found" iff the outline has no readable entry; otherwise the result is the copy loop over the stably sorted entries plus the sentinel |
| `BookmarkSplit.CopiedNeverNothing` | pdf_split_direct.py:81-97 | the copy loop ends with files written or with a failure, never with "nothing found" |
| `BookmarkSplit.BookmarksInside` | pdf_split_direct.py:76-97 | with all pages at most the page count, every section is written, one file per sorted entry; the files hold `range(smallest bookmark page, page count)` |
| `BookmarkSplit.SamePageGivesEmptyFile` | pdf_split_direct.py:81-97 | two bookmarks on one page produce an empty section that is still written as an empty file |
| `OutlineEntries.ValidEntries` | pdf_split_langchain+gemini.py:92-95 | every added entry's 0-based index is inside the document |
| `OutlineEntries.InRange` | pdf_split_langchain+gemini.py:94 | the guard `0 <= page_index < len(reader.pages)` (the same guard is at pdf_split_ai.py line 71); a predicate with no contract of its own: `ValidEntriesMembers` and `ValidEntriesCount` give its properties |
| `OutlineEntries.ValidEntriesMembers` | pdf_split_langchain+gemini.py:92-95 | an entry is added iff some pair names its title with its index plus one, and the index is inside the document |
| `OutlineEntries.InRangeCount` | pdf_split_langchain+gemini.py:91-96 | the number of in-range pairs; no contract of its own: `ValidEntriesCount` ties it to the entries added |
| `OutlineEntries.ValidEntriesCount` | pdf_split_langchain+gemini.py:91-96 | the number of entries added equals the number of in-range pairs |
| `OutlineEntries.ValidEntriesAppend` | pdf_split_langchain+gemini.py:92-96 | skipping a pair does not stop the walk: the entries of a concatenation are those of its parts |
| `OutlineEntries.CopyAllPages` | pdf_split_langchain+gemini.py:87-88 | every page of the reader is copied, in order |
| `OutlineEntries.ApplyOutlineEntries` | pdf_split_langchain+gemini.py:91-96 | the entry loop adds exactly the valid entries, in mapping order, and its counter is the number of in-range pairs |
| `OutlineEntries.Bookmark` | pdf_split_langchain+gemini.py:84-96 | the rewritten document has all pages and exactly the valid entries; the counter equals the outline's length |
| `LangchainBookmarks.StripFence` | pdf_split_langchain+gemini.py:76 | the three chained strips; no contract of its own: `StripFenceAnyOrder`, `StripFencedJson` and `StripFenceEatsSetChars` give its properties |
| `LangchainBookmarks.StripFenceAnyOrder` | pdf_split_langchain+gemini.py:76 | any run of `` ` ``, `j`, `s`, `o`, `n`, in any order, is removed from both ends of a body that does not start or end with one |
| `LangchainBookmarks.StripFencedJson` | pdf_split_langchain+gemini.py:76 | a reply fenced as a `json` code block gives back its body |
| `LangchainBookmarks.StripFenceEatsSetChars` | pdf_split_langchain+gemini.py:76 | a reply ending in one of those characters loses it, because the argument is a set and not a prefix |
| `LangchainBookmarks.UpdatedName` | pdf_split_langchain+gemini.py:103 | the output name is `updated_` followed by the base name of the input path, which holds no `/` |
| `LangchainBookmarks.UpdatedNameOfFile` | pdf_split_langchain+gemini.py:103 | a file `name` in any folder is saved as `updated_<name>` |
| `LangchainBookmarks.ParsedReply` | pdf_split_langchain+gemini.py:74-80 | the parsed reply, `None` when the content is missing or does not parse; no contract of its own: `AddBookmarks` states its outcomes through it |
| `LangchainBookmarks.AddBookmarks` | pdf_split_langchain+gemini.py:73-105 | parse failure iff the reply has no content or does not parse, before any entry is added; "no valid bookmarks" iff nothing is in range; otherwise saved as `updated_<name>` with all pages and exactly the valid entries |
| `BatchBookmarks.PdfFiles` | pdf_split_ai.py:38 | a name is kept iff it is listed and ends in `.pdf` |
| `BatchBookmarks.PdfFilesAppend` | pdf_split_ai.py:38 | the comprehension keeps listing order: the names kept from two listings in a row are those of the first, then those of the second, and one name is kept iff it ends in `.pdf` |
| `BatchBookmarks.FileStep` | pdf_split_ai.py:43-81 | what one file ends as; no contract of its own: `FileStepOutcomes` gives its properties and `AddBookmarksToFolder` is proved equal to it file by file |
| `BatchBookmarks.FileStepOutcomes` | pdf_split_ai.py:43-81 | a file is rewritten iff its reply arrived and parsed and its pages could be read, and then with all its pages and exactly the in-range entries; a non-JSON reply leaves it untouched |
| `BatchBookmarks.AddBookmarksToFolder` | pdf_split_ai.py:33-85 | an unusable folder is reported iff there is no listing; otherwise each `.pdf` file is processed once, in order, and the progress count equals the number of files |

## Left out

- Tkinter dialogs and message boxes, tqdm progress bars, and the console
  prints, including the version prints at pdf_split_direct.py:2-5. They are
  user interface only.
- Opening, reading and saving PDFs, `os.makedirs`, and `os.path.join` with
  the output folder. Copying pages (`insert_pdf`, `add_page`) is modelled as
  the sequence of page indices a file receives.
- Overwriting. The model lists every saved file in order. When two saves
  share a name, only the later file survives on disk, and the list does not
  show that.
- Regular expressions. The heading patterns are the parameters `matchLine`
  and `search`. The `\s` class, and the white space that `str.strip()`
  removes, are the parameter `isSpace`.
- Unicode normalisation. The NFKD normalisation with its ASCII encoding is
  the parameter `normalize`; nothing is assumed about its result.
- `json.loads`. It is the parameter `parse`, returning the mapping as pairs in
  iteration order. JSON that is not an object, and page values that are not
  integers, are not modelled.
- Gemini and LangChain. The model call, file upload and prompt text are not
  modelled; the reply is an input, read differently in the two scripts. In
  pdf_split_ai.py (`BatchBookmarks`) a `None` reply means that the upload
  or the `generate_content` call raised inside the per-file `try`. In
  pdf_split_langchain+gemini.py (`LangchainBookmarks`) a `None` reply means
  that the response has no `content`, the `AttributeError` caught at
  line 78.
- LangchainBookmarks.AddBookmarks: an exception raised by `chain.invoke` at
  pdf_split_langchain+gemini.py:70 is outside the parse `try` and ends in
  the outer handler at lines 109-110. The model has no outcome for it.
- BatchBookmarks.AddBookmarksToFolder: the `genai.delete_file` in the
  `finally` block of pdf_split_ai.py:82-83 is not modelled. In the source it
  runs outside the `try`, so an exception it raises ends the loop and the
  function early. It also deletes a `pdf_file_part` left over from an
  earlier file when a later upload fails. The model always processes every
  file.
- BatchBookmarks.AddBookmarksToFolder: a path that exists but is not a
  folder passes the test at pdf_split_ai.py:33, and `os.listdir` at line 38
  then raises outside any `try`. The model has the listing as an input and
  maps every unusable folder to `InvalidFolder`.
- Text.Basename: models the POSIX `os.path.basename`, which splits at `/`
  only. The Windows form, which also splits at `\` and after a drive
  letter, is not modelled.
- Bookmark resolution. `reader.get_page_number` is given per leaf as a
  resolved title and page, or `None` for `ValueError`/`TypeError`. Its
  `-1` for an unknown page, and other exceptions, are not modelled.
- Exceptions the model does not name: a missing input file, a failing
  `insert_pdf` or save, and failures in the Gemini upload other than as a
  missing reply.

## Findings

None.

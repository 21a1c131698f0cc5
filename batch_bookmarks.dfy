/** The Gemini script that adds bookmarks to every PDF of a folder: the
    folder's `.pdf` entries are processed in listing order, each one's reply
    is parsed as a title-to-page mapping and the file is rewritten in place
    with the in-range entries as its outline; a file whose reply is not JSON
    is skipped, a file on which anything else raises is reported, and the
    progress count advances once for every file either way. What each file
    meets is the parameter `runOf`: the reply text, or `None` when the upload
    or the model call raised, and the page count, or `None` when reading the
    file raised. */
module BatchBookmarks {
  import opened Wrappers
  import opened Text
  import opened Sections
  import opened OutlineEntries

  /** What processing one file meets. */
  datatype FileRun = FileRun(reply: Option<string>, pageCount: Option<nat>)

  /** How one file ends: an exception was reported, the reply was not JSON
      and the file was left alone, or the file was rewritten as `pdf`. */
  datatype FileResult =
    | Errored(name: string)
    | NotJson(name: string)
    | Rewritten(name: string, pdf: BookmarkedPdf)

  /** How the batch ends: the folder was not usable, or every file was
      processed, with the final progress count. */
  datatype BatchOutcome =
    | InvalidFolder
    | Processed(results: seq<FileResult>, progress: nat)

  /** `[f for f in os.listdir(input_folder) if f.endswith(".pdf")]`: the
      listing's `.pdf` names, in listing order. */
  function PdfFiles(listing: seq<string>): (r: seq<string>)
    ensures |r| <= |listing|
    ensures forall f :: f in r <==> f in listing && EndsWith(f, ".pdf")
  {
    if listing == [] then []
    else
      var prev := PdfFiles(listing[..|listing| - 1]);
      var f := listing[|listing| - 1];
      assert listing == listing[..|listing| - 1] + [f];
      if EndsWith(f, ".pdf") then prev + [f] else prev
  }

  /** The comprehension keeps listing order: the `.pdf` names of two
      listings one after the other are those of the first, then those of
      the second, and a single name is kept exactly when it ends in `.pdf`. */
  lemma {:induction false} PdfFilesAppend(a: seq<string>, b: seq<string>)
    ensures PdfFiles(a + b) == PdfFiles(a) + PdfFiles(b)
    ensures |b| == 1 ==> PdfFiles(b) == (if EndsWith(b[0], ".pdf") then b else [])
    decreases |b|
  {
    if b == [] {
      assert a + b == a;
    } else {
      assert (a + b)[..|a + b| - 1] == a + b[..|b| - 1];
      PdfFilesAppend(a, b[..|b| - 1]);
      PdfFilesAppend([], b[..|b| - 1]);
      assert [] + b[..|b| - 1] == b[..|b| - 1];
    }
  }

  /** What the body of the loop (lines 43-76) does with one file. */
  function FileStep(name: string, run: FileRun, parse: string -> Option<seq<(string, int)>>): FileResult
  {
    match run.reply
    case None => Errored(name)
    case Some(text) =>
      match parse(text)
      case None => NotJson(name)
      case Some(mapping) =>
        match run.pageCount
        case None => Errored(name)
        case Some(n) => Rewritten(name, BookmarkedPdf(Range(0, n), ValidEntries(mapping, n)))
  }

  /** A file is rewritten exactly when its reply arrived, parsed and its
      pages could be read; the rewritten file keeps all its pages and gets
      exactly the in-range entries. A reply that is not JSON leaves the file
      untouched. */
  lemma FileStepOutcomes(name: string, run: FileRun, parse: string -> Option<seq<(string, int)>>)
    ensures FileStep(name, run, parse).name == name
    ensures FileStep(name, run, parse).Rewritten? <==>
              run.reply.Some? && parse(run.reply.value).Some? && run.pageCount.Some?
    ensures FileStep(name, run, parse).NotJson? <==> run.reply.Some? && parse(run.reply.value).None?
    ensures FileStep(name, run, parse).Rewritten? ==>
              var pdf := FileStep(name, run, parse).pdf;
              && pdf.pages == Range(0, run.pageCount.value)
              && (forall e :: e in pdf.outline <==>
                    e.pageIndex < run.pageCount.value && (e.title, e.pageIndex + 1) in parse(run.reply.value).value)
  {
    if FileStep(name, run, parse).Rewritten? {
      forall e {
        ValidEntriesMembers(parse(run.reply.value).value, run.pageCount.value, e);
      }
    }
  }

  /** `add_bookmarks_with_gemini`: a missing folder is reported and nothing
      is done; otherwise each `.pdf` file is processed once, in order, an
      exception caught for one file not stopping the others, and the
      progress count advances in the `finally` block for every file. The
      `genai.delete_file` call of that block is not part of the model. */
  method AddBookmarksToFolder(listing: Option<seq<string>>, runOf: string -> FileRun,
                              parse: string -> Option<seq<(string, int)>>)
    returns (outcome: BatchOutcome)
    ensures outcome.InvalidFolder? <==> listing.None?
    ensures outcome.Processed? ==>
              var pdfFiles := PdfFiles(listing.value);
              && outcome.progress == |pdfFiles|
              && |outcome.results| == |pdfFiles|
              && forall i :: 0 <= i < |pdfFiles| ==> outcome.results[i] == FileStep(pdfFiles[i], runOf(pdfFiles[i]), parse)
  {
    if listing.None? {
      return InvalidFolder;
    }
    var pdfFiles := PdfFiles(listing.value);
    var results: seq<FileResult> := [];
    var progress := 0;
    for i := 0 to |pdfFiles|
      invariant progress == i == |results|
      invariant forall k :: 0 <= k < i ==> results[k] == FileStep(pdfFiles[k], runOf(pdfFiles[k]), parse)
    {
      var filename := pdfFiles[i];
      var run := runOf(filename);
      var result;
      if run.reply.None? {
        result := Errored(filename);
      } else {
        var bookmarkData := parse(run.reply.value);
        if bookmarkData.None? {
          result := NotJson(filename);
        } else if run.pageCount.None? {
          result := Errored(filename);
        } else {
          var pdf, _ := Bookmark(bookmarkData.value, run.pageCount.value);
          result := Rewritten(filename, pdf);
        }
      }
      results := results + [result];
      progress := progress + 1;
    }
    outcome := Processed(results, progress);
  }
}

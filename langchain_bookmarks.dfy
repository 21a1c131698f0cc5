/** The LangChain/Gemini script that adds bookmarks to one document: the
    model's reply is cut out of a Markdown code fence, parsed as a
    title-to-page mapping, and the in-range entries are added as outline
    entries to a copy of the document saved as `updated_<input name>`.
    The reply is `None` when it has no text content; the JSON parser is the
    parameter `parse`, `None` meaning that decoding raised. */
module LangchainBookmarks {
  import opened Wrappers
  import opened Text
  import opened Sections
  import opened OutlineEntries

  /** The character set `'```json'` given to `strip`: a set, not a prefix. */
  predicate IsFenceChar(c: char) {
    c == '`' || c == 'j' || c == 's' || c == 'o' || c == 'n'
  }

  predicate IsBacktick(c: char) {
    c == '`'
  }

  /** `content.strip('```json').strip('```').strip()`. */
  function StripFence(content: string, isSpace: char -> bool): string
  {
    Strip(Strip(Strip(content, IsFenceChar), IsBacktick), isSpace)
  }

  /** Any run of the characters `` ` ``, `j`, `s`, `o`, `n`, in any order, is
      removed from either end of a body that starts and ends with none of
      them and with no white space. */
  lemma StripFenceAnyOrder(p: string, body: string, q: string, isSpace: char -> bool)
    requires forall i :: 0 <= i < |p| ==> IsFenceChar(p[i])
    requires forall i :: 0 <= i < |q| ==> IsFenceChar(q[i])
    requires body != []
    requires !IsFenceChar(body[0]) && !IsFenceChar(body[|body| - 1])
    requires !isSpace(body[0]) && !isSpace(body[|body| - 1])
    ensures StripFence(p + body + q, isSpace) == body
  {
    StripAround(p, body, q, IsFenceChar);
    StripClean(body, IsBacktick);
    StripClean(body, isSpace);
  }

  /** A reply fenced as a `json` code block gives back the block's body,
      provided the body is not empty, newline is white space, and the body
      starts and ends with neither white space nor a fence character (a JSON
      object does: `{` and `}`). */
  lemma StripFencedJson(body: string, isSpace: char -> bool)
    requires isSpace('\n')
    requires body != []
    requires !IsFenceChar(body[0]) && !IsFenceChar(body[|body| - 1])
    requires !isSpace(body[0]) && !isSpace(body[|body| - 1])
    ensures StripFence("```json\n" + body + "\n```", isSpace) == body
  {
    var mid := "\n" + body + "\n";
    assert "```json\n" + body + "\n```" == "```json" + mid + "```";
    StripAround("```json", mid, "```", IsFenceChar);
    StripClean(mid, IsBacktick);
    assert mid == "\n" + body + "\n";
    StripAround("\n", body, "\n", isSpace);
  }

  /** Because the argument is a set, a reply that ends in one of
      `` ` ``, `j`, `s`, `o`, `n` loses that character even outside any fence. */
  lemma StripFenceEatsSetChars(content: string, isSpace: char -> bool)
    requires content != [] && IsFenceChar(content[|content| - 1])
    ensures |StripFence(content, isSpace)| < |content|
  {
  }

  /** How the run ends: the reply could not be parsed, no parsed entry was
      inside the document (nothing is saved), or the bookmarked copy was
      saved under `name`. */
  datatype LangchainOutcome =
    | ParseFailed
    | NoValidBookmarks
    | Saved(name: string, pdf: BookmarkedPdf)

  /** The output file name: `updated_` and the input's base name, the part
      of the path after its last slash. */
  function UpdatedName(inputPath: string): (r: string)
    ensures |r| >= 8 && r[..8] == "updated_"
    ensures r[8..] == Basename(inputPath)
    ensures '/' !in r[8..]
  {
    "updated_" + Basename(inputPath)
  }

  /** A file `name` in a folder `dir` is saved as `updated_<name>`, whatever
      the folder. */
  lemma UpdatedNameOfFile(dir: string, name: string)
    requires '/' !in name
    ensures UpdatedName(dir + "/" + name) == "updated_" + name
  {
    BasenameOfFile(dir, name);
  }

  /** What the reply parses to, if anything. */
  function ParsedReply(reply: Option<string>, parse: string -> Option<seq<(string, int)>>, isSpace: char -> bool)
    : Option<seq<(string, int)>>
  {
    if reply.None? then None else parse(StripFence(reply.value, isSpace))
  }

  /** `add_bookmarks_with_langchain` from the reply on (lines 73-105): a parse
      failure returns before any page is copied or entry added; otherwise
      every page is copied, the in-range entries are added and counted, and
      a zero count returns without saving. */
  method AddBookmarks(inputPath: string, reply: Option<string>, parse: string -> Option<seq<(string, int)>>,
                      pageCount: nat, isSpace: char -> bool)
    returns (outcome: LangchainOutcome)
    ensures outcome.ParseFailed? <==> ParsedReply(reply, parse, isSpace).None?
    ensures outcome.NoValidBookmarks? <==>
              ParsedReply(reply, parse, isSpace).Some?
              && ValidEntries(ParsedReply(reply, parse, isSpace).value, pageCount) == []
    ensures outcome.Saved? ==>
              && outcome.name == UpdatedName(inputPath)
              && outcome.pdf.pages == Range(0, pageCount)
              && outcome.pdf.outline == ValidEntries(ParsedReply(reply, parse, isSpace).value, pageCount)
              && outcome.pdf.outline != []
  {
    if reply.None? {
      return ParseFailed;
    }
    var jsonString := StripFence(reply.value, isSpace);
    var bookmarkData := parse(jsonString);
    if bookmarkData.None? {
      return ParseFailed;
    }
    var pdf, bookmarksAdded := Bookmark(bookmarkData.value, pageCount);
    if bookmarksAdded == 0 {
      return NoValidBookmarks;
    }
    outcome := Saved(UpdatedName(inputPath), pdf);
  }
}

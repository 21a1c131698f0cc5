/** String helpers the splitter scripts use through Python's `str` methods and
    `re.sub`: stripping a character class from both ends, collapsing runs of
    white space, splitting on newlines, filtering and replacing characters.
    The white-space class `\s` and the character sets given to `strip` are
    passed in as predicates on characters. */
module Text {

  /** Removes leading characters that satisfy `drop` (Python's `lstrip(chars)`). */
  function TrimStart(s: string, drop: char -> bool): (r: string)
    ensures |r| <= |s|
  {
    if s != [] && drop(s[0]) then TrimStart(s[1..], drop) else s
  }

  /** Removes trailing characters that satisfy `drop` (Python's `rstrip(chars)`). */
  function TrimEnd(s: string, drop: char -> bool): (r: string)
    ensures |r| <= |s|
  {
    if s != [] && drop(s[|s| - 1]) then TrimEnd(s[..|s| - 1], drop) else s
  }

  /** `lstrip` keeps a suffix that starts with a kept character; everything
      before it was dropped. */
  lemma {:induction false} TrimStartShape(s: string, drop: char -> bool)
    ensures var r := TrimStart(s, drop);
      && r == s[|s| - |r|..]
      && (r == [] || !drop(r[0]))
      && (forall i :: 0 <= i < |s| - |r| ==> drop(s[i]))
  {
    if s != [] && drop(s[0]) {
      TrimStartShape(s[1..], drop);
      var r := TrimStart(s, drop);
      assert s[1..][|s| - 1 - |r|..] == s[|s| - |r|..];
      assert forall i :: 1 <= i < |s| ==> s[1..][i - 1] == s[i];
    }
  }

  /** `rstrip` keeps a prefix that ends with a kept character; everything
      after it was dropped. */
  lemma {:induction false} TrimEndShape(s: string, drop: char -> bool)
    ensures var r := TrimEnd(s, drop);
      && r == s[..|r|]
      && (r == [] || !drop(r[|r| - 1]))
      && (forall i :: |r| <= i < |s| ==> drop(s[i]))
  {
    if s != [] && drop(s[|s| - 1]) {
      TrimEndShape(s[..|s| - 1], drop);
      var r := TrimEnd(s, drop);
      assert s[..|s| - 1][..|r|] == s[..|r|];
      assert forall i :: 0 <= i < |s| - 1 ==> s[..|s| - 1][i] == s[i];
    }
  }

  /** Number of dropped characters at the start of `s`: where a strip begins. */
  function StripOffset(s: string, drop: char -> bool): nat
  {
    |s| - |TrimStart(s, drop)|
  }

  /** Python's `strip(chars)`. */
  function Strip(s: string, drop: char -> bool): string
  {
    TrimEnd(TrimStart(s, drop), drop)
  }

  /** The strip of `s` is the slice that starts at the first kept character
      and ends at the last: it neither starts nor ends with a dropped
      character, and everything cut away on either side was dropped. */
  lemma StripShape(s: string, drop: char -> bool)
    ensures var r, a := Strip(s, drop), StripOffset(s, drop);
      && a + |r| <= |s|
      && r == s[a..a + |r|]
      && (r == [] || (!drop(r[0]) && !drop(r[|r| - 1])))
      && (forall i :: 0 <= i < a ==> drop(s[i]))
      && (a < |s| ==> !drop(s[a]))
      && (forall i :: a + |r| <= i < |s| ==> drop(s[i]))
  {
    var t := TrimStart(s, drop);
    TrimStartShape(s, drop);
    TrimEndShape(t, drop);
    var r := TrimEnd(t, drop);
    var a := |s| - |t|;
    assert r == s[a..a + |r|];
    assert forall i :: a + |r| <= i < |s| ==> s[i] == t[i - a];
  }

  /** A string that has no dropped character at either end is its own strip. */
  lemma {:induction false} StripClean(s: string, drop: char -> bool)
    requires s == [] || (!drop(s[0]) && !drop(s[|s| - 1]))
    ensures Strip(s, drop) == s
  {
    assert TrimStart(s, drop) == s;
    assert TrimEnd(s, drop) == s;
  }

  /** Stripping removes exactly the dropped characters around a body that
      neither starts nor ends with one. */
  lemma StripAround(p: string, body: string, q: string, drop: char -> bool)
    requires forall i :: 0 <= i < |p| ==> drop(p[i])
    requires forall i :: 0 <= i < |q| ==> drop(q[i])
    requires body != [] && !drop(body[0]) && !drop(body[|body| - 1])
    ensures Strip(p + body + q, drop) == body
  {
    var s := p + body + q;
    var r := Strip(s, drop);
    var a := StripOffset(s, drop);
    StripShape(s, drop);
    assert s[|p|] == body[0];
    assert a == |p|;
    assert s[|p| + |body| - 1] == body[|body| - 1];
    assert |r| == |body|;
    assert r == s[|p|..|p| + |body|];
  }

  /** Characters of `s` that satisfy `keep`, in order. */
  function Filter(s: string, keep: char -> bool): (r: string)
    ensures |r| <= |s|
  {
    if s == [] then []
    else if keep(s[0]) then [s[0]] + Filter(s[1..], keep)
    else Filter(s[1..], keep)
  }

  /** What `Filter` keeps: only characters `keep` accepts, and every such
      character of `s`. */
  lemma {:induction false} FilterShape(s: string, keep: char -> bool)
    ensures forall i :: 0 <= i < |Filter(s, keep)| ==> keep(Filter(s, keep)[i])
    ensures forall c :: c in Filter(s, keep) <==> c in s && keep(c)
  {
    if s != [] {
      FilterShape(s[1..], keep);
      assert forall c :: c in s <==> c == s[0] || c in s[1..];
    }
  }

  /** A string whose every character `keep` accepts filters to itself. */
  lemma {:induction false} FilterAccepted(s: string, keep: char -> bool)
    requires forall i :: 0 <= i < |s| ==> keep(s[i])
    ensures Filter(s, keep) == s
  {
    if s != [] {
      assert forall i :: 0 <= i < |s| - 1 ==> s[1..][i] == s[i + 1];
      FilterAccepted(s[1..], keep);
      assert s == [s[0]] + s[1..];
    }
  }

  /** Filtering distributes over concatenation. */
  lemma {:induction false} FilterAppend(s: string, t: string, keep: char -> bool)
    ensures Filter(s + t, keep) == Filter(s, keep) + Filter(t, keep)
  {
    if s != [] {
      assert (s + t)[1..] == s[1..] + t;
      FilterAppend(s[1..], t, keep);
    } else {
      assert s + t == t;
    }
  }

  /** A string whose every character `keep` rejects filters to nothing. */
  lemma {:induction false} FilterRejected(s: string, keep: char -> bool)
    requires forall i :: 0 <= i < |s| ==> !keep(s[i])
    ensures Filter(s, keep) == []
  {
    if s != [] { FilterRejected(s[1..], keep); }
  }

  /** Replaces every occurrence of character `a` by `b` (Python's `replace(a, b)`
      for one-character arguments). */
  function ReplaceChar(s: string, a: char, b: char): (r: string)
    ensures |r| == |s|
    ensures forall i :: 0 <= i < |s| ==> r[i] == (if s[i] == a then b else s[i])
  {
    if s == [] then [] else [if s[0] == a then b else s[0]] + ReplaceChar(s[1..], a, b)
  }

  /** Python's `re.sub(r'\s+', [repl], s)`: every maximal run of white space
      becomes the one character `repl`; everything else is kept in order. */
  function CollapseRuns(s: string, isSpace: char -> bool, repl: char): (r: string)
    ensures |r| <= |s|
    decreases |s|
  {
    if s == [] then []
    else if isSpace(s[0]) then [repl] + CollapseRuns(TrimStart(s[1..], isSpace), isSpace, repl)
    else [s[0]] + CollapseRuns(s[1..], isSpace, repl)
  }

  /** A string that does not start with white space keeps its first
      character first. */
  lemma CollapseRunsFirst(s: string, isSpace: char -> bool, repl: char)
    requires s != [] && !isSpace(s[0])
    ensures CollapseRuns(s, isSpace, repl) == [s[0]] + CollapseRuns(s[1..], isSpace, repl)
  {
  }

  /** After collapsing, every white-space character is the replacement. */
  lemma {:induction false} CollapseRunsReplaces(s: string, isSpace: char -> bool, repl: char)
    ensures forall i :: 0 <= i < |CollapseRuns(s, isSpace, repl)| && isSpace(CollapseRuns(s, isSpace, repl)[i]) ==>
              CollapseRuns(s, isSpace, repl)[i] == repl
    decreases |s|
  {
    if s != [] {
      var r := CollapseRuns(s, isSpace, repl);
      var rest := if isSpace(s[0]) then TrimStart(s[1..], isSpace) else s[1..];
      var c := CollapseRuns(rest, isSpace, repl);
      assert r == [r[0]] + c;
      assert r[0] == repl || !isSpace(r[0]);
      CollapseRunsReplaces(rest, isSpace, repl);
      forall i | 1 <= i < |r| ensures r[i] == c[i - 1] { }
    }
  }

  /** After collapsing, no two white-space characters are adjacent. */
  lemma {:induction false} CollapseRunsSeparated(s: string, isSpace: char -> bool, repl: char)
    ensures forall i :: 0 <= i < |CollapseRuns(s, isSpace, repl)| - 1 && isSpace(CollapseRuns(s, isSpace, repl)[i]) ==>
              !isSpace(CollapseRuns(s, isSpace, repl)[i + 1])
    decreases |s|
  {
    if s != [] {
      var r := CollapseRuns(s, isSpace, repl);
      if isSpace(s[0]) {
        var t := TrimStart(s[1..], isSpace);
        var c := CollapseRuns(t, isSpace, repl);
        TrimStartShape(s[1..], isSpace);
        assert r == [repl] + c;
        if t != [] {
          CollapseRunsFirst(t, isSpace, repl);
          assert r[1] == t[0];
        }
        CollapseRunsSeparated(t, isSpace, repl);
        forall i | 1 <= i < |r| ensures r[i] == c[i - 1] { }
      } else {
        var c := CollapseRuns(s[1..], isSpace, repl);
        CollapseRunsFirst(s, isSpace, repl);
        CollapseRunsSeparated(s[1..], isSpace, repl);
        forall i | 1 <= i < |r| ensures r[i] == c[i - 1] { }
      }
    }
  }

  /** A string without white space is left alone. */
  lemma {:induction false} CollapseRunsNoSpace(s: string, isSpace: char -> bool, repl: char)
    requires forall i :: 0 <= i < |s| ==> !isSpace(s[i])
    ensures CollapseRuns(s, isSpace, repl) == s
    decreases |s|
  {
    if s != [] {
      assert forall i :: 0 <= i < |s| - 1 ==> s[1..][i] == s[i + 1];
      CollapseRunsNoSpace(s[1..], isSpace, repl);
      CollapseRunsFirst(s, isSpace, repl);
      assert s == [s[0]] + s[1..];
    }
  }

  /** After collapsing, every white-space character is the replacement and
      no two white-space characters are adjacent; a leading character that
      is not white space stays first; a string without white space is left
      alone. */
  lemma CollapseRunsShape(s: string, isSpace: char -> bool, repl: char)
    ensures var r := CollapseRuns(s, isSpace, repl);
      && (forall i :: 0 <= i < |r| && isSpace(r[i]) ==> r[i] == repl)
      && (forall i :: 0 <= i < |r| - 1 && isSpace(r[i]) ==> !isSpace(r[i + 1]))
      && (s != [] && !isSpace(s[0]) ==> r != [] && r[0] == s[0])
      && ((forall i :: 0 <= i < |s| ==> !isSpace(s[i])) ==> r == s)
  {
    CollapseRunsReplaces(s, isSpace, repl);
    CollapseRunsSeparated(s, isSpace, repl);
    if s != [] && !isSpace(s[0]) {
      CollapseRunsFirst(s, isSpace, repl);
    }
    if forall i :: 0 <= i < |s| ==> !isSpace(s[i]) {
      CollapseRunsNoSpace(s, isSpace, repl);
    }
  }

  /** Collapsing runs keeps every character that is neither white space nor
      the replacement, in order. */
  lemma {:induction false} CollapseRunsKeeps(s: string, isSpace: char -> bool, repl: char)
    ensures Filter(CollapseRuns(s, isSpace, repl), c => !isSpace(c) && c != repl)
         == Filter(s, c => !isSpace(c) && c != repl)
    decreases |s|
  {
    var keep := c => !isSpace(c) && c != repl;
    if s != [] {
      if isSpace(s[0]) {
        var t := TrimStart(s[1..], isSpace);
        TrimStartShape(s[1..], isSpace);
        CollapseRunsKeeps(t, isSpace, repl);
        var cut := s[1..][..|s| - 1 - |t|];
        assert s[1..] == cut + t;
        FilterRejected(cut, keep);
        FilterAppend(cut, t, keep);
        assert [repl] + CollapseRuns(t, isSpace, repl) == CollapseRuns(s, isSpace, repl);
        assert Filter([repl] + CollapseRuns(t, isSpace, repl), keep)
            == Filter(CollapseRuns(t, isSpace, repl), keep);
      } else {
        CollapseRunsKeeps(s[1..], isSpace, repl);
      }
    }
  }

  /** `lstrip` of dropped characters followed by a string that starts with a
      kept one leaves exactly that string. */
  lemma {:induction false} TrimStartDropped(a: string, b: string, drop: char -> bool)
    requires forall i :: 0 <= i < |a| ==> drop(a[i])
    requires b == [] || !drop(b[0])
    ensures TrimStart(a + b, drop) == b
  {
    if a == [] {
      assert a + b == b;
    } else {
      assert (a + b)[1..] == a[1..] + b;
      TrimStartDropped(a[1..], b, drop);
    }
  }

  /** `lstrip` stops inside a string that ends with a kept character, so what
      follows that string is untouched. */
  lemma {:induction false} TrimStartAppend(a: string, b: string, drop: char -> bool)
    requires a != [] && !drop(a[|a| - 1])
    ensures TrimStart(a + b, drop) == TrimStart(a, drop) + b
  {
    if drop(a[0]) {
      assert (a + b)[1..] == a[1..] + b;
      TrimStartAppend(a[1..], b, drop);
    }
  }

  /** Collapsing splits at a boundary after a character that is not white
      space: no run crosses it. */
  lemma {:induction false} CollapseRunsAppend(p: string, s: string, isSpace: char -> bool, repl: char)
    requires p == [] || !isSpace(p[|p| - 1])
    ensures CollapseRuns(p + s, isSpace, repl) == CollapseRuns(p, isSpace, repl) + CollapseRuns(s, isSpace, repl)
    decreases |p|
  {
    if p == [] {
      assert p + s == s;
    } else if !isSpace(p[0]) {
      assert (p + s)[1..] == p[1..] + s;
      CollapseRunsAppend(p[1..], s, isSpace, repl);
    } else {
      var t := TrimStart(p[1..], isSpace);
      assert (p + s)[1..] == p[1..] + s;
      TrimStartAppend(p[1..], s, isSpace);
      TrimStartShape(p[1..], isSpace);
      assert t[|t| - 1] == p[|p| - 1];
      CollapseRunsAppend(t, s, isSpace, repl);
    }
  }

  /** A run of white space in front of a string that does not start with
      white space becomes one replacement. */
  lemma {:induction false} CollapseRunsRun(w: string, q: string, isSpace: char -> bool, repl: char)
    requires w != [] && forall i :: 0 <= i < |w| ==> isSpace(w[i])
    requires q == [] || !isSpace(q[0])
    ensures CollapseRuns(w + q, isSpace, repl) == [repl] + CollapseRuns(q, isSpace, repl)
  {
    assert (w + q)[1..] == w[1..] + q;
    TrimStartDropped(w[1..], q, isSpace);
  }

  /** The defining law of `re.sub(r'\s+', repl, s)`: a maximal run of white
      space between two parts becomes exactly one replacement, and the parts
      are collapsed on their own. */
  lemma {:induction false} CollapseRunsLaw(p: string, w: string, q: string, isSpace: char -> bool, repl: char)
    requires p == [] || !isSpace(p[|p| - 1])
    requires w != [] && forall i :: 0 <= i < |w| ==> isSpace(w[i])
    requires q == [] || !isSpace(q[0])
    ensures CollapseRuns(p + w + q, isSpace, repl)
         == CollapseRuns(p, isSpace, repl) + [repl] + CollapseRuns(q, isSpace, repl)
  {
    var wq := w + q;
    assert p + w + q == p + wq;
    CollapseRunsAppend(p, wq, isSpace, repl);
    CollapseRunsRun(w, q, isSpace, repl);
  }

  /** Replacing one character by another that `keep` treats alike commutes
      with filtering. */
  lemma {:induction false} FilterReplaceChar(s: string, a: char, b: char, keep: char -> bool)
    requires keep(a) == keep(b)
    ensures Filter(ReplaceChar(s, a, b), keep) == ReplaceChar(Filter(s, keep), a, b)
  {
    if s != [] {
      FilterReplaceChar(s[1..], a, b, keep);
      assert ReplaceChar(s, a, b)[1..] == ReplaceChar(s[1..], a, b);
    }
  }

  /** Lines joined back with newlines: the inverse of `SplitLines`. */
  function JoinLines(lines: seq<string>): string
    requires |lines| >= 1
  {
    if |lines| == 1 then lines[0] else lines[0] + "\n" + JoinLines(lines[1..])
  }

  /** Python's `s.split('\n')`. */
  function SplitLines(s: string): (r: seq<string>)
    ensures |r| >= 1
  {
    if s == [] then [""]
    else
      var rest := SplitLines(s[1..]);
      if s[0] == '\n' then [""] + rest
      else [[s[0]] + rest[0]] + rest[1..]
  }

  /** `split('\n')` gives pieces none of which holds a newline. */
  lemma {:induction false} SplitLinesPieces(s: string)
    ensures forall k :: 0 <= k < |SplitLines(s)| ==> '\n' !in SplitLines(s)[k]
  {
    if s != [] {
      SplitLinesPieces(s[1..]);
    }
  }

  /** Joining the pieces with newlines gives back the split string. */
  lemma {:induction false} SplitThenJoin(s: string)
    ensures JoinLines(SplitLines(s)) == s
  {
    if s != [] {
      var rest := SplitLines(s[1..]);
      SplitThenJoin(s[1..]);
      if s[0] == '\n' {
        assert s == "\n" + s[1..];
      } else {
        if |rest| > 1 {
          JoinExtendsFirst(s[0], rest);
        }
        assert s == [s[0]] + s[1..];
      }
    }
  }

  /** A character put in front of the first of several lines is put in
      front of their join. */
  lemma JoinExtendsFirst(c: char, lines: seq<string>)
    requires |lines| > 1
    ensures JoinLines([[c] + lines[0]] + lines[1..]) == [c] + JoinLines(lines)
  {
    var r := [[c] + lines[0]] + lines[1..];
    assert r[1..] == lines[1..];
    assert JoinLines(r) == ([c] + lines[0]) + "\n" + JoinLines(lines[1..]);
  }

  /** Python's `name.endswith(suffix)`. */
  predicate EndsWith(name: string, suffix: string) {
    |suffix| <= |name| && name[|name| - |suffix|..] == suffix
  }

  /** `os.path.basename` on a POSIX path: what follows the last `/`. */
  function Basename(path: string): (r: string)
    ensures |r| <= |path| && r == path[|path| - |r|..]
    ensures '/' !in r
    ensures |r| < |path| ==> path[|path| - |r| - 1] == '/'
  {
    if path == [] then []
    else if path[|path| - 1] == '/' then []
    else Basename(path[..|path| - 1]) + [path[|path| - 1]]
  }

  /** The base name of a folder, a slash and a name without slash is the name. */
  lemma {:induction false} BasenameOfFile(dir: string, name: string)
    requires '/' !in name
    ensures Basename(dir + "/" + name) == name
  {
    var path := dir + "/" + name;
    if name != [] {
      var init := name[..|name| - 1];
      assert path[..|path| - 1] == dir + "/" + init;
      assert name[|name| - 1] in name;
      BasenameOfFile(dir, init);
      assert name == init + [name[|name| - 1]];
    }
  }
}

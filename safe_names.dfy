/** File names of the PyMuPDF splitters: a sanitised title behind a
    `Page_%04d` tag built from the 1-based start page. The Unicode NFKD
    normalisation with its ASCII re-encoding and the `\s` class of `re` are
    parameters. */
module SafeNames {
  import opened Text

  const MaxTitleLength: nat := 90

  /** The characters `[a-zA-Z0-9_\-]` that survive sanitisation. */
  predicate Allowed(c: char) {
    ('a' <= c <= 'z') || ('A' <= c <= 'Z') || ('0' <= c <= '9') || c == '_' || c == '-'
  }

  predicate IsUnderscore(c: char) {
    c == '_'
  }

  predicate IsDigit(c: char) {
    '0' <= c <= '9'
  }

  /** The sanitised title: `\s+` runs become `_`, every character outside the
      allowed set is removed, `_` is stripped from both ends, and the result
      is cut to 90 characters. */
  function SafeTitle(title: string, normalize: string -> string, isSpace: char -> bool): string
  {
    var underscored := CollapseRuns(normalize(title), isSpace, '_');
    var kept := Filter(underscored, Allowed);
    var stripped := Strip(kept, IsUnderscore);
    stripped[..if |stripped| <= MaxTitleLength then |stripped| else MaxTitleLength]
  }

  /** Whatever the title and whatever the normalisation does, the safe title
      holds only allowed characters, is at most 90 long and does not start
      with an underscore. */
  lemma SafeTitleShape(title: string, normalize: string -> string, isSpace: char -> bool)
    ensures var t := SafeTitle(title, normalize, isSpace);
      && (forall i :: 0 <= i < |t| ==> Allowed(t[i]))
      && |t| <= MaxTitleLength
      && (t == [] || t[0] != '_')
  {
    var kept := Filter(CollapseRuns(normalize(title), isSpace, '_'), Allowed);
    FilterShape(CollapseRuns(normalize(title), isSpace, '_'), Allowed);
    StripAllowed(kept);
  }

  /** Stripping underscores and cutting to length keeps an allowed-only string
      allowed-only, and leaves no underscore in front. */
  lemma StripAllowed(kept: string)
    requires forall i :: 0 <= i < |kept| ==> Allowed(kept[i])
    ensures var stripped := Strip(kept, IsUnderscore);
      var t := stripped[..if |stripped| <= MaxTitleLength then |stripped| else MaxTitleLength];
      && (forall i :: 0 <= i < |t| ==> Allowed(t[i]))
      && (t == [] || t[0] != '_')
  {
    var stripped := Strip(kept, IsUnderscore);
    var a := StripOffset(kept, IsUnderscore);
    StripShape(kept, IsUnderscore);
    assert forall i :: 0 <= i < |stripped| ==> stripped[i] == kept[a + i];
  }

  /** A title that is already safe (allowed characters only, no underscore at
      either end, at most 90 long) and that the normalisation leaves alone is
      its own safe title. */
  lemma SafeTitleKeepsSafe(title: string, normalize: string -> string, isSpace: char -> bool)
    requires normalize(title) == title
    requires forall i :: 0 <= i < |title| ==> Allowed(title[i]) && !isSpace(title[i])
    requires title == [] || (title[0] != '_' && title[|title| - 1] != '_')
    requires |title| <= MaxTitleLength
    ensures SafeTitle(title, normalize, isSpace) == title
  {
    CollapseRunsShape(title, isSpace, '_');
    FilterAccepted(title, Allowed);
    StripClean(title, IsUnderscore);
  }

  function DigitChar(d: nat): char
    requires d < 10
  {
    "0123456789"[d]
  }

  function DigitValue(c: char): nat
    requires IsDigit(c)
  {
    (c as int - '0' as int) as nat
  }

  /** The decimal digits of `n`, without leading zeros. */
  function Decimal(n: nat): (r: string)
    ensures |r| >= 1 && forall i :: 0 <= i < |r| ==> IsDigit(r[i])
    ensures n >= 1 ==> r[0] != '0'
  {
    if n < 10 then [DigitChar(n)] else Decimal(n / 10) + [DigitChar(n % 10)]
  }

  /** The value of a string of decimal digits. */
  function ParseDecimal(s: string): nat
    requires forall i :: 0 <= i < |s| ==> IsDigit(s[i])
  {
    if s == [] then 0 else ParseDecimal(s[..|s| - 1]) * 10 + DigitValue(s[|s| - 1])
  }

  /** Reading back the digits of `n` gives `n`. */
  lemma {:induction false} ParseDecimalOfDecimal(n: nat)
    ensures ParseDecimal(Decimal(n)) == n
  {
    if n >= 10 {
      var d := Decimal(n);
      assert d[..|d| - 1] == Decimal(n / 10);
      ParseDecimalOfDecimal(n / 10);
    }
  }

  /** A leading zero does not change the value. */
  lemma {:induction false} ParseDecimalLeadingZero(s: string)
    requires forall i :: 0 <= i < |s| ==> IsDigit(s[i])
    ensures ParseDecimal("0" + s) == ParseDecimal(s)
  {
    if s != [] {
      assert ("0" + s)[..|s|] == "0" + s[..|s| - 1];
      ParseDecimalLeadingZero(s[..|s| - 1]);
    }
  }

  /** `s` with zeros in front, up to `width` characters (the `0w` format). */
  function ZeroPad(s: string, width: nat): (r: string)
    ensures |r| >= width && |r| >= |s|
    ensures |s| <= width ==> |r| == width
    ensures |s| >= width ==> r == s
    decreases width - |s|
  {
    if |s| >= width then s else ZeroPad("0" + s, width)
  }

  /** `10` to the power `k`. */
  function Pow10(k: nat): nat
  {
    if k == 0 then 1 else 10 * Pow10(k - 1)
  }

  /** A number below `10^k` has at most `k` digits. */
  lemma {:induction false} DecimalLength(n: nat, k: nat)
    requires 1 <= k && n < Pow10(k)
    ensures |Decimal(n)| <= k
  {
    if n >= 10 {
      assert k >= 2;
      DecimalLength(n / 10, k - 1);
    }
  }

  /** `f"{n:04d}"`: the digits of `n`, exactly four of them below 10000 and
      no leading zero beyond that, and their value is `n`. */
  function Padded4(n: nat): (r: string)
    ensures |r| >= 4
    ensures n < 10000 ==> |r| == 4
    ensures |r| > 4 ==> r[0] != '0'
    ensures forall i :: 0 <= i < |r| ==> IsDigit(r[i])
    ensures ParseDecimal(r) == n
  {
    ParseDecimalOfDecimal(n);
    PadKeepsValue(Decimal(n), 4);
    if n < 10000 then
      assert Pow10(4) == 10000;
      DecimalLength(n, 4);
      ZeroPad(Decimal(n), 4)
    else
      ZeroPad(Decimal(n), 4)
  }

  lemma {:induction false} PadKeepsValue(s: string, width: nat)
    requires forall i :: 0 <= i < |s| ==> IsDigit(s[i])
    ensures forall i :: 0 <= i < |ZeroPad(s, width)| ==> IsDigit(ZeroPad(s, width)[i])
    ensures ParseDecimal(ZeroPad(s, width)) == ParseDecimal(s)
    decreases width - |s|
  {
    if |s| < width {
      ParseDecimalLeadingZero(s);
      PadKeepsValue("0" + s, width);
    }
  }

  /** `f"Page_{start + 1:04d}_{safe_title}.pdf"`. */
  function PageFilename(title: string, start: nat, normalize: string -> string, isSpace: char -> bool): string
  {
    "Page_" + (Padded4(start + 1) + ("_" + (SafeTitle(title, normalize, isSpace) + ".pdf")))
  }

  /** The file name is the tag, an underscore, a safe title and `.pdf`. */
  lemma PageFilenameShape(title: string, start: nat, normalize: string -> string, isSpace: char -> bool)
    ensures exists t ::
      && PageFilename(title, start, normalize, isSpace) == "Page_" + (Padded4(start + 1) + ("_" + (t + ".pdf")))
      && (forall i :: 0 <= i < |t| ==> Allowed(t[i]))
      && |t| <= MaxTitleLength
      && (t == [] || t[0] != '_')
  {
    SafeTitleShape(title, normalize, isSpace);
  }

  /** Digits followed by an underscore: where the underscore stands fixes
      the digits. */
  lemma DigitPrefixUnique(d1: string, r1: string, d2: string, r2: string)
    requires forall i :: 0 <= i < |d1| ==> IsDigit(d1[i])
    requires forall i :: 0 <= i < |d2| ==> IsDigit(d2[i])
    requires d1 + ("_" + r1) == d2 + ("_" + r2)
    ensures d1 == d2
  {
    var tail := d1 + ("_" + r1);
    assert tail[|d1|] == '_';
    assert tail[|d2|] == '_';
    assert d1 == tail[..|d1|];
    assert d2 == tail[..|d2|];
  }

  /** Two sections with different start pages never share a file name,
      whatever their titles. */
  lemma PageFilenamesDistinct(t1: string, p1: nat, t2: string, p2: nat,
                              normalize: string -> string, isSpace: char -> bool)
    requires p1 != p2
    ensures PageFilename(t1, p1, normalize, isSpace) != PageFilename(t2, p2, normalize, isSpace)
  {
    var d1, d2 := Padded4(p1 + 1), Padded4(p2 + 1);
    var r1 := SafeTitle(t1, normalize, isSpace) + ".pdf";
    var r2 := SafeTitle(t2, normalize, isSpace) + ".pdf";
    var n1, n2 := PageFilename(t1, p1, normalize, isSpace), PageFilename(t2, p2, normalize, isSpace);
    if n1 == n2 {
      assert n1[5..] == d1 + ("_" + r1);
      assert n2[5..] == d2 + ("_" + r2);
      DigitPrefixUnique(d1, r1, d2, r2);
    }
  }
}

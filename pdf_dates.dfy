/** Publication dates in the extraction stage (scripts/pdf-abstracts.js):
    normalising a date phrase to `YYYY-MM-01`, the two searches for a date in
    the text of a PDF, and the rendering of a stored date in the site's three
    languages. The regular expressions that find date phrases are oracles:
    `matchAt(line, p)` is the first match of pattern `p` in `line`, and
    `family(p)` the capture groups of all matches of the enhanced pattern `p`
    in the whole text. */
module PdfDates {
  import opened Common
  import opened Catalog

  /** The date every search falls back to. */
  const Placeholder := "2024-01-01"

  // ---------------------------------------------------------------------------
  // The two regex searches inside formatDate
  // ---------------------------------------------------------------------------

  predicate FourDigitsAt(s: string, i: nat) {
    i + 4 <= |s| && IsDigit(s[i]) && IsDigit(s[i + 1]) && IsDigit(s[i + 2]) && IsDigit(s[i + 3])
  }

  /** Leftmost match of /[0-9]{4}/ at or after `i`. */
  function FirstFourDigits(s: string, i: nat): (r: Option<nat>)
    requires i <= |s|
    ensures r.Some? ==> i <= r.value && FourDigitsAt(s, r.value)
    ensures r.Some? ==> forall j :: i <= j < r.value ==> !FourDigitsAt(s, j)
    ensures r.None? ==> forall j :: i <= j ==> !FourDigitsAt(s, j)
    decreases |s| - i
  {
    if i + 4 > |s| then None
    else if FourDigitsAt(s, i) then Some(i)
    else FirstFourDigits(s, i + 1)
  }

  /** `s.match(/[0-9]{4}/)?.[0]`. */
  function YearMatch(s: string): (r: Option<string>)
    ensures r.Some? ==> |r.value| == 4 && forall k :: 0 <= k < 4 ==> IsDigit(r.value[k])
  {
    match FirstFourDigits(s, 0)
    case None => None
    case Some(i) => Some(s[i..i + 4])
  }

  /** Length of the run of ASCII letters starting at `i`. */
  function LetterRunLen(s: string, i: nat): (n: nat)
    requires i <= |s|
    ensures i + n <= |s|
    ensures forall k :: i <= k < i + n ==> IsAsciiLetter(s[k])
    ensures i + n < |s| ==> !IsAsciiLetter(s[i + n])
    decreases |s| - i
  {
    if i < |s| && IsAsciiLetter(s[i]) then 1 + LetterRunLen(s, i + 1) else 0
  }

  /** Index of the first ASCII letter at or after `i`. */
  function FirstLetter(s: string, i: nat): (r: Option<nat>)
    requires i <= |s|
    ensures r.Some? ==> i <= r.value < |s| && IsAsciiLetter(s[r.value])
    ensures r.Some? ==> forall j :: i <= j < r.value ==> !IsAsciiLetter(s[j])
    ensures r.None? ==> forall j :: i <= j < |s| ==> !IsAsciiLetter(s[j])
    decreases |s| - i
  {
    if i == |s| then None
    else if IsAsciiLetter(s[i]) then Some(i)
    else FirstLetter(s, i + 1)
  }

  /** `s.match(/[a-zA-Z]+/)?.[0]`: the leftmost, longest run of letters. */
  function WordMatch(s: string): (r: Option<string>)
    ensures r.Some? ==> r.value != [] && forall k :: 0 <= k < |r.value| ==> IsAsciiLetter(r.value[k])
    ensures r.None? <==> forall k :: 0 <= k < |s| ==> !IsAsciiLetter(s[k])
  {
    match FirstLetter(s, 0)
    case None => None
    case Some(i) => Some(s[i..i + LetterRunLen(s, i)])
  }

  // ---------------------------------------------------------------------------
  // formatDate
  // ---------------------------------------------------------------------------

  /** The two-digit code of month `n`. */
  function TwoDigits(n: nat): (r: string)
    requires 1 <= n <= 12
    ensures |r| == 2 && IsDigit(r[0]) && IsDigit(r[1])
    ensures 10 * DigitValue(r[0]) + DigitValue(r[1]) == n
  {
    if n < 10 then ['0', DigitChar(n)] else ['1', DigitChar(n - 10)]
  }

  /** "01" to "12". */
  predicate IsMonthCode(c: string) {
    |c| == 2 && IsDigit(c[0]) && IsDigit(c[1]) && 1 <= 10 * DigitValue(c[0]) + DigitValue(c[1]) <= 12
  }

  /** The month table of formatDate, read as its own properties only: the
      twelve full names and eleven abbreviations ("may" has none of its own);
      0 for a word the table does not hold. */
  function MonthNumber(w: string): (n: nat)
    ensures n <= 12
  {
    if w == "january" || w == "jan" then 1
    else if w == "february" || w == "feb" then 2
    else if w == "march" || w == "mar" then 3
    else if w == "april" || w == "apr" then 4
    else if w == "may" then 5
    else if w == "june" || w == "jun" then 6
    else if w == "july" || w == "jul" then 7
    else if w == "august" || w == "aug" then 8
    else if w == "september" || w == "sep" then 9
    else if w == "october" || w == "oct" then 10
    else if w == "november" || w == "nov" then 11
    else if w == "december" || w == "dec" then 12
    else 0
  }

  /** The month formatDate reads from a phrase: the table entry for the
      first word of the lower-cased phrase, or 1. */
  function MonthOf(dateStr: string): (n: nat)
    ensures 1 <= n <= 12
  {
    var w := WordMatch(ToLower(dateStr));
    if w.Some? && MonthNumber(ToLower(w.value)) != 0 then MonthNumber(ToLower(w.value)) else 1
  }

  /** formatDate with the month table read as a table of its own entries. */
  function FormatDate(dateStr: string): string {
    match YearMatch(dateStr)
    case None => Placeholder
    case Some(year) => year + "-" + TwoDigits(MonthOf(dateStr)) + "-01"
  }

  /** `YYYY-MM-01` with four digits, a month code and day 01. */
  predicate IsMonthDate(d: string) {
    |d| == 10 && d[4] == '-' && d[7] == '-' && d[8] == '0' && d[9] == '1' &&
    (forall k :: 0 <= k < 4 ==> IsDigit(d[k])) && IsMonthCode(d[5..7])
  }

  /** formatDate always yields a year-month date whose day is 01; its year is
      the first four-digit run of the phrase and its month comes from the
      first word, or it is the placeholder when the phrase has no four-digit
      run. */
  lemma FormatDateShape(dateStr: string)
    ensures IsMonthDate(FormatDate(dateStr))
    ensures YearMatch(dateStr).None? ==> FormatDate(dateStr) == Placeholder
    ensures YearMatch(dateStr).Some? ==>
      FormatDate(dateStr)[..4] == YearMatch(dateStr).value &&
      FormatDate(dateStr)[5..7] == TwoDigits(MonthOf(dateStr))
  {
    var r := FormatDate(dateStr);
    if YearMatch(dateStr).None? {
      assert r[5..7] == TwoDigits(1);
    } else {
      var y := YearMatch(dateStr).value;
      var m := TwoDigits(MonthOf(dateStr));
      assert r == y + "-" + m + "-01";
      assert r[..4] == y;
      assert r[5..7] == m;
    }
  }

  /** The prefix of a date phrase in front of its word: no letters and no
      four-digit run. */
  predicate PhraseLead(a: string) {
    (forall k :: 0 <= k < |a| ==> !IsAsciiLetter(a[k])) && forall j: nat :: j + 4 <= |a| ==> !FourDigitsAt(a, j)
  }

  /** A separator between the word and the year: no letters, no digits. */
  predicate PhraseGap(c: string) {
    c != [] && forall k :: 0 <= k < |c| ==> !IsDigit(c[k]) && !IsAsciiLetter(c[k])
  }

  predicate IsWord(w: string) { w != [] && forall k :: 0 <= k < |w| ==> IsAsciiLetter(w[k]) }

  predicate IsYear(y: string) { |y| == 4 && forall k :: 0 <= k < 4 ==> IsDigit(y[k]) }

  /** In a phrase "lead word gap year rest", formatDate's year is `year`. */
  lemma YearOfPhrase(a: string, w: string, c: string, y: string, b: string)
    requires PhraseLead(a) && IsWord(w) && PhraseGap(c) && IsYear(y)
    ensures YearMatch(a + w + c + y + b) == Some(y)
  {
    var s := a + w + c + y + b;
    var p := |a| + |w| + |c|;
    assert s[p..p + 4] == y;
    assert FourDigitsAt(s, p);
    forall j: nat | j < p ensures !FourDigitsAt(s, j) {
      if j + 4 <= |a| {
        assert s[j..j + 4] == a[j..j + 4];
        assert !FourDigitsAt(a, j);
      } else if j < |a| {
        assert s[|a|] == w[0];
      } else if j < |a| + |w| {
        assert s[j] == w[j - |a|];
      } else {
        assert s[j] == c[j - |a| - |w|];
      }
    }
    FirstFourDigitsSkip(s, 0, p);
  }

  /** The first word of "no letters, word, non-letter, anything". */
  lemma WordMatchOf(a: string, w: string, rest: string)
    requires forall k :: 0 <= k < |a| ==> !IsAsciiLetter(a[k])
    requires IsWord(w)
    requires rest != [] && !IsAsciiLetter(rest[0])
    ensures WordMatch(a + w + rest) == Some(w)
  {
    var s := a + w + rest;
    forall j | 0 <= j < |a| ensures !IsAsciiLetter(s[j]) { assert s[j] == a[j]; }
    assert s[|a|] == w[0];
    FirstLetterSkip(s, 0, |a|);
    forall j | |a| <= j < |a| + |w| ensures IsAsciiLetter(s[j]) { assert s[j] == w[j - |a|]; }
    assert s[|a| + |w|] == rest[0];
    LetterRunExact(s, |a|, |w|);
    assert s[|a|..|a| + |w|] == w;
  }

  lemma Regroup(a: string, w: string, c: string, y: string, b: string)
    ensures a + w + c + y + b == a + (w + (c + y + b))
  {
  }

  /** In a phrase "lead word gap year rest", formatDate's word is `word`,
      lower-cased. */
  lemma WordOfPhrase(a: string, w: string, c: string, y: string, b: string)
    requires PhraseLead(a) && IsWord(w) && PhraseGap(c)
    ensures WordMatch(ToLower(a + w + c + y + b)) == Some(ToLower(w))
  {
    var tail := c + y + b;
    LoweredPhraseParts(a, w, tail);
    Regroup(a, w, c, y, b);
    assert tail[0] == c[0];
    WordMatchOf(ToLower(a), ToLower(w), ToLower(tail));
  }

  /** Lower-casing splits along "lead word tail" and keeps each part's kind. */
  lemma LoweredPhraseParts(a: string, w: string, tail: string)
    requires forall k :: 0 <= k < |a| ==> !IsAsciiLetter(a[k])
    requires IsWord(w) && tail != []
    ensures ToLower(a + (w + tail)) == ToLower(a) + ToLower(w) + ToLower(tail)
    ensures forall k :: 0 <= k < |ToLower(a)| ==> !IsAsciiLetter(ToLower(a)[k])
    ensures IsWord(ToLower(w))
    ensures ToLower(tail) != [] && ToLower(tail)[0] == LowerChar(tail[0])
  {
    LowerThree(a, w, tail);
    LowerKeepsKinds(a, w);
  }

  lemma LowerThree(a: string, w: string, tail: string)
    ensures ToLower(a + (w + tail)) == ToLower(a) + ToLower(w) + ToLower(tail)
  {
    ToLowerAppend(a, w + tail);
    ToLowerAppend(w, tail);
    AppendAssoc(ToLower(a), ToLower(w), ToLower(tail));
  }

  lemma LowerKeepsKinds(a: string, w: string)
    requires forall k :: 0 <= k < |a| ==> !IsAsciiLetter(a[k])
    requires IsWord(w)
    ensures forall k :: 0 <= k < |ToLower(a)| ==> !IsAsciiLetter(ToLower(a)[k])
    ensures IsWord(ToLower(w))
  {
  }

  lemma {:induction false} FirstFourDigitsSkip(s: string, i: nat, t: nat)
    requires i <= t && FourDigitsAt(s, t)
    requires forall j :: i <= j < t ==> !FourDigitsAt(s, j)
    ensures FirstFourDigits(s, i) == Some(t)
    decreases t - i
  {
    if i < t { FirstFourDigitsSkip(s, i + 1, t); }
  }

  lemma {:induction false} FirstLetterSkip(s: string, i: nat, t: nat)
    requires i <= t < |s| && IsAsciiLetter(s[t])
    requires forall j :: i <= j < t ==> !IsAsciiLetter(s[j])
    ensures FirstLetter(s, i) == Some(t)
    decreases t - i
  {
    if i < t { FirstLetterSkip(s, i + 1, t); }
  }

  lemma {:induction false} LetterRunExact(s: string, i: nat, n: nat)
    requires i + n < |s|
    requires forall k :: i <= k < i + n ==> IsAsciiLetter(s[k])
    requires !IsAsciiLetter(s[i + n])
    ensures LetterRunLen(s, i) == n
    decreases n
  {
    if n > 0 { LetterRunExact(s, i + 1, n - 1); }
  }

  /** The string JavaScript gives for `${Object}`. */
  const ObjectFunctionText := "function Object() { [native code] }"

  /** formatDate as written: `months[word] || '01'` on a plain object literal
      also finds the properties it inherits from Object.prototype, and the
      only one whose name is a run of lower-case letters is `constructor`. */
  function FormatDateAsWritten(dateStr: string): (r: string)
    ensures (var w := WordMatch(ToLower(dateStr)); !(w.Some? && ToLower(w.value) == "constructor")) ==>
      r == FormatDate(dateStr)
  {
    var w := WordMatch(ToLower(dateStr));
    match YearMatch(dateStr)
    case None => Placeholder
    case Some(year) =>
      if w.Some? && ToLower(w.value) == "constructor" then year + "-" + ObjectFunctionText + "-01"
      else year + "-" + TwoDigits(MonthOf(dateStr)) + "-01"
  }

  /** A phrase such as "1 constructor 2021" makes the code as written store a
      date that is not of the `YYYY-MM-01` form. */
  lemma FormatDateAsWrittenConstructor(year: string)
    requires IsYear(year)
    ensures FormatDateAsWritten("1 " + "constructor" + " " + year) == year + "-" + ObjectFunctionText + "-01"
    ensures !IsMonthDate(FormatDateAsWritten("1 " + "constructor" + " " + year))
  {
    var w := "constructor";
    var s := "1 " + w + " " + year;
    assert PhraseLead("1 ") && PhraseGap(" ");
    ConstructorIsWord();
    YearOfPhrase("1 ", w, " ", year, "");
    WordOfPhrase("1 ", w, " ", year, "");
    ConstructorIsLower();
    assert s + "" == s;
    AsWrittenOnConstructor(s, year);
  }

  lemma AsWrittenOnConstructor(s: string, year: string)
    requires YearMatch(s) == Some(year) && WordMatch(ToLower(s)) == Some("constructor")
    ensures FormatDateAsWritten(s) == year + "-" + ObjectFunctionText + "-01"
    ensures !IsMonthDate(FormatDateAsWritten(s))
  {
    ConstructorIsLower();
    AsWrittenConstructorBranch(s, year, WordMatch(ToLower(s)).value);
    LongTextNotMonthDate(year + "-" + ObjectFunctionText + "-01");
  }

  lemma ConstructorIsWord()
    ensures IsWord("constructor")
  {
    var w := "constructor";
    forall k | 0 <= k < |w| ensures IsAsciiLetter(w[k]) {}
  }

  lemma ConstructorIsLower()
    ensures ToLower("constructor") == "constructor"
  {
    ToLowerUnchanged("constructor");
  }

  lemma AsWrittenConstructorBranch(s: string, year: string, w: string)
    requires YearMatch(s) == Some(year) && WordMatch(ToLower(s)) == Some(w) && ToLower(w) == "constructor"
    ensures FormatDateAsWritten(s) == year + "-" + ObjectFunctionText + "-01"
  {
  }

  lemma LongTextNotMonthDate(d: string)
    requires |d| > 10
    ensures !IsMonthDate(d)
  {
  }

  /** The month a word names in formatDate's table, January for any other
      word. */
  function WordMonth(w: string): (n: nat)
    ensures 1 <= n <= 12
  {
    if MonthNumber(ToLower(w)) != 0 then MonthNumber(ToLower(w)) else 1
  }

  /** A phrase such as "15 July 2021" is formatted from its year and its
      month word: "2021-07-01". */
  lemma FormatDateOfPhrase(a: string, w: string, c: string, y: string, b: string)
    requires PhraseLead(a) && IsWord(w) && PhraseGap(c) && IsYear(y)
    ensures FormatDate(a + w + c + y + b) == y + "-" + TwoDigits(WordMonth(w)) + "-01"
  {
    YearOfPhrase(a, w, c, y, b);
    WordOfPhrase(a, w, c, y, b);
    MonthOfPhrase(a + w + c + y + b, w);
  }

  /** The month read from a text whose (lower-cased) month word is `w`. */
  lemma MonthOfPhrase(s: string, w: string)
    requires WordMatch(ToLower(s)) == Some(ToLower(w))
    ensures MonthOf(s) == WordMonth(w)
  {
    ToLowerIdempotent(w);
  }

  // ---------------------------------------------------------------------------
  // extractPublicationDate
  // ---------------------------------------------------------------------------

  /** The accepted year window of the text search. */
  predicate YearInWindow(dateStr: string) {
    var y := YearMatch(dateStr);
    y.Some? && 2020 <= DigitsValue(y.value) <= 2024
  }

  /** The date phrases found in one line: for each of the five patterns in
      order, `match[1] || match[0]` of its first match. */
  function LineHits(line: string, matchAt: (string, nat) -> Option<RegexMatch>): seq<string> {
    PatternHit(line, 0, matchAt) + PatternHit(line, 1, matchAt) + PatternHit(line, 2, matchAt) +
    PatternHit(line, 3, matchAt) + PatternHit(line, 4, matchAt)
  }

  /** The phrase pattern `p` finds in a line, if any. */
  function PatternHit(line: string, p: nat, matchAt: (string, nat) -> Option<RegexMatch>): seq<string> {
    if matchAt(line, p).Some? then [MatchText(matchAt(line, p).value)] else []
  }

  /** The phrases found in the first `n` lines, line by line. */
  function ScanHits(lines: seq<string>, n: nat, matchAt: (string, nat) -> Option<RegexMatch>): seq<string>
    requires n <= |lines|
  {
    if n == 0 then [] else ScanHits(lines, n - 1, matchAt) + LineHits(lines[n - 1], matchAt)
  }

  /** Leftmost match of /20[0-9]{2}/ at or after `i`. */
  function FirstYear20(s: string, i: nat): (r: Option<nat>)
    requires i <= |s|
    ensures r.Some? ==> i <= r.value && r.value + 4 <= |s| && s[r.value] == '2' && s[r.value + 1] == '0' &&
                        IsDigit(s[r.value + 2]) && IsDigit(s[r.value + 3])
    decreases |s| - i
  {
    if i + 4 > |s| then None
    else if s[i] == '2' && s[i + 1] == '0' && IsDigit(s[i + 2]) && IsDigit(s[i + 3]) then Some(i)
    else FirstYear20(s, i + 1)
  }

  /** The fall-back on the file name: `YYYY-01-01` for its first 20xx, or the
      placeholder. */
  function FileNameDate(pdfFile: string): string {
    var stem := Stem(pdfFile);
    match FirstYear20(stem, 0)
    case None => Placeholder
    case Some(i) => stem[i..i + 4] + "-01-01"
  }

  /** extractPublicationDate: the first phrase in the first 20 lines whose
      year lies in 2020..2024, formatted; otherwise the file name's year. */
  function ExtractPublicationDate(lines: seq<string>, pdfFile: string,
                                  matchAt: (string, nat) -> Option<RegexMatch>): string
  {
    match FirstSatisfying(ScanHits(lines, Min(20, |lines|), matchAt), YearInWindow)
    case Some(d) => FormatDate(d)
    case None => FileNameDate(pdfFile)
  }

  function Min(a: nat, b: nat): nat { if a < b then a else b }

  /** The year of a date extracted from the text always lies in 2020..2024;
      every result is a `YYYY-MM-01` date of this century. */
  lemma ExtractPublicationDateYear(lines: seq<string>, pdfFile: string,
                                   matchAt: (string, nat) -> Option<RegexMatch>)
    ensures var r := ExtractPublicationDate(lines, pdfFile, matchAt);
      IsMonthDate(r) && r[..2] == "20"
    ensures var hit := FirstSatisfying(ScanHits(lines, Min(20, |lines|), matchAt), YearInWindow);
      hit.Some? ==> 2020 <= DigitsValue(ExtractPublicationDate(lines, pdfFile, matchAt)[..4]) <= 2024
  {
    var hit := FirstSatisfying(ScanHits(lines, Min(20, |lines|), matchAt), YearInWindow);
    if hit.Some? {
      InWindowDate(hit.value);
    } else {
      FileNameDateShape(pdfFile);
    }
  }

  /** An in-window phrase is formatted to a date of 2020..2024. */
  lemma InWindowDate(dateStr: string)
    requires YearInWindow(dateStr)
    ensures IsMonthDate(FormatDate(dateStr)) && FormatDate(dateStr)[..2] == "20"
    ensures 2020 <= DigitsValue(FormatDate(dateStr)[..4]) <= 2024
  {
    FormatDateShape(dateStr);
    var y := YearMatch(dateStr).value;
    YearPrefix20(y);
    assert FormatDate(dateStr)[..2] == y[..2];
  }

  /** The file-name fall-back is a January 1st of 20xx. */
  lemma FileNameDateShape(pdfFile: string)
    ensures IsMonthDate(FileNameDate(pdfFile)) && FileNameDate(pdfFile)[..2] == "20"
    ensures FileNameDate(pdfFile)[4..] == "-01-01"
  {
    var stem := Stem(pdfFile);
    match FirstYear20(stem, 0)
    case None =>
      JanuaryFirstShape("2024");
      assert "2024" + "-01-01" == Placeholder;
    case Some(i) =>
      JanuaryFirstShape(stem[i..i + 4]);
  }

  /** `YYYY-01-01` for a four-digit 20xx year is a month date. */
  lemma JanuaryFirstShape(y: string)
    requires |y| == 4 && y[0] == '2' && y[1] == '0' && IsDigit(y[2]) && IsDigit(y[3])
    ensures var r := y + "-01-01";
      IsMonthDate(r) && r[..2] == "20" && r[4..] == "-01-01"
  {
    var r := y + "-01-01";
    assert r[5..7] == "01";
    assert IsMonthCode("01");
    assert r[..2] == y[..2] == "20";
    assert r[4..] == "-01-01";
    assert forall k :: 0 <= k < 4 ==> r[k] == y[k];
  }

  /** A four-digit year in 2020..2024 starts with "20". */
  lemma YearPrefix20(y: string)
    requires |y| == 4 && forall k :: 0 <= k < 4 ==> IsDigit(y[k])
    requires 2020 <= DigitsValue(y) <= 2024
    ensures y[..2] == "20"
  {
    assert y[..3][..2] == y[..2];
    assert y[..4] == y;
    var d0, d1, d2, d3 := DigitValue(y[0]), DigitValue(y[1]), DigitValue(y[2]), DigitValue(y[3]);
    assert y[..1][..0] == [];
    assert DigitsValue(y[..1]) == d0;
    assert y[..2][..1] == y[..1];
    assert DigitsValue(y[..2]) == 10 * d0 + d1;
    assert y[..3][..2] == y[..2];
    assert DigitsValue(y[..3]) == 100 * d0 + 10 * d1 + d2;
    assert DigitsValue(y) == 1000 * d0 + 100 * d1 + 10 * d2 + d3;
    assert d0 == 2 && d1 == 0;
  }

  /** An earlier line with an in-window phrase always wins over later lines
      and over the file name. */
  lemma ExtractPublicationDateEarlierLine(lines: seq<string>, pdfFile: string,
                                          matchAt: (string, nat) -> Option<RegexMatch>, n: nat)
    requires n <= Min(20, |lines|)
    requires FirstSatisfying(ScanHits(lines, n, matchAt), YearInWindow).Some?
    ensures ExtractPublicationDate(lines, pdfFile, matchAt) ==
            FormatDate(FirstSatisfying(ScanHits(lines, n, matchAt), YearInWindow).value)
  {
    ScanHitsPrefix(lines, n, Min(20, |lines|), matchAt);
    var rest := ScanHits(lines, Min(20, |lines|), matchAt)[|ScanHits(lines, n, matchAt)|..];
    FirstSatisfyingAppend(ScanHits(lines, n, matchAt), rest, YearInWindow);
  }

  lemma {:induction false} ScanHitsPrefix(lines: seq<string>, n: nat, m: nat,
                                          matchAt: (string, nat) -> Option<RegexMatch>)
    requires n <= m <= |lines|
    ensures var a := ScanHits(lines, n, matchAt); var b := ScanHits(lines, m, matchAt);
      |a| <= |b| && b == a + b[|a|..]
    decreases m
  {
    if m > n {
      var a := ScanHits(lines, n, matchAt);
      var b1 := ScanHits(lines, m - 1, matchAt);
      var b := ScanHits(lines, m, matchAt);
      ScanHitsPrefix(lines, n, m - 1, matchAt);
      assert |a| <= |b1| && b1 == a + b1[|a|..];
      ScanHitsStep(lines, m, matchAt);
      PrefixExtends(a, b1, b[|b1|..]);
    }
  }

  lemma ScanHitsStep(lines: seq<string>, m: nat, matchAt: (string, nat) -> Option<RegexMatch>)
    requires 0 < m <= |lines|
    ensures var b1 := ScanHits(lines, m - 1, matchAt); var b := ScanHits(lines, m, matchAt);
      |b1| <= |b| && b == b1 + b[|b1|..]
  {
  }

  lemma PrefixExtends<T>(a: seq<T>, b: seq<T>, x: seq<T>)
    requires |a| <= |b| && b == a + b[|a|..]
    ensures |a| <= |b + x| && b + x == a + (b + x)[|a|..]
  {
    assert (b + x)[|a|..] == b[|a|..] + x;
  }

  /** Without an in-window phrase the date is the file name's first 20xx
      with January 1st, or the placeholder. */
  lemma ExtractPublicationDateFromFileName(lines: seq<string>, pdfFile: string,
                                           matchAt: (string, nat) -> Option<RegexMatch>)
    requires forall k :: 0 <= k < |ScanHits(lines, Min(20, |lines|), matchAt)| ==>
               !YearInWindow(ScanHits(lines, Min(20, |lines|), matchAt)[k])
    ensures var stem := Stem(pdfFile); var i := FirstYear20(stem, 0);
      ExtractPublicationDate(lines, pdfFile, matchAt) ==
        if i.Some? then stem[i.value..i.value + 4] + "-01-01" else Placeholder
  {
  }

  // ---------------------------------------------------------------------------
  // extractPublicationDateEnhanced
  // ---------------------------------------------------------------------------

  /** The capture groups of the five enhanced families in priority order:
      published online, available online, published, accepted, received. */
  function EnhancedHits(family: nat -> seq<string>): seq<string> {
    family(0) + family(1) + family(2) + family(3) + family(4)
  }

  predicate NotPlaceholder(dateStr: string) { FormatDate(dateStr) != Placeholder }

  /** extractPublicationDateEnhanced: the first group, in family order,
      whose formatted date is not the placeholder; otherwise the older
      search. */
  function ExtractPublicationDateEnhanced(lines: seq<string>, pdfFile: string,
                                          family: nat -> seq<string>,
                                          matchAt: (string, nat) -> Option<RegexMatch>): string
  {
    match FirstSatisfying(EnhancedHits(family), NotPlaceholder)
    case Some(d) => FormatDate(d)
    case None => ExtractPublicationDate(lines, pdfFile, matchAt)
  }

  /** A hit of a higher-priority family wins over every hit of lower ones. */
  lemma EnhancedFamilyPriority(lines: seq<string>, pdfFile: string, family: nat -> seq<string>,
                               matchAt: (string, nat) -> Option<RegexMatch>, p: nat)
    requires p < 5
    requires forall q: nat :: q < p ==> forall k :: 0 <= k < |family(q)| ==> !NotPlaceholder(family(q)[k])
    requires FirstSatisfying(family(p), NotPlaceholder).Some?
    ensures ExtractPublicationDateEnhanced(lines, pdfFile, family, matchAt) ==
            FormatDate(FirstSatisfying(family(p), NotPlaceholder).value)
  {
    FirstOfFive(family(0), family(1), family(2), family(3), family(4), NotPlaceholder, p);
  }

  /** The first element of five lists joined in order that satisfies `pr`
      lies in list `p` when the lists before it hold none. */
  lemma FirstOfFive<T>(f0: seq<T>, f1: seq<T>, f2: seq<T>, f3: seq<T>, f4: seq<T>, pr: T -> bool, p: nat)
    requires p < 5
    requires p > 0 ==> forall k :: 0 <= k < |f0| ==> !pr(f0[k])
    requires p > 1 ==> forall k :: 0 <= k < |f1| ==> !pr(f1[k])
    requires p > 2 ==> forall k :: 0 <= k < |f2| ==> !pr(f2[k])
    requires p > 3 ==> forall k :: 0 <= k < |f3| ==> !pr(f3[k])
    requires FirstSatisfying([f0, f1, f2, f3, f4][p], pr).Some?
    ensures FirstSatisfying(f0 + f1 + f2 + f3 + f4, pr) == FirstSatisfying([f0, f1, f2, f3, f4][p], pr)
  {
    var fs := [f0, f1, f2, f3, f4];
    var t3 := f3 + f4;
    var t2 := f2 + t3;
    var t1 := f1 + t2;
    FiveAssoc(f0, f1, f2, f3, f4);
    if p == 0 {
      FirstInHead(f0, t1, pr);
    } else {
      FirstPastHead(f0, t1, pr);
      if p == 1 {
        FirstInHead(f1, t2, pr);
      } else {
        FirstPastHead(f1, t2, pr);
        if p == 2 {
          FirstInHead(f2, t3, pr);
        } else {
          FirstPastHead(f2, t3, pr);
          if p == 3 {
            FirstInHead(f3, f4, pr);
          } else {
            FirstPastHead(f3, f4, pr);
            assert fs[p] == f4;
          }
        }
      }
    }
  }

  lemma FiveAssoc<T>(f0: seq<T>, f1: seq<T>, f2: seq<T>, f3: seq<T>, f4: seq<T>)
    ensures f0 + f1 + f2 + f3 + f4 == f0 + (f1 + (f2 + (f3 + f4)))
  {
  }

  lemma FirstInHead<T>(a: seq<T>, b: seq<T>, pr: T -> bool)
    requires FirstSatisfying(a, pr).Some?
    ensures FirstSatisfying(a + b, pr) == FirstSatisfying(a, pr)
  {
    FirstSatisfyingAppend(a, b, pr);
  }

  lemma FirstPastHead<T>(a: seq<T>, b: seq<T>, pr: T -> bool)
    requires forall k :: 0 <= k < |a| ==> !pr(a[k])
    ensures FirstSatisfying(a + b, pr) == FirstSatisfying(b, pr)
  {
    FirstSatisfyingAppend(a, b, pr);
  }

  /** A genuine January 2024 phrase formats to the placeholder and is passed
      over by the enhanced search. */
  lemma January2024Rejected()
    ensures FormatDate("1 " + "January" + " " + "2024") == Placeholder
    ensures !NotPlaceholder("1 " + "January" + " " + "2024")
  {
    var w := "January";
    var s := "1 " + w + " " + "2024";
    assert PhraseLead("1 ") && PhraseGap(" ") && IsYear("2024");
    forall k | 0 <= k < |w| ensures IsAsciiLetter(w[k]) {}
    FormatDateOfPhrase("1 ", w, " ", "2024", "");
    assert s + "" == s;
    JanuaryIsMonthOne();
    PlaceholderText();
  }

  lemma JanuaryIsMonthOne()
    ensures WordMonth("January") == 1
  {
    var w := "January";
    assert ToLower(w) == "january" by {
      assert forall k :: 0 <= k < |w| ==> ToLower(w)[k] == "january"[k];
    }
  }

  lemma PlaceholderText()
    ensures "2024" + "-" + TwoDigits(1) + "-01" == Placeholder
  {
    assert TwoDigits(1) == "01";
  }

  /** The enhanced search never returns the placeholder from its own hits:
      when it does return it, the older search produced it. */
  lemma EnhancedPlaceholderFromFallback(lines: seq<string>, pdfFile: string,
                                        family: nat -> seq<string>,
                                        matchAt: (string, nat) -> Option<RegexMatch>)
    requires ExtractPublicationDateEnhanced(lines, pdfFile, family, matchAt) == Placeholder
    ensures ExtractPublicationDate(lines, pdfFile, matchAt) == Placeholder
    ensures forall k :: 0 <= k < |EnhancedHits(family)| ==> !NotPlaceholder(EnhancedHits(family)[k])
  {
  }

  // ---------------------------------------------------------------------------
  // formatDateForDisplay
  // ---------------------------------------------------------------------------

  const MonthNamesEn: seq<string> :=
    ["January", "February", "March", "April", "May", "June",
     "July", "August", "September", "October", "November", "December"]

  const MonthNamesFr: seq<string> :=
    ["Janvier", "F\U{E9}vrier", "Mars", "Avril", "Mai", "Juin",
     "Juillet", "Ao\U{FB}t", "Septembre", "Octobre", "Novembre", "D\U{E9}cembre"]

  /** `names[parseInt(month) - 1]` in a template: "undefined" when the index
      is NaN or out of range. */
  function MonthName(names: seq<string>, month: string): (r: string)
    requires |names| == 12
    ensures var v := ParseIntJs(month); v.Some? && 1 <= v.value <= 12 ==> r == names[v.value - 1]
    ensures var v := ParseIntJs(month); !(v.Some? && 1 <= v.value <= 12) ==> r == "undefined"
  {
    var v := ParseIntJs(month);
    if v.Some? && 1 <= v.value <= 12 then names[v.value - 1] else "undefined"
  }

  /** `${parseInt(day)}`. */
  function DayText(day: string): string {
    match ParseIntJs(day)
    case None => "NaN"
    case Some(v) => IntToString(v)
  }

  /** formatDateForDisplay on a `-`-separated date. */
  function FormatDateForDisplay(dateString: string): Localized {
    var parts := Split(dateString, '-');
    var year := parts[0];
    if |parts| >= 2 && parts[1] != "" && parts[1] != "01" then
      var month := parts[1];
      if |parts| >= 3 && parts[2] != "" then
        var day := parts[2];
        Localized(MonthName(MonthNamesEn, month) + " " + DayText(day) + ", " + year,
                  year + "." + month + "." + day,
                  DayText(day) + " " + MonthName(MonthNamesFr, month) + " " + year)
      else
        Localized(MonthName(MonthNamesEn, month) + " " + year,
                  year + "." + month,
                  MonthName(MonthNamesFr, month) + " " + year)
    else
      Localized(year, year, year)
  }

  /** A date without a month, or in January, is shown as its year alone. */
  lemma DisplayYearOnly(dateString: string)
    requires var parts := Split(dateString, '-');
      |parts| < 2 || parts[1] == "" || parts[1] == "01"
    ensures var y := Split(dateString, '-')[0];
      FormatDateForDisplay(dateString) == Localized(y, y, y)
  {
  }

  /** With a month other than January and a day, the Korean form is the
      same date with dots, whenever the date has exactly three parts. */
  lemma DisplayKoIsDotted(dateString: string)
    requires var parts := Split(dateString, '-');
      |parts| == 3 && parts[1] != "" && parts[1] != "01" && parts[2] != ""
    ensures FormatDateForDisplay(dateString).ko == Join(Split(dateString, '-'), ".")
  {
    var parts := Split(dateString, '-');
    assert parts == [parts[0], parts[1], parts[2]];
    JoinThree(parts[0], parts[1], parts[2], ".");
  }

  /** parseInt reads back a two-digit code. */
  lemma ParseTwoDigits(n: nat)
    requires 1 <= n <= 12
    ensures ParseIntJs(TwoDigits(n)) == Some(n)
  {
    var c := TwoDigits(n);
    ParseIntOfDigits(c);
    var c1 := c[..1];
    assert c[..|c| - 1] == c1;
    assert c1[..|c1| - 1] == [];
    assert DigitsValue(c1) == DigitValue(c[0]);
    assert DigitsValue(c) == 10 * DigitValue(c[0]) + DigitValue(c[1]);
  }

  /** formatDate's output splits into its year, its month code and "01". */
  lemma FormatDateParts(dateStr: string)
    requires YearMatch(dateStr).Some?
    ensures Split(FormatDate(dateStr), '-') == [YearMatch(dateStr).value, TwoDigits(MonthOf(dateStr)), "01"]
  {
    var y, m := YearMatch(dateStr).value, TwoDigits(MonthOf(dateStr));
    assert FormatDate(dateStr) == y + "-" + m + "-01";
    assert y + "-" + m + "-01" == y + "-" + m + "-" + "01" by {
      assert "-01" == "-" + "01";
    }
    JoinThree(y, m, "01", "-");
    assert '-' !in y && '-' !in m && '-' !in "01";
    SplitJoin([y, m, "01"], '-');
  }

  lemma DayTextOne()
    ensures DayText("01") == "1"
  {
    ParseTwoDigits(1);
    assert TwoDigits(1) == "01";
  }

  /** Dates written by formatDate are shown with day 1: "July 1, 2021",
      "2021.07.01", "1 Juillet 2021"; January dates show the year alone. */
  lemma DisplayOfFormatDate(dateStr: string)
    requires YearMatch(dateStr).Some?
    ensures var y := YearMatch(dateStr).value; var n := MonthOf(dateStr);
      FormatDateForDisplay(FormatDate(dateStr)) ==
        if n == 1 then Localized(y, y, y)
        else Localized(MonthNamesEn[n - 1] + " 1, " + y, y + "." + TwoDigits(n) + ".01",
                       "1 " + MonthNamesFr[n - 1] + " " + y)
  {
    FormatDateParts(dateStr);
    var d, y, n := FormatDate(dateStr), YearMatch(dateStr).value, MonthOf(dateStr);
    var m := TwoDigits(n);
    assert n == 1 <==> m == "01";
    if n != 1 {
      DisplayOfThreeParts(d, y, m, "01");
      MonthTablesAgree(n);
      DayTextOne();
      DayOneTexts(MonthNamesEn[n - 1], MonthNamesFr[n - 1], y, m);
    } else {
      DisplayYearOnly(d);
    }
  }

  /** With a month other than January and no day, the three forms are
      "Month YYYY", "YYYY.MM" and "Mois YYYY". */
  lemma DisplayOfTwoParts(d: string, y: string, m: string)
    requires Split(d, '-') == [y, m] && m != "" && m != "01"
    ensures FormatDateForDisplay(d) ==
      Localized(MonthName(MonthNamesEn, m) + " " + y,
                y + "." + m,
                MonthName(MonthNamesFr, m) + " " + y)
  {
  }

  /** A date with a month other than January and a day. */
  lemma DisplayOfThreeParts(d: string, y: string, m: string, day: string)
    requires Split(d, '-') == [y, m, day] && m != "" && m != "01" && day != ""
    ensures FormatDateForDisplay(d) ==
      Localized(MonthName(MonthNamesEn, m) + " " + DayText(day) + ", " + y,
                y + "." + m + "." + day,
                DayText(day) + " " + MonthName(MonthNamesFr, m) + " " + y)
  {
  }

  lemma DayOneTexts(en: string, fr: string, y: string, m: string)
    ensures en + " " + "1" + ", " + y == en + " 1, " + y
    ensures y + "." + m + "." + "01" == y + "." + m + ".01"
    ensures "1" + " " + fr + " " + y == "1 " + fr + " " + y
  {
    assert " " + "1" + ", " == " 1, ";
    assert "." + "01" == ".01";
    assert "1" + " " == "1 ";
  }

  /** The English month shown for the code of month `n` is that month. */
  lemma MonthTablesAgree(n: nat)
    requires 1 <= n <= 12
    ensures MonthName(MonthNamesEn, TwoDigits(n)) == MonthNamesEn[n - 1]
    ensures MonthName(MonthNamesFr, TwoDigits(n)) == MonthNamesFr[n - 1]
  {
    ParseTwoDigits(n);
  }
}

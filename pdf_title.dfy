/** Title recovery in the PDF extraction stage: the single-character
    de-spacing pass, the heuristic title score and the three candidate
    strategies whose best-scoring line becomes the title. */
module PdfTitle {
  import opened Common

  // ---------------------------------------------------------------------------
  // De-spacing ("e s t i m a t i n g" -> "estimating")
  // ---------------------------------------------------------------------------

  /** Number of leading one-character words. */
  function SingleRunLen(ws: seq<string>): (k: nat)
    ensures k <= |ws|
    ensures forall m :: 0 <= m < k ==> |ws[m]| == 1
    ensures k < |ws| ==> |ws[k]| != 1
    decreases |ws|
  {
    if ws != [] && |ws[0]| == 1 then 1 + SingleRunLen(ws[1..]) else 0
  }

  /** The word list the de-spacing pass produces: every maximal run of two or
      more one-character words is glued into one word, every other word is
      kept as it is. */
  function FixWords(ws: seq<string>): (r: seq<string>)
    ensures |r| <= |ws|
    ensures r == [] <==> ws == []
    ensures ws != [] && |ws[0]| != 1 ==> r[0] == ws[0]
    decreases |ws|
  {
    if ws == [] then []
    else
      var k := SingleRunLen(ws);
      if k >= 2 then [Concat(ws[..k])] + FixWords(ws[k..])
      else [ws[0]] + FixWords(ws[1..])
  }

  /** What the de-spacing pass does to a whole title: split on ' ', fix the
      words, join with ' '. */
  function DeSpaced(t: string): string {
    Join(FixWords(Split(t, ' ')), " ")
  }

  /** No two neighbouring words are both one character long. */
  predicate NoAdjacentSingles(ws: seq<string>) {
    forall i :: 0 <= i < |ws| - 1 ==> !(|ws[i]| == 1 && |ws[i + 1]| == 1)
  }

  lemma ConcatSnoc(ws: seq<string>, w: string)
    ensures Concat(ws + [w]) == Concat(ws) + w
  {
    ConcatAppend(ws, [w]);
    assert Concat([w]) == w + Concat([]);
  }

  lemma {:induction false} RunLenIs(ws: seq<string>, i: nat, j: nat)
    requires i <= j <= |ws|
    requires forall m :: i <= m < j ==> |ws[m]| == 1
    requires j == |ws| || |ws[j]| != 1
    ensures SingleRunLen(ws[i..]) == j - i
    decreases j - i
  {
    if i < j {
      RunLenIs(ws, i + 1, j);
      assert ws[i..][1..] == ws[i + 1..];
    }
  }

  /** One glued run: a run of k >= 2 one-character words at i becomes one word. */
  lemma FixWordsRunStep(words: seq<string>, i: nat, j: nat)
    requires i + 2 <= j <= |words|
    requires SingleRunLen(words[i..]) == j - i
    ensures FixWords(words[i..]) == [Concat(words[i..j])] + FixWords(words[j..])
  {
    assert words[i..][..j - i] == words[i..j];
    assert words[i..][j - i..] == words[j..];
  }

  /** A word that does not start a run of two or more is kept. */
  lemma FixWordsKeepStep(words: seq<string>, i: nat)
    requires i < |words|
    requires SingleRunLen(words[i..]) <= 1
    ensures FixWords(words[i..]) == [words[i]] + FixWords(words[i + 1..])
  {
    assert words[i..][1..] == words[i + 1..];
  }

  /** The look-ahead of fixSpacedText: gathers the one-character words from
      i + 1 on behind the one-character word at i. */
  method GatherSingles(words: seq<string>, i: nat) returns (combined: string, j: nat)
    requires i < |words| && |words[i]| == 1
    ensures i + 1 <= j <= |words|
    ensures SingleRunLen(words[i..]) == j - i
    ensures combined == Concat(words[i..j]) && |combined| == j - i
  {
    combined := words[i];
    j := i + 1;
    assert words[i..j] == [words[i]];
    while j < |words| && |words[j]| == 1
      invariant i + 1 <= j <= |words|
      invariant forall m :: i <= m < j ==> |words[m]| == 1
      invariant combined == Concat(words[i..j])
      invariant |combined| == j - i
      decreases |words| - j
    {
      assert words[i..j + 1] == words[i..j] + [words[j]];
      ConcatSnoc(words[i..j], words[j]);
      combined := combined + words[j];
      j := j + 1;
    }
    RunLenIs(words, i, j);
  }

  /** The loop of fixSpacedText over the words of the title; a run of
      one-character words found by the look-ahead is pushed as one word and
      skipped. */
  method FixWordList(words: seq<string>) returns (fixedWords: seq<string>)
    ensures fixedWords == FixWords(words)
  {
    fixedWords := [];
    var i := 0;
    while i < |words|
      invariant 0 <= i <= |words|
      invariant fixedWords + FixWords(words[i..]) == FixWords(words)
      decreases |words| - i
    {
      var word := words[i];
      if |word| == 1 && i < |words| - 1 {
        var combined, j := GatherSingles(words, i);
        if |combined| > 1 {
          FixWordsRunStep(words, i, j);
          AppendAssoc(fixedWords, [combined], FixWords(words[j..]));
          fixedWords := fixedWords + [combined];
          i := j;  // the source sets i = j - 1 and the loop's i++ follows
        } else {
          FixWordsKeepStep(words, i);
          AppendAssoc(fixedWords, [word], FixWords(words[i + 1..]));
          fixedWords := fixedWords + [word];
          i := i + 1;
        }
      } else {
        if |word| == 1 {
          RunLenIs(words, i, i + 1);
        } else {
          RunLenIs(words, i, i);
        }
        FixWordsKeepStep(words, i);
        AppendAssoc(fixedWords, [word], FixWords(words[i + 1..]));
        fixedWords := fixedWords + [word];
        i := i + 1;
      }
    }
    assert words[|words|..] == [];
  }

  /** fixSpacedText: split on ' ', fix the words, join with ' '. */
  method FixSpacedText(title: string) returns (r: string)
    ensures r == DeSpaced(title)
  {
    var words := Split(title, ' ');
    var fixedWords := FixWordList(words);
    r := Join(fixedWords, " ");
  }

  lemma {:induction false} ConcatOfSingles(ws: seq<string>)
    requires forall m :: 0 <= m < |ws| ==> |ws[m]| == 1
    ensures |Concat(ws)| == |ws|
    decreases |ws|
  {
    if ws != [] { ConcatOfSingles(ws[1..]); }
  }

  lemma {:induction false} ConcatNoChar(ws: seq<string>, c: char)
    requires forall m :: 0 <= m < |ws| ==> c !in ws[m]
    ensures c !in Concat(ws)
    decreases |ws|
  {
    if ws != [] { ConcatNoChar(ws[1..], c); }
  }

  /** De-spacing neither adds nor loses a character: the concatenation of
      the words is unchanged. */
  lemma {:induction false} FixWordsConcat(ws: seq<string>)
    ensures Concat(FixWords(ws)) == Concat(ws)
    decreases |ws|
  {
    if ws != [] {
      var k := SingleRunLen(ws);
      if k >= 2 {
        FixWordsConcat(ws[k..]);
        ConcatAppend([Concat(ws[..k])], FixWords(ws[k..]));
        assert Concat([Concat(ws[..k])]) == Concat(ws[..k]) + Concat([]);
        assert ws == ws[..k] + ws[k..];
        ConcatAppend(ws[..k], ws[k..]);
      } else {
        FixWordsConcat(ws[1..]);
      }
    }
  }

  /** Gluing words that contain no separator gives words without it. */
  lemma {:induction false} FixWordsNoChar(ws: seq<string>, c: char)
    requires forall m :: 0 <= m < |ws| ==> c !in ws[m]
    ensures forall m :: 0 <= m < |FixWords(ws)| ==> c !in FixWords(ws)[m]
    decreases |ws|
  {
    if ws != [] {
      var k := SingleRunLen(ws);
      if k >= 2 {
        ConcatNoChar(ws[..k], c);
        FixWordsNoChar(ws[k..], c);
      } else {
        FixWordsNoChar(ws[1..], c);
      }
    }
  }

  /** The output of the pass never has two neighbouring one-character words. */
  lemma {:induction false} FixWordsNoAdjacent(ws: seq<string>)
    ensures NoAdjacentSingles(FixWords(ws))
    decreases |ws|
  {
    if ws != [] {
      var k := SingleRunLen(ws);
      if k >= 2 {
        FixWordsNoAdjacent(ws[k..]);
        ConcatOfSingles(ws[..k]);
      } else {
        FixWordsNoAdjacent(ws[1..]);
        if k == 1 && |ws| > 1 {
          assert |ws[1..][0]| != 1;
        }
      }
    }
  }

  /** A word list without neighbouring one-character words is left alone. */
  lemma {:induction false} FixWordsFixpoint(ws: seq<string>)
    requires NoAdjacentSingles(ws)
    ensures FixWords(ws) == ws
    decreases |ws|
  {
    if ws != [] {
      if |ws[0]| == 1 && |ws| > 1 {
        assert |ws[1]| != 1;
        assert SingleRunLen(ws[1..]) == 0;
      }
      assert NoAdjacentSingles(ws[1..]) by {
        forall i | 0 <= i < |ws[1..]| - 1 ensures !(|ws[1..][i]| == 1 && |ws[1..][i + 1]| == 1) {
          assert ws[1..][i] == ws[i + 1] && ws[1..][i + 1] == ws[i + 2];
        }
      }
      FixWordsFixpoint(ws[1..]);
    }
  }

  /** The pass changes a word list exactly when it has neighbouring
      one-character words. */
  lemma FixWordsUnchangedIff(ws: seq<string>)
    ensures FixWords(ws) == ws <==> NoAdjacentSingles(ws)
  {
    FixWordsNoAdjacent(ws);
    if NoAdjacentSingles(ws) { FixWordsFixpoint(ws); }
  }

  lemma DeSpacedWords(t: string)
    ensures var out := FixWords(Split(t, ' '));
      |out| >= 1 && (forall m :: 0 <= m < |out| ==> ' ' !in out[m])
  {
    FixWordsNoChar(Split(t, ' '), ' ');
  }

  /** De-spacing keeps every non-space character, in order: deleting every
      ' ' from the input and from the output gives the same string. */
  lemma DeSpacedKeepsNonSpace(t: string)
    ensures RemoveChar(DeSpaced(t), ' ') == RemoveChar(t, ' ')
  {
    var ws := Split(t, ' ');
    DeSpacedWords(t);
    RemoveSepFromJoin(FixWords(ws), ' ');
    FixWordsConcat(ws);
    RemoveSepIsConcatOfSplit(t, ' ');
  }

  /** Applying the pass twice is the same as applying it once. */
  lemma DeSpacedIdempotent(t: string)
    ensures DeSpaced(DeSpaced(t)) == DeSpaced(t)
  {
    var out := FixWords(Split(t, ' '));
    DeSpacedWords(t);
    SplitJoin(out, ' ');
    FixWordsNoAdjacent(Split(t, ' '));
    FixWordsFixpoint(out);
  }

  /** A list of two or more one-character words is glued into one word. */
  lemma FixWordsAllSingles(ws: seq<string>)
    requires |ws| >= 2
    requires forall m :: 0 <= m < |ws| ==> |ws[m]| == 1
    ensures FixWords(ws) == [Concat(ws)]
  {
    RunLenIs(ws, 0, |ws|);
    assert ws[0..] == ws;
    assert ws[..|ws|] == ws && ws[|ws|..] == [];
  }

  /** A title spelled out entirely in single letters ("e s t i m a t i n g")
      loses all its spaces. */
  lemma DeSpacedAllSingles(t: string)
    requires |Split(t, ' ')| >= 2
    requires forall m :: 0 <= m < |Split(t, ' ')| ==> |Split(t, ' ')[m]| == 1
    ensures DeSpaced(t) == RemoveChar(t, ' ')
  {
    FixWordsAllSingles(Split(t, ' '));
    RemoveSepIsConcatOfSplit(t, ' ');
  }

  // ---------------------------------------------------------------------------
  // Title score
  // ---------------------------------------------------------------------------

  const AcademicWords: seq<string> :=
    ["effect", "impact", "analysis", "study", "model", "evaluation",
     "assessment", "investigation", "research", "application", "method",
     "approach", "development", "implementation", "optimization", "control"]

  const ScientificTerms: seq<string> :=
    ["covid", "virus", "vaccination", "disease", "transmission",
     "mathematical", "statistical", "clinical", "epidemiological"]

  /** Math.max(0, 50 - position * 2). */
  function PositionBonus(position: nat): (b: int)
    ensures 0 <= b <= 50
  {
    if 50 - 2 * position > 0 then 50 - 2 * position else 0
  }

  /** +20 for a length in 50..150 and +10 for a length in 30..200. */
  function LengthBonus(n: nat): (b: int)
    ensures 0 <= b <= 30
    ensures 50 <= n <= 150 <==> b == 30
    ensures b == 0 <==> n < 30 || n > 200
  {
    (if 50 <= n <= 150 then 20 else 0) + (if 30 <= n <= 200 then 10 else 0)
  }

  /** The regex /[A-Z][a-z]/: an upper-case ASCII letter directly followed
      by a lower-case one. */
  predicate HasUpperLower(s: string) {
    exists i :: 0 <= i < |s| - 1 && IsAsciiUpper(s[i]) && IsAsciiLower(s[i + 1])
  }

  /** How many of `words` occur in `s` (the `forEach` that adds a bonus per
      word found). */
  function CountIn(words: seq<string>, s: string): nat {
    |set k | 0 <= k < |words| && Contains(s, words[k])|
  }

  /** Counting a list extended by one word adds that word's contribution. */
  lemma CountInSnoc(words: seq<string>, w: string, s: string)
    ensures CountIn(words + [w], s) == CountIn(words, s) + (if Contains(s, w) then 1 else 0)
  {
    var a := set k | 0 <= k < |words| && Contains(s, words[k]);
    var b := set k | 0 <= k < |words + [w]| && Contains(s, (words + [w])[k]);
    assert |words| !in a;
    if Contains(s, w) {
      assert b == a + {|words|};
    } else {
      assert b == a;
    }
  }

  lemma {:induction false} CountInAtMost(words: seq<string>, s: string)
    ensures CountIn(words, s) <= |words|
    decreases |words|
  {
    if words != [] {
      var init := words[..|words| - 1];
      assert words == init + [words[|words| - 1]];
      CountInSnoc(init, words[|words| - 1], s);
      CountInAtMost(init, s);
    } else {
      assert (set k | 0 <= k < |words| && Contains(s, words[k])) == {};
    }
  }

  /** Number of characters satisfying `p`, as `(s.match(/[..]/g) || []).length`. */
  function CountChars(s: string, p: char -> bool): (n: nat)
    ensures n <= |s|
    decreases |s|
  {
    if s == [] then 0 else (if p(s[0]) then 1 else 0) + CountChars(s[1..], p)
  }

  /** The metadata vocabulary that costs a candidate 30 points. */
  predicate LooksLikeMetadata(lower: string) {
    ContainsAny(lower, ["journal", "volume", "doi", "issn"])
  }

  /** calculateTitleScore, term by term. `numberCount > length * 0.3` is
      `10 * numberCount > 3 * length` on the integers; the two agree on every
      line length the candidates can have. */
  function TitleScore(text: string, position: nat): int {
    var lower := ToLower(text);
    PositionBonus(position)
    + LengthBonus(|text|)
    + (if text != [] && IsAsciiUpper(text[0]) then 10 else 0)
    + (if HasUpperLower(text) then 5 else 0)
    + 3 * CountIn(AcademicWords, lower)
    + 5 * CountIn(ScientificTerms, lower)
    - (if LooksLikeMetadata(lower) then 30 else 0)
    - (if 10 * CountChars(text, IsDigit) > 3 * |text| then 20 else 0)
  }

  /** calculateTitleScore: the score accumulated term by term, with the two
      word lists walked by loops. */
  method CalculateTitleScore(text: string, position: nat) returns (score: int)
    ensures score == TitleScore(text, position)
  {
    var lower := ToLower(text);
    score := 0;
    score := score + PositionBonus(position);
    if 50 <= |text| <= 150 { score := score + 20; }
    if 30 <= |text| <= 200 { score := score + 10; }
    if text != [] && IsAsciiUpper(text[0]) { score := score + 10; }
    if HasUpperLower(text) { score := score + 5; }
    var academic := WordPoints(AcademicWords, lower, 3);
    score := score + academic;
    var scientific := WordPoints(ScientificTerms, lower, 5);
    score := score + scientific;
    if LooksLikeMetadata(lower) { score := score - 30; }
    var numberCount := CountChars(text, IsDigit);
    if 10 * numberCount > 3 * |text| { score := score - 20; }
  }

  /** The points one word list gives: `weight` for every listed word the
      lower-cased text contains, counted by a loop over the list. */
  method WordPoints(words: seq<string>, lower: string, weight: int) returns (points: int)
    ensures points == weight * CountIn(words, lower)
  {
    points := 0;
    for k := 0 to |words|
      invariant points == weight * CountIn(words[..k], lower)
    {
      assert words[..k + 1] == words[..k] + [words[k]];
      CountInSnoc(words[..k], words[k], lower);
      if Contains(lower, words[k]) { points := points + weight; }
    }
    assert words[..|words|] == words;
  }

  /** For the same text an earlier position never scores lower. */
  lemma TitleScoreEarlierNotLower(text: string, p: nat, q: nat)
    requires p <= q
    ensures TitleScore(text, p) >= TitleScore(text, q)
    ensures TitleScore(text, p) - TitleScore(text, q) == PositionBonus(p) - PositionBonus(q)
  {
  }

  /** The score of any text lies between -50 and 188. */
  lemma TitleScoreBounds(text: string, position: nat)
    ensures -50 <= TitleScore(text, position) <= 188
  {
    CountInAtMost(AcademicWords, ToLower(text));
    CountInAtMost(ScientificTerms, ToLower(text));
    assert |AcademicWords| == 16 && |ScientificTerms| == 9;
  }

  // ---------------------------------------------------------------------------
  // Candidate lines
  // ---------------------------------------------------------------------------

  datatype Candidate = Candidate(text: string, score: int, position: nat)

  /** lines.map(trim).filter(non-empty). */
  function CleanLines(lines: seq<string>): (r: seq<string>)
    ensures |r| <= |lines|
    ensures forall k :: 0 <= k < |r| ==> r[k] != []
    decreases |lines|
  {
    if lines == [] then []
    else
      var t := TrimJs(lines[0]);
      (if t == [] then [] else [t]) + CleanLines(lines[1..])
  }

  const JournalNames: seq<string> :=
    ["mathematics and computers in simulation", "scientific reports", "human vaccines",
     "immunotherapeutics", "plos one", "chaos, solitons", "mathematical biosciences",
     "aimspress", "elsevier", "springer", "wiley", "nature", "science"]

  const MetadataWords: seq<string> :=
    ["journal", "volume", "number", "page", "doi", "issn", "published", "received",
     "accepted", "available", "contents", "sciencedirect", "aims", "springer",
     "elsevier", "wiley"]

  /** The case-insensitive prefix patterns among the skip patterns, written
      in lower case (`^http[s]?://` is its two spellings). */
  const SkipPrefixes: seq<string> :=
    ["doi:", "issn", "volume", "number", "page", "pp.", "published", "received",
     "accepted", "available online", "contents lists", "sciencedirect", "http://",
     "https://", "www.", "research article", "original article", "article",
     "abstract", "keywords", "introduction", "methods", "author", "corresponding",
     "email", "affiliation", "department", "university", "college", "school"]

  predicate StartsWithAny(s: string, ps: seq<string>) {
    exists k :: 0 <= k < |ps| && StartsWith(s, ps[k])
  }

  /** The text up to the first line terminator: what `.` can run over. */
  function LinePrefix(s: string): (r: string)
    ensures |r| <= |s| && r == s[..|r|]
    ensures forall k :: 0 <= k < |r| ==> !IsJsLineTerminator(r[k])
    decreases |s|
  {
    if s == [] || IsJsLineTerminator(s[0]) then [] else [s[0]] + LinePrefix(s[1..])
  }

  /** The regex `a.*b`: an occurrence of `a` followed, on the same line, by
      an occurrence of `b`. */
  predicate PrecedesWithinLine(s: string, a: string, b: string) {
    exists i :: 0 <= i <= |s| - |a| && OccursAt(s, a, i) && Contains(LinePrefix(s[i + |a|..]), b)
  }

  /** What must follow the day digits in /^\d{1,2}\s+\w+\s+\d{4}/: white
      space, a word, white space and four digits. Each run is maximal, since
      \s and \w never match the same character. */
  predicate SpacedWordThenYear(s: string) {
    s != [] && IsJsSpace(s[0]) &&
    var t := TrimStart(s, IsJsSpace);
    t != [] && IsJsWordChar(t[0]) &&
    var u := TrimStart(t, IsJsWordChar);
    u != [] && IsJsSpace(u[0]) &&
    var v := TrimStart(u, IsJsSpace);
    |v| >= 4 && IsDigit(v[0]) && IsDigit(v[1]) && IsDigit(v[2]) && IsDigit(v[3])
  }

  /** /^\d{1,2}\s+\w+\s+\d{4}/: a day-month-year line such as "12 March 2021". */
  predicate DayMonthYearPrefix(s: string) {
    |s| >= 1 && IsDigit(s[0]) &&
    (SpacedWordThenYear(s[1..]) || (|s| >= 2 && IsDigit(s[1]) && SpacedWordThenYear(s[2..])))
  }

  /** Some skip pattern matches the line. */
  predicate MatchesSkipPattern(line: string) {
    var lower := ToLower(line);
    StartsWithAny(lower, SkipPrefixes)
    || StartsWith(line, "\U{A9}") || StartsWith(line, "|")
    || (|line| >= 4 && IsDigit(line[0]) && IsDigit(line[1]) && IsDigit(line[2]) && IsDigit(line[3]))
    || PrecedesWithinLine(lower, "received", "accepted")
    || PrecedesWithinLine(lower, "accepted", "published")
    || DayMonthYearPrefix(line)
    || PrecedesWithinLine(lower, "contents", "available")
    || PrecedesWithinLine(lower, "science", "direct")
    || PrecedesWithinLine(lower, "mathematics", "computers")
  }

  /** Number of pieces `s.split(/\s+/)` gives: one more than the number of
      maximal white-space runs. */
  function SpaceRuns(s: string, inRun: bool): nat
    decreases |s|
  {
    if s == [] then 0
    else if IsJsSpace(s[0]) then (if inRun then 0 else 1) + SpaceRuns(s[1..], true)
    else SpaceRuns(s[1..], false)
  }

  function RegexSplitCount(s: string): nat { 1 + SpaceRuns(s, false) }

  /** Strategy 1's test on one cleaned line: length 25..300, no skip pattern,
      no journal name, no metadata word, at least 60% ASCII letters
      (`alphaCount < length * 0.6` fails exactly when `5 * alphaCount < 3 * length`),
      a capitalised word, at least four words and no final period. */
  predicate IsTitleLine(line: string) {
    var lower := ToLower(line);
    25 <= |line| <= 300
    && !MatchesSkipPattern(line)
    && !ContainsAny(lower, JournalNames)
    && !ContainsAny(lower, MetadataWords)
    && !(5 * CountChars(line, IsAsciiLetter) < 3 * |line|)
    && HasUpperLower(line)
    && RegexSplitCount(line) >= 4
    && !EndsWith(line, ".")
  }

  /** Strategy 2's test on two neighbouring lines. */
  predicate IsTwoLineTitle(line1: string, line2: string) {
    |line1| > 20 && |line2| > 20
    && !Contains(ToLower(line1), "journal") && !Contains(ToLower(line2), "journal")
    && 30 < |line1 + " " + line2| < 250
  }

  const AfterKeywords: seq<string> := ["research article", "original article", "article"]

  /** Strategy 3's length test on a line after an article keyword. */
  predicate IsAfterKeywordTitle(line: string) { 30 < |line| < 250 }

  function Min(a: int, b: int): int { if a < b then a else b }

  /** The candidates among the lines lo .. j-1 that pass `keep`, in order,
      each scored by `score` at its own position. */
  function LineCandidates(cl: seq<string>, lo: nat, j: nat, keep: string -> bool,
                          score: (string, nat) -> int): seq<Candidate>
    requires lo <= j <= |cl|
    decreases j
  {
    if j == lo then []
    else
      var line := cl[j - 1];
      var here := if keep(line) then [Candidate(line, score(line, j - 1), j - 1)] else [];
      LineCandidates(cl, lo, j - 1, keep, score) + here
  }

  lemma {:induction false} LineCandidatesShape(cl: seq<string>, lo: nat, j: nat, keep: string -> bool,
                                               score: (string, nat) -> int)
    requires lo <= j <= |cl|
    ensures forall k :: 0 <= k < |LineCandidates(cl, lo, j, keep, score)| ==>
      var c := LineCandidates(cl, lo, j, keep, score)[k];
      lo <= c.position < j && c.text == cl[c.position] && keep(c.text) &&
      c.score == score(c.text, c.position)
    decreases j
  {
    if j > lo {
      LineCandidatesShape(cl, lo, j - 1, keep, score);
      var prev := LineCandidates(cl, lo, j - 1, keep, score);
      var line := cl[j - 1];
      var here := if keep(line) then [Candidate(line, score(line, j - 1), j - 1)] else [];
      assert forall k :: 0 <= k < |prev| ==> (prev + here)[k] == prev[k];
    }
  }

  lemma LineCandidatesStep(cl: seq<string>, lo: nat, j: nat, keep: string -> bool,
                           score: (string, nat) -> int)
    requires lo <= j < |cl|
    ensures LineCandidates(cl, lo, j + 1, keep, score) ==
      LineCandidates(cl, lo, j, keep, score) + (if keep(cl[j]) then [Candidate(cl[j], score(cl[j], j), j)] else [])
  {
  }

  /** Strategy 1's candidates from the first `i` cleaned lines. */
  function Strategy1(cl: seq<string>, i: nat): seq<Candidate>
    requires i <= |cl|
  {
    LineCandidates(cl, 0, i, IsTitleLine, TitleScore)
  }

  /** The joined neighbouring lines (k, k+1) for k below `i` that pass
      `keep`, in order, each scored by `score` at position k. */
  function PairCandidates(cl: seq<string>, i: nat, keep: (string, string) -> bool,
                          score: (string, nat) -> int): seq<Candidate>
    requires i < |cl| || i == 0
  {
    if i == 0 then []
    else
      var combined := cl[i - 1] + " " + cl[i];
      var here := if keep(cl[i - 1], cl[i]) then [Candidate(combined, score(combined, i - 1), i - 1)] else [];
      PairCandidates(cl, i - 1, keep, score) + here
  }

  lemma {:induction false} PairCandidatesShape(cl: seq<string>, i: nat, keep: (string, string) -> bool,
                                               score: (string, nat) -> int)
    requires i < |cl| || i == 0
    ensures forall k :: 0 <= k < |PairCandidates(cl, i, keep, score)| ==>
      var c := PairCandidates(cl, i, keep, score)[k];
      c.position < i && c.text == cl[c.position] + " " + cl[c.position + 1] &&
      keep(cl[c.position], cl[c.position + 1]) && c.score == score(c.text, c.position)
  {
    if i > 0 {
      PairCandidatesShape(cl, i - 1, keep, score);
      var prev := PairCandidates(cl, i - 1, keep, score);
      var combined := cl[i - 1] + " " + cl[i];
      var here: seq<Candidate> := if keep(cl[i - 1], cl[i]) then [Candidate(combined, score(combined, i - 1), i - 1)] else [];
      forall k | 0 <= k < |prev + here|
        ensures var c := (prev + here)[k];
          c.position < i && c.text == cl[c.position] + " " + cl[c.position + 1] &&
          keep(cl[c.position], cl[c.position + 1]) && c.score == score(c.text, c.position)
      {
        if k < |prev| {
          assert (prev + here)[k] == prev[k];
        } else {
          assert (prev + here)[k] == here[k - |prev|];
        }
      }
    }
  }

  lemma PairCandidatesStep(cl: seq<string>, i: nat, keep: (string, string) -> bool,
                           score: (string, nat) -> int)
    requires i + 1 < |cl|
    ensures PairCandidates(cl, i + 1, keep, score) ==
      PairCandidates(cl, i, keep, score) +
      (if keep(cl[i], cl[i + 1]) then [Candidate(cl[i] + " " + cl[i + 1], score(cl[i] + " " + cl[i + 1], i), i)] else [])
  {
  }

  /** Two joined lines earn 10 points on top of their score. */
  function TwoLineScore(text: string, position: nat): int { TitleScore(text, position) + 10 }

  /** Strategy 2's candidates for the start lines below `i`. */
  function Strategy2(cl: seq<string>, i: nat): seq<Candidate>
    requires i < |cl| || i == 0
  {
    PairCandidates(cl, i, IsTwoLineTitle, TwoLineScore)
  }

  /** A line after a keyword line earns 5 points on top of its score. */
  function AfterKeywordScore(text: string, position: nat): int { TitleScore(text, position) + 5 }

  /** Strategy 3's candidates among lines i+1 .. j-1 after keyword line i. */
  function Strategy3Inner(cl: seq<string>, i: nat, j: nat): seq<Candidate>
    requires i < j <= |cl|
  {
    LineCandidates(cl, i + 1, j, IsAfterKeywordTitle, AfterKeywordScore)
  }

  /** Strategy 3's candidates for the keyword lines below `i`. */
  function Strategy3(cl: seq<string>, i: nat): seq<Candidate>
    requires i <= |cl|
  {
    if i == 0 then []
    else
      var here := if ContainsAny(ToLower(cl[i - 1]), AfterKeywords) then Strategy3Inner(cl, i - 1, Min(i - 1 + 5, |cl|)) else [];
      Strategy3(cl, i - 1) + here
  }

  function Bound1(cl: seq<string>): nat { Min(30, |cl|) }

  function Bound2(cl: seq<string>): nat { if cl == [] then 0 else Min(25, |cl| - 1) }

  function Bound3(cl: seq<string>): nat { Min(20, |cl|) }

  /** All candidates in the order the three strategies push them. */
  function Candidates(cl: seq<string>): seq<Candidate> {
    Strategy1(cl, Bound1(cl)) + Strategy2(cl, Bound2(cl)) + Strategy3(cl, Bound3(cl))
  }

  /** `b` is the candidate a stable descending sort by score puts first: no
      candidate scores higher, and every earlier one scores lower. */
  predicate IsFirstBest(c: seq<Candidate>, b: int) {
    0 <= b < |c|
    && (forall k :: 0 <= k < |c| ==> c[k].score <= c[b].score)
    && (forall k :: 0 <= k < b ==> c[k].score < c[b].score)
  }

  /** A title that still contains a lone "a", "i" or "o" is de-spaced. */
  predicate LooksSpaced(t: string) {
    Contains(t, " a ") || Contains(t, " i ") || Contains(t, " o ")
  }

  function Finish(t: string): string { if LooksSpaced(t) then DeSpaced(t) else t }

  /** A Strategy 1 candidate is a cleaned line among the first `i` that
      passes the title-line test, scored at its own position. */
  predicate Strategy1Ok(cl: seq<string>, i: nat, c: Candidate) {
    c.position < i && c.position < |cl| && c.text == cl[c.position] && IsTitleLine(c.text) &&
    c.score == TitleScore(c.text, c.position)
  }

  lemma Strategy1Shape(cl: seq<string>, i: nat)
    requires i <= |cl|
    ensures forall k :: 0 <= k < |Strategy1(cl, i)| ==> Strategy1Ok(cl, i, Strategy1(cl, i)[k])
  {
    LineCandidatesShape(cl, 0, i, IsTitleLine, TitleScore);
  }

  /** Every Strategy 2 candidate joins two neighbouring lines with a space
      and earns 10 points on top of its score. */
  lemma Strategy2Shape(cl: seq<string>, i: nat)
    requires i < |cl| || i == 0
    ensures forall k :: 0 <= k < |Strategy2(cl, i)| ==>
      var c := Strategy2(cl, i)[k];
      c.position < i && c.text == cl[c.position] + " " + cl[c.position + 1] &&
      IsTwoLineTitle(cl[c.position], cl[c.position + 1]) &&
      c.score == TitleScore(c.text, c.position) + 10
  {
    PairCandidatesShape(cl, i, IsTwoLineTitle, TwoLineScore);
  }

  lemma Strategy3InnerShape(cl: seq<string>, i: nat, j: nat)
    requires i < j <= |cl|
    ensures forall k :: 0 <= k < |Strategy3Inner(cl, i, j)| ==>
      var c := Strategy3Inner(cl, i, j)[k];
      i < c.position < j && c.text == cl[c.position] && IsAfterKeywordTitle(c.text) &&
      c.score == TitleScore(c.text, c.position) + 5
  {
    LineCandidatesShape(cl, i + 1, j, IsAfterKeywordTitle, AfterKeywordScore);
  }

  /** A Strategy 3 candidate: a cleaned line of the right length within
      four lines after a keyword line below `i`, scored with 5 extra points. */
  predicate Strategy3Ok(cl: seq<string>, i: nat, c: Candidate) {
    c.position < |cl| && c.text == cl[c.position] && IsAfterKeywordTitle(c.text) &&
    c.score == TitleScore(c.text, c.position) + 5 && KeywordLineBefore(cl, c.position, i)
  }

  lemma Strategy3OkWiden(cl: seq<string>, i: nat, c: Candidate)
    requires Strategy3Ok(cl, i, c)
    ensures Strategy3Ok(cl, i + 1, c)
  {
    var m :| 0 <= m < i && m < |cl| && m < c.position <= m + 4 && ContainsAny(ToLower(cl[m]), AfterKeywords);
    assert 0 <= m < i + 1;
  }

  /** A line that mentions an article keyword among the first `i`. */
  predicate KeywordLineBefore(cl: seq<string>, p: nat, i: nat) {
    exists m :: 0 <= m < i && m < |cl| && m < p <= m + 4 && ContainsAny(ToLower(cl[m]), AfterKeywords)
  }

  lemma Strategy3StepShape(cl: seq<string>, i: nat, k: nat)
    requires 0 < i <= |cl|
    requires ContainsAny(ToLower(cl[i - 1]), AfterKeywords)
    requires k < |Strategy3Inner(cl, i - 1, Min(i - 1 + 5, |cl|))|
    ensures Strategy3Ok(cl, i, Strategy3Inner(cl, i - 1, Min(i - 1 + 5, |cl|))[k])
  {
    Strategy3InnerShape(cl, i - 1, Min(i - 1 + 5, |cl|));
    var c := Strategy3Inner(cl, i - 1, Min(i - 1 + 5, |cl|))[k];
    assert i - 1 < c.position <= i - 1 + 4;
  }

  /** Every Strategy 3 candidate is one of the four lines after a line that
      mentions an article keyword, and earns 5 points on top of its score. */
  lemma {:induction false} Strategy3Shape(cl: seq<string>, i: nat)
    requires i <= |cl|
    ensures forall k :: 0 <= k < |Strategy3(cl, i)| ==> Strategy3Ok(cl, i, Strategy3(cl, i)[k])
  {
    if i > 0 {
      Strategy3Shape(cl, i - 1);
      var prev := Strategy3(cl, i - 1);
      var here := if ContainsAny(ToLower(cl[i - 1]), AfterKeywords) then Strategy3Inner(cl, i - 1, Min(i - 1 + 5, |cl|)) else [];
      assert Strategy3(cl, i) == prev + here;
      forall k | 0 <= k < |prev + here| ensures Strategy3Ok(cl, i, (prev + here)[k]) {
        if k < |prev| {
          assert (prev + here)[k] == prev[k];
          Strategy3OkWiden(cl, i - 1, prev[k]);
        } else {
          Strategy3StepShape(cl, i, k - |prev|);
          assert (prev + here)[k] == here[k - |prev|];
        }
      }
    }
  }

  method CollectStrategy1(cl: seq<string>) returns (cands: seq<Candidate>)
    ensures cands == Strategy1(cl, Bound1(cl))
  {
    cands := CollectLines(cl, 0, Min(30, |cl|), IsTitleLine, 0, TitleScore);
  }

  /** The loop of strategies 1 and 3: every line lo .. hi-1 that passes
      `keep` is pushed with its calculated score plus `bonus`. */
  method CollectLines(cl: seq<string>, lo: nat, hi: nat, keep: string -> bool, bonus: int,
                      score: (string, nat) -> int) returns (cands: seq<Candidate>)
    requires lo <= hi <= |cl|
    requires forall t: string, p: nat :: score(t, p) == TitleScore(t, p) + bonus
    ensures cands == LineCandidates(cl, lo, hi, keep, score)
  {
    cands := [];
    var j := lo;
    while j < hi
      invariant lo <= j <= hi
      invariant cands == LineCandidates(cl, lo, j, keep, score)
    {
      var line := cl[j];
      LineCandidatesStep(cl, lo, j, keep, score);
      if keep(line) {
        var s := CalculateTitleScore(line, j);
        assert s + bonus == score(line, j);
        cands := cands + [Candidate(line, s + bonus, j)];
      }
      j := j + 1;
    }
  }

  method CollectStrategy2(cl: seq<string>) returns (cands: seq<Candidate>)
    ensures cands == Strategy2(cl, Bound2(cl))
  {
    cands := CollectLinePairs(cl, Bound2(cl), IsTwoLineTitle, 10, TwoLineScore);
  }

  /** The loop of strategy 2: every pair of neighbouring lines starting below
      `hi` that passes `keep` is pushed, joined with ' ', with its calculated
      score plus `bonus`. */
  method CollectLinePairs(cl: seq<string>, hi: nat, keep: (string, string) -> bool, bonus: int,
                          score: (string, nat) -> int) returns (cands: seq<Candidate>)
    requires hi < |cl| || hi == 0
    requires forall t: string, p: nat :: score(t, p) == TitleScore(t, p) + bonus
    ensures cands == PairCandidates(cl, hi, keep, score)
  {
    cands := [];
    var i := 0;
    while i < hi
      invariant 0 <= i <= hi
      invariant cands == PairCandidates(cl, i, keep, score)
    {
      var line1 := cl[i];
      var line2 := cl[i + 1];
      PairCandidatesStep(cl, i, keep, score);
      if keep(line1, line2) {
        var combined := line1 + " " + line2;
        var s := CalculateTitleScore(combined, i);
        cands := cands + [Candidate(combined, s + bonus, i)];
      }
      i := i + 1;
    }
  }

  method CollectAfterKeyword(cl: seq<string>, i: nat) returns (cands: seq<Candidate>)
    requires i < |cl|
    ensures cands == Strategy3Inner(cl, i, Min(i + 5, |cl|))
  {
    cands := CollectLines(cl, i + 1, Min(i + 5, |cl|), IsAfterKeywordTitle, 5, AfterKeywordScore);
  }

  method CollectStrategy3(cl: seq<string>) returns (cands: seq<Candidate>)
    ensures cands == Strategy3(cl, Bound3(cl))
  {
    cands := [];
    var i := 0;
    while i < Min(20, |cl|)
      invariant 0 <= i <= Bound3(cl)
      invariant cands == Strategy3(cl, i)
    {
      var lower := ToLower(cl[i]);
      if ContainsAny(lower, AfterKeywords) {
        var more := CollectAfterKeyword(cl, i);
        cands := cands + more;
      }
      i := i + 1;
    }
  }

  /** The entry a stable sort by descending score puts first. */
  method SelectBest(cands: seq<Candidate>) returns (best: nat)
    requires |cands| > 0
    ensures IsFirstBest(cands, best)
  {
    best := 0;
    var k := 1;
    while k < |cands|
      invariant 1 <= k <= |cands| && 0 <= best < k
      invariant forall m :: 0 <= m < k ==> cands[m].score <= cands[best].score
      invariant forall m :: 0 <= m < best ==> cands[m].score < cands[best].score
    {
      if cands[k].score > cands[best].score { best := k; }
      k := k + 1;
    }
  }

  /** extractTitle: the three strategies push candidates, the first of the
      highest score is cleaned by `cleanTitle` and, if it still looks spaced,
      de-spaced; with no candidate the result is ''. */
  method ExtractTitle(lines: seq<string>, cleanTitle: string -> string) returns (title: string)
    ensures var c := Candidates(CleanLines(lines));
      (c == [] ==> title == "") &&
      (c != [] ==> exists b :: IsFirstBest(c, b) && title == Finish(cleanTitle(c[b].text)))
  {
    var cl := CleanLines(lines);
    var c1 := CollectStrategy1(cl);
    var c2 := CollectStrategy2(cl);
    var c3 := CollectStrategy3(cl);
    var cands := c1 + c2 + c3;
    if |cands| == 0 {
      return "";
    }
    var best := SelectBest(cands);
    title := cleanTitle(cands[best].text);
    if LooksSpaced(title) {
      title := FixSpacedText(title);
    }
  }
}

/** The Google Scholar profile crawler (scripts/scholar-citation-crawler.js)
    and the parts the multi-method crawler (scripts/proxy-scholar-crawler.js)
    shares with it word for word: the fuzzy title match, the profile parser's
    fallback order, the Scholar id lookup in config.json and the loop that
    rewrites `citations` in place. The HTML fetch is a parameter: an oracle
    that answers each attempt; the page's regex scans are another. */
module ScholarCrawler {
  import opened Common
  import opened Catalog

  // ---------------------------------------------------------------------------
  // matchTitle
  // ---------------------------------------------------------------------------

  /** The characters `[^\w\s]` does not match. */
  predicate KeepChar(c: char) { IsJsWordChar(c) || IsJsSpace(c) }

  /** The `normalize` helper of matchTitle: lower-case, every character that is
      neither a word character nor a space becomes ' ', every run of spaces
      becomes one ' ', then trim. */
  function NormalizeForMatch(title: string): string {
    TrimJs(CollapseSpaces(ReplaceOther(ToLower(title), KeepChar, " "), IsJsSpace))
  }

  /** A character a normalised title can hold. */
  predicate IsMatchChar(c: char) { c == ' ' || (IsJsWordChar(c) && !IsAsciiUpper(c)) }

  /** The normal form: lower-case word characters separated by single blanks. */
  predicate IsNormalForMatch(s: string) {
    (forall k :: 0 <= k < |s| ==> IsMatchChar(s[k])) && NoDoubleSpace(s) &&
    (s == [] || (s[0] != ' ' && s[|s| - 1] != ' '))
  }

  lemma NormalizeForMatchShape(title: string)
    ensures IsNormalForMatch(NormalizeForMatch(title))
  {
    var p := ReplaceOther(ToLower(title), KeepChar, " ");
    assert forall ch :: ch in p ==> KeepChar(ch) && !IsAsciiUpper(ch);
    CollapsedMatchChars(p);
    TrimmedNormal(CollapseSpaces(p, IsJsSpace));
  }

  /** Collapsing spaces in lower-case kept characters leaves match characters
      and no doubled blank. */
  lemma CollapsedMatchChars(p: string)
    requires forall ch :: ch in p ==> KeepChar(ch) && !IsAsciiUpper(ch)
    ensures var c := CollapseSpaces(p, IsJsSpace);
      (forall k :: 0 <= k < |c| ==> IsMatchChar(c[k])) && NoDoubleSpace(c)
  {
    var c := CollapseSpaces(p, IsJsSpace);
    CollapseShape(p, IsJsSpace, false);
    forall k | 0 <= k < |c| ensures IsMatchChar(c[k]) {
      assert c[k] in c;
    }
  }

  /** Trimming a string of match characters without doubled blanks gives the
      normal form. */
  lemma TrimmedNormal(c: string)
    requires (forall k :: 0 <= k < |c| ==> IsMatchChar(c[k])) && NoDoubleSpace(c)
    ensures IsNormalForMatch(TrimJs(c))
  {
    var r := TrimJs(c);
    var a := TrimJsSlice(c);
    assert forall k :: 0 <= k < |r| ==> r[k] == c[a + k];
  }

  /** A title already in normal form normalises to itself. */
  lemma NormalFormFixed(s: string)
    requires IsNormalForMatch(s)
    ensures NormalizeForMatch(s) == s
  {
    ToLowerUnchanged(s);
    ReplaceOtherUnchanged(s, KeepChar, " ");
    CollapseUnchanged(s, IsJsSpace, false);
    TrimJsUnchanged(s);
  }

  lemma NormalizeForMatchIdempotent(title: string)
    ensures NormalizeForMatch(NormalizeForMatch(title)) == NormalizeForMatch(title)
  {
    NormalizeForMatchShape(title);
    NormalFormFixed(NormalizeForMatch(title));
  }

  function Min(a: int, b: int): int { if a <= b then a else b }

  /** `norm.split(' ').slice(0, 5).join(' ')`. */
  function FirstWords(norm: string): string {
    var words := Split(norm, ' ');
    Join(words[..Min(5, |words|)], " ")
  }

  /** matchTitle: equal normal forms, one containing the other, or the same
      first five words. */
  predicate MatchTitle(localTitle: string, scholarTitle: string) {
    var a := NormalizeForMatch(localTitle);
    var b := NormalizeForMatch(scholarTitle);
    a == b || Contains(a, b) || Contains(b, a) || FirstWords(a) == FirstWords(b)
  }

  lemma MatchTitleSymmetric(a: string, b: string)
    ensures MatchTitle(a, b) <==> MatchTitle(b, a)
  {
  }

  lemma MatchTitleReflexive(a: string)
    ensures MatchTitle(a, a)
  {
  }

  /** A Scholar title made only of punctuation and spaces normalises to "",
      which every local title contains. */
  lemma EmptyNormalMatchesAll(localTitle: string, scholarTitle: string)
    requires NormalizeForMatch(scholarTitle) == ""
    ensures MatchTitle(localTitle, scholarTitle)
  {
    ContainsEmpty(NormalizeForMatch(localTitle));
  }

  /** Matching ignores case and is unaffected by normalising either title
      first. */
  lemma MatchTitleNormalized(a: string, b: string)
    ensures MatchTitle(ToLower(a), b) == MatchTitle(a, b)
    ensures MatchTitle(NormalizeForMatch(a), b) == MatchTitle(a, b)
  {
    ToLowerIdempotent(a);
    NormalizeForMatchIdempotent(a);
  }

  // ---------------------------------------------------------------------------
  // The citation-update loop
  // ---------------------------------------------------------------------------

  /** One `{ title, citations }` entry read from the profile page. */
  datatype ScholarPub = ScholarPub(title: string, citations: nat)

  /** The test of the inner loop: `matchTitle(title, scholarPub.title)`. */
  function MatchesTitle(title: string): ScholarPub -> bool {
    (sp: ScholarPub) => MatchTitle(title, sp.title)
  }

  /** The first profile entry, in page order, whose title matches. */
  function FirstMatch(title: string, profile: seq<ScholarPub>): Option<ScholarPub> {
    FirstSatisfying(profile, MatchesTitle(title))
  }

  /** The inner `for (const scholarPub of scholarPublications)` loop with its
      `break` on the first entry that passes `matches`. */
  method FindMatch(profile: seq<ScholarPub>, matches: ScholarPub -> bool) returns (r: Option<ScholarPub>)
    ensures r == FirstSatisfying(profile, matches)
  {
    var j := 0;
    while j < |profile|
      invariant 0 <= j <= |profile|
      invariant forall k :: 0 <= k < j ==> !matches(profile[k])
    {
      if matches(profile[j]) {
        assert FirstSatisfying(profile, matches) == Some(profile[j]);
        return Some(profile[j]);
      }
      j := j + 1;
    }
    return None;
  }

  /** The record differs from `before` in `citations` and
      `citations_updated_at` at most. */
  predicate OnlyCitationsDiffer(before: Publication, after: Publication) {
    after.(citations := before.citations, citations_updated_at := before.citations_updated_at) == before
  }

  /** What one pass of the loop body leaves in a titled record: the first
      matching entry's count and the run's timestamp, or, without a match,
      the count it had (0 when absent). */
  function UpdatedRecord(p: Publication, profile: seq<ScholarPub>, now: string): (r: Publication)
    requires p.title.Some?
    ensures OnlyCitationsDiffer(p, r)
    ensures r.citations.Some?
    ensures FirstMatch(p.title.value, profile).Some? ==>
      r.citations == Some(FirstMatch(p.title.value, profile).value.citations) &&
      r.citations_updated_at == Some(now)
    ensures FirstMatch(p.title.value, profile).None? ==>
      CitationsOrZero(r) == CitationsOrZero(p) && r.citations_updated_at == p.citations_updated_at
  {
    match FirstMatch(p.title.value, profile)
    case Some(e) => p.(citations := Some(e.citations), citations_updated_at := Some(now))
    case None => p.(citations := Some(CitationsOrZero(p)))
  }

  /** The record is matched and its count (`citations || 0`) differs from
      the matched entry's: what `updated++` counts. */
  predicate IsChanged(p: Publication, profile: seq<ScholarPub>) {
    p.title.Some? && FirstMatch(p.title.value, profile).Some? &&
    CitationsOrZero(p) != FirstMatch(p.title.value, profile).value.citations
  }

  function ChangedUnder(profile: seq<ScholarPub>): Publication -> bool {
    (p: Publication) => IsChanged(p, profile)
  }

  /** The final value of `updated`. */
  function ChangedCount(pubs: Catalog, profile: seq<ScholarPub>): nat {
    CountWhere(pubs, ChangedUnder(profile))
  }

  /** The catalog after the loop ran over every (titled) record. */
  function UpdatedCatalog(pubs: Catalog, profile: seq<ScholarPub>, now: string): (r: Catalog)
    requires AllTitled(pubs)
    ensures |r| == |pubs|
    ensures forall k :: 0 <= k < |pubs| ==> OnlyCitationsDiffer(pubs[k], r[k]) && r[k].citations.Some?
  {
    seq(|pubs|, k requires 0 <= k < |pubs| => UpdatedRecord(pubs[k], profile, now))
  }

  lemma UpdatedCatalogSnoc(pubs: Catalog, p: Publication, profile: seq<ScholarPub>, now: string)
    requires AllTitled(pubs) && p.title.Some?
    ensures AllTitled(pubs + [p])
    ensures UpdatedCatalog(pubs + [p], profile, now) ==
            UpdatedCatalog(pubs, profile, now) + [UpdatedRecord(p, profile, now)]
  {
    assert forall k :: 0 <= k < |pubs| ==> (pubs + [p])[k] == pubs[k];
  }

  /** `for (const publication of publications)` of updateCitationsFromScholar
      (and of the multi-method crawler), rewriting the records in place.
      `publication.title.substring` throws on a record without a title: the
      loop stops there, reported as `failedAt`, with the records before it
      already rewritten. */
  method UpdateCitations(pubs: array<Publication>, profile: seq<ScholarPub>, now: string)
    returns (updated: nat, failedAt: Option<nat>)
    modifies pubs
    ensures failedAt.None? <==> AllTitled(old(pubs[..]))
    ensures failedAt.None? ==> pubs[..] == UpdatedCatalog(old(pubs[..]), profile, now) &&
                               updated == ChangedCount(old(pubs[..]), profile)
    ensures failedAt.Some? ==> failedAt.value < pubs.Length && old(pubs[..])[failedAt.value].title.None?
    ensures failedAt.Some? ==> AllTitled(old(pubs[..])[..failedAt.value])
    ensures failedAt.Some? ==>
      pubs[..] == UpdatedCatalog(old(pubs[..])[..failedAt.value], profile, now) + old(pubs[..])[failedAt.value..]
  {
    ghost var before := pubs[..];
    updated := 0;
    var i := 0;
    while i < pubs.Length
      invariant 0 <= i <= pubs.Length
      invariant AllTitled(before[..i])
      invariant pubs[..] == UpdatedCatalog(before[..i], profile, now) + before[i..]
      invariant updated == ChangedCount(before[..i], profile)
    {
      var publication := pubs[i];
      assert publication == before[i];
      if publication.title.None? {
        return updated, Some(i);
      }
      var rewritten, changed := RewriteRecord(publication, profile, now);
      pubs[i] := rewritten;
      if changed {
        updated := updated + 1;
      }
      UpdateStep(before, i, profile, now);
      CountWhereSnoc(before, i, ChangedUnder(profile));
      i := i + 1;
    }
    assert before[..i] == before;
    return updated, None;
  }

  /** One turn of the loop extends the rewritten prefix by one record. */
  lemma UpdateStep(before: Catalog, i: nat, profile: seq<ScholarPub>, now: string)
    requires i < |before| && AllTitled(before[..i]) && before[i].title.Some?
    ensures AllTitled(before[..i + 1])
    ensures (UpdatedCatalog(before[..i], profile, now) + before[i..])[i := UpdatedRecord(before[i], profile, now)] ==
            UpdatedCatalog(before[..i + 1], profile, now) + before[i + 1..]
  {
    assert before[..i + 1] == before[..i] + [before[i]];
    UpdatedCatalogSnoc(before[..i], before[i], profile, now);
    var done := UpdatedCatalog(before[..i], profile, now);
    UpdateAtSeam(done, before[i..], UpdatedRecord(before[i], profile, now));
    assert before[i..][1..] == before[i + 1..];
  }

  /** The loop body for one titled record: the inner search, the new
      `citations` / `citations_updated_at`, and whether `updated` is bumped. */
  method RewriteRecord(publication: Publication, profile: seq<ScholarPub>, now: string)
    returns (rewritten: Publication, changed: bool)
    requires publication.title.Some?
    ensures rewritten == UpdatedRecord(publication, profile, now)
    ensures changed == IsChanged(publication, profile)
  {
    var scholarPub := FindMatch(profile, MatchesTitle(publication.title.value));
    if scholarPub.Some? {
      var oldCitations := CitationsOrZero(publication);
      rewritten := publication.(citations := Some(scholarPub.value.citations), citations_updated_at := Some(now));
      changed := oldCitations != scholarPub.value.citations;
    } else {
      rewritten := publication.(citations := Some(CitationsOrZero(publication)));
      changed := false;
    }
  }

  /** Running the loop again with the same profile and timestamp leaves the
      catalog as it is and counts no change. */
  lemma RerunChangesNothing(pubs: Catalog, profile: seq<ScholarPub>, now: string)
    requires AllTitled(pubs)
    ensures AllTitled(UpdatedCatalog(pubs, profile, now))
    ensures UpdatedCatalog(UpdatedCatalog(pubs, profile, now), profile, now) == UpdatedCatalog(pubs, profile, now)
    ensures ChangedCount(UpdatedCatalog(pubs, profile, now), profile) == 0
  {
    var once := UpdatedCatalog(pubs, profile, now);
    forall k | 0 <= k < |pubs|
      ensures once[k].title == pubs[k].title
      ensures UpdatedRecord(once[k], profile, now) == once[k]
      ensures !IsChanged(once[k], profile)
    {
      assert once[k] == UpdatedRecord(pubs[k], profile, now);
      assert once[k].title == pubs[k].title by { assert OnlyCitationsDiffer(pubs[k], once[k]); }
    }
  }

  // ---------------------------------------------------------------------------
  // fetchScholarProfile
  // ---------------------------------------------------------------------------

  /** The outcome of one HTTPS request: a 200 answer with its body, or any
      failure (another status code, a request error, the 20-second timeout). */
  datatype Response = Ok(data: string) | Failed

  /** The default `maxRetries`. */
  const DefaultRetries: nat := 3

  function Pow2(n: nat): (r: nat)
    ensures r >= 1 && (n >= 1 ==> r >= 2)
  {
    if n == 0 then 1 else 2 * Pow2(n - 1)
  }

  lemma {:induction false} Pow2Monotone(a: nat, b: nat)
    requires a <= b
    ensures Pow2(a) <= Pow2(b)
    decreases b
  {
    if a < b { Pow2Monotone(a, b - 1); }
  }

  /** The pause before attempt `attempt` > 1:
      `Math.min(30000, 5000 * Math.pow(2, attempt - 1))` milliseconds. */
  function WaitTime(attempt: nat): (ms: nat)
    requires attempt >= 2
    ensures 10000 <= ms <= 30000
  {
    Min(30000, 5000 * Pow2(attempt - 1))
  }

  /** Later retries never wait less, and from the fourth attempt on the wait
      is the 30-second cap. */
  lemma WaitTimeSchedule(a: nat, b: nat)
    requires 2 <= a <= b
    ensures WaitTime(a) <= WaitTime(b)
    ensures WaitTime(2) == 10000 && WaitTime(3) == 20000
    ensures b >= 4 ==> WaitTime(b) == 30000
  {
    Pow2Monotone(a - 1, b - 1);
    if b >= 4 { Pow2Monotone(3, b - 1); }
  }

  /** The pauses taken before the attempts 2..n. */
  function RetryWaits(n: nat): (ws: seq<nat>)
    ensures |ws| == (if n == 0 then 0 else n - 1)
    ensures forall j :: 0 <= j < |ws| ==> ws[j] == WaitTime(j + 2)
  {
    if n <= 1 then [] else RetryWaits(n - 1) + [WaitTime(n)]
  }

  /** The body of the first successful attempt among `attempt..maxRetries`,
      '' when every one of them fails. */
  function RetryResult(fetch: (string, nat) -> Response, scholarId: string, attempt: nat, maxRetries: nat): string
    decreases maxRetries + 1 - attempt
  {
    if attempt > maxRetries then ""
    else if fetch(scholarId, attempt).Ok? then fetch(scholarId, attempt).data
    else RetryResult(fetch, scholarId, attempt + 1, maxRetries)
  }

  /** fetchScholarProfile: attempts 1..maxRetries, waiting `WaitTime(k)` before
      attempt k > 1, returning the first 200 body and '' when all fail. */
  method FetchScholarProfile(scholarId: string, fetch: (string, nat) -> Response, maxRetries: nat)
    returns (html: string, attempts: nat, waits: seq<nat>)
    ensures html == RetryResult(fetch, scholarId, 1, maxRetries)
    ensures attempts <= maxRetries && waits == RetryWaits(attempts)
    ensures forall k :: 1 <= k < attempts ==> fetch(scholarId, k).Failed?
    ensures attempts >= 1 && fetch(scholarId, attempts).Ok? ==> html == fetch(scholarId, attempts).data
    ensures !(attempts >= 1 && fetch(scholarId, attempts).Ok?) ==>
      attempts == maxRetries && html == "" && forall k :: 1 <= k <= maxRetries ==> fetch(scholarId, k).Failed?
  {
    waits := [];
    var attempt := 1;
    while attempt <= maxRetries
      invariant 1 <= attempt <= maxRetries + 1
      invariant forall k :: 1 <= k < attempt ==> fetch(scholarId, k).Failed?
      invariant RetryResult(fetch, scholarId, attempt, maxRetries) == RetryResult(fetch, scholarId, 1, maxRetries)
      invariant waits == RetryWaits(attempt - 1)
    {
      if attempt > 1 {
        waits := waits + [WaitTime(attempt)];
      }
      var result := fetch(scholarId, attempt);
      if result.Ok? {
        return result.data, attempt, waits;
      }
      attempt := attempt + 1;
    }
    return "", maxRetries, waits;
  }

  // ---------------------------------------------------------------------------
  // parseScholarProfile
  // ---------------------------------------------------------------------------

  predicate IsDigitString(s: string) { s != [] && forall i :: 0 <= i < |s| ==> IsDigit(s[i]) }

  /** The text matched by `(\d+)`. */
  type DigitString = s: string | IsDigitString(s) witness "0"

  /** Groups 1 and 2 of one match of the paired title/count patterns: the
      title text (`[^<]+`) and the count (`\d+`). */
  datatype PairMatch = PairMatch(title: string, count: DigitString)

  /** What the regex scans of the page produce: the matches of the
      `gsc_a_at ... gsc_a_ac` pattern, those of the `gsc_a_tr ... gsc_a_c`
      pattern, and the whole-match lists of `html.match(/gsc_a_ac[^>]*>(\d+)</g)`
      and `html.match(/gsc_a_at[^>]*>([^<]+)</g)`, which are `null` (`None`)
      when nothing matches. */
  datatype ProfileMatches = ProfileMatches(
    primary: seq<PairMatch>,
    alternative: seq<PairMatch>,
    countTexts: Option<seq<string>>,
    titleTexts: Option<seq<string>>)

  /** `{ title: match[1].trim(), citations: parseInt(match[2]) }`. */
  function PairEntry(m: PairMatch): (r: ScholarPub)
    ensures r.title == TrimJs(m.title)
    ensures ParseIntJs(m.count) == Some(r.citations)
  {
    ParseIntOfDigits(m.count);
    ScholarPub(TrimJs(m.title), DigitsValue(m.count))
  }

  function PairEntries(ms: seq<PairMatch>): seq<ScholarPub> {
    MapSeq(ms, PairEntry)
  }

  /** A `while ((match = pattern.exec(html)) !== null)` loop pushing one entry
      per match. */
  method CollectPairs(ms: seq<PairMatch>) returns (r: seq<ScholarPub>)
    ensures r == PairEntries(ms)
  {
    r := [];
    var i := 0;
    while i < |ms|
      invariant 0 <= i <= |ms|
      invariant r == MapSeq(ms[..i], PairEntry)
    {
      MapSeqSnoc(ms, i, PairEntry);
      r := r + [PairEntry(ms[i])];
      i := i + 1;
    }
    assert ms[..i] == ms;
  }

  /** The class of `[^<]`. */
  predicate NotLt(c: char) { c != '<' }

  /** Method 3 for one index: `parseInt(countText.match(/(\d+)/)[1])` and
      `titleText.match(/>([^<]+)/)[1].trim()`; `None` where a `match` is null
      and the property access throws. */
  function RawEntry(countText: string, titleText: string): (r: Option<ScholarPub>)
    ensures r.Some? <==> PrefixedRun(countText, "", IsDigit).Some? && PrefixedRun(titleText, ">", NotLt).Some?
    ensures r.Some? ==> ParseIntJs(PrefixedRun(countText, "", IsDigit).value) == Some(r.value.citations)
    ensures r.Some? ==> r.value.title == TrimJs(PrefixedRun(titleText, ">", NotLt).value)
  {
    var digits := PrefixedRun(countText, "", IsDigit);
    var text := PrefixedRun(titleText, ">", NotLt);
    if digits.Some? && text.Some? then
      ParseIntOfDigits(digits.value);
      Some(ScholarPub(TrimJs(text.value), DigitsValue(digits.value)))
    else None
  }

  /** Every index of two equally long lists yields an entry. */
  predicate AllParse(counts: seq<string>, titles: seq<string>, entry: (string, string) -> Option<ScholarPub>)
    requires |counts| == |titles|
  {
    forall k :: 0 <= k < |counts| ==> entry(counts[k], titles[k]).Some?
  }

  /** The index-paired entries, or none at all when any index fails. */
  function PairedEntries(counts: seq<string>, titles: seq<string>, entry: (string, string) -> Option<ScholarPub>)
    : (r: seq<ScholarPub>)
    requires |counts| == |titles|
    ensures AllParse(counts, titles, entry) ==>
      |r| == |counts| && forall k :: 0 <= k < |counts| ==> Some(r[k]) == entry(counts[k], titles[k])
    ensures !AllParse(counts, titles, entry) ==> r == []
  {
    if AllParse(counts, titles, entry) then
      seq(|counts|, k requires 0 <= k < |counts| => entry(counts[k], titles[k]).value)
    else []
  }

  /** Method 3 over equally long lists (the `catch` turns a throwing index
      into an empty result). */
  function RawEntries(counts: seq<string>, titles: seq<string>): seq<ScholarPub>
    requires |counts| == |titles|
  {
    PairedEntries(counts, titles, RawEntry)
  }

  /** Method 3 applies: both lists non-null and of equal length. */
  predicate RawListsPaired(m: ProfileMatches) {
    m.countTexts.Some? && m.titleTexts.Some? && |m.countTexts.value| == |m.titleTexts.value|
  }

  /** The entries parseScholarProfile returns. */
  function ProfileEntries(m: ProfileMatches): seq<ScholarPub> {
    if |m.primary| > 0 then PairEntries(m.primary)
    else if |m.alternative| > 0 then PairEntries(m.alternative)
    else if RawListsPaired(m) then RawEntries(m.countTexts.value, m.titleTexts.value)
    else []
  }

  /** parseScholarProfile: method 2 only if method 1 found nothing, method 3
      only if method 2 found nothing. */
  method ParseScholarProfile(m: ProfileMatches) returns (publications: seq<ScholarPub>)
    ensures publications == ProfileEntries(m)
  {
    publications := CollectPairs(m.primary);
    if |publications| == 0 {
      publications := CollectPairs(m.alternative);
    }
    if |publications| == 0 && RawListsPaired(m) {
      publications := CollectRaw(m.countTexts.value, m.titleTexts.value, RawEntry);
    }
  }

  /** Method 3's `for` loop over the index-paired lists; `[]` as soon as an
      index throws. */
  method CollectRaw(citationNumbers: seq<string>, titleElements: seq<string>,
                    entry: (string, string) -> Option<ScholarPub>)
    returns (r: seq<ScholarPub>)
    requires |citationNumbers| == |titleElements|
    ensures r == PairedEntries(citationNumbers, titleElements, entry)
  {
    r := [];
    var i := 0;
    while i < |citationNumbers|
      invariant 0 <= i <= |citationNumbers|
      invariant |r| == i
      invariant forall k :: 0 <= k < i ==> Some(r[k]) == entry(citationNumbers[k], titleElements[k])
    {
      var e := entry(citationNumbers[i], titleElements[i]);
      if e.None? {
        return [];
      }
      r := r + [e.value];
      i := i + 1;
    }
  }

  /** Which method produced a non-empty result: the first one that found
      anything, with as many entries as it matched; method 3 pairs equally
      long lists index by index. Every title is trimmed. */
  lemma ProfileEntriesShape(m: ProfileMatches)
    ensures var r := ProfileEntries(m);
      (|m.primary| > 0 ==> |r| == |m.primary|) &&
      (|m.primary| == 0 && |m.alternative| > 0 ==> |r| == |m.alternative|) &&
      (|m.primary| == 0 && |m.alternative| == 0 && |r| > 0 ==>
        RawListsPaired(m) && |r| == |m.countTexts.value|)
    ensures forall k :: 0 <= k < |ProfileEntries(m)| ==> TitleTrimmed(ProfileEntries(m)[k])
  {
    if |m.primary| > 0 {
      PairEntriesTrimmed(m.primary);
    } else if |m.alternative| > 0 {
      PairEntriesTrimmed(m.alternative);
    } else if RawListsPaired(m) {
      RawEntriesTrimmed(m.countTexts.value, m.titleTexts.value);
    }
  }

  /** A title with no white space at either end. */
  predicate TitleTrimmed(p: ScholarPub) {
    p.title == [] || (!IsJsSpace(p.title[0]) && !IsJsSpace(p.title[|p.title| - 1]))
  }

  lemma PairEntriesTrimmed(ms: seq<PairMatch>)
    ensures forall k :: 0 <= k < |PairEntries(ms)| ==> TitleTrimmed(PairEntries(ms)[k])
  {
    var r := PairEntries(ms);
    forall k | 0 <= k < |r| ensures TitleTrimmed(r[k]) { assert r[k] == PairEntry(ms[k]); }
  }

  lemma RawEntriesTrimmed(counts: seq<string>, titles: seq<string>)
    requires |counts| == |titles|
    ensures forall k :: 0 <= k < |RawEntries(counts, titles)| ==> TitleTrimmed(RawEntries(counts, titles)[k])
  {
    var r := RawEntries(counts, titles);
    forall k | 0 <= k < |r| ensures TitleTrimmed(r[k]) { assert Some(r[k]) == RawEntry(counts[k], titles[k]); }
  }

  /** The later patterns are never consulted when an earlier one matched. */
  lemma ProfileFallbackOrder(m: ProfileMatches, n: ProfileMatches)
    ensures m.primary == n.primary && |m.primary| > 0 ==> ProfileEntries(m) == ProfileEntries(n)
    ensures m.primary == n.primary == [] && m.alternative == n.alternative && |m.alternative| > 0 ==>
      ProfileEntries(m) == ProfileEntries(n)
  {
  }

  // ---------------------------------------------------------------------------
  // The Scholar id in config.json
  // ---------------------------------------------------------------------------

  /** The four config.json fields consulted: `author.scholarId`, `scholarId`,
      `social.googleScholar` and `googleScholar`. */
  datatype Config = Config(
    authorScholarId: Option<string>,
    scholarId: Option<string>,
    socialGoogleScholar: Option<string>,
    googleScholar: Option<string>)

  /** JavaScript's `a || b` on optional strings. */
  function OrElse(a: Option<string>, b: Option<string>): (r: Option<string>)
    ensures Truthy(r) <==> Truthy(a) || Truthy(b)
    ensures Truthy(a) ==> r == a
  {
    if Truthy(a) then a else b
  }

  /** The class of `[^&]`. */
  predicate NotAmp(c: char) { c != '&' }

  /** `url.match(/user=([^&]+)/)?.[1]`. */
  function UserParam(url: string): (r: Option<string>)
    ensures r.Some? ==> r.value != "" && '&' !in r.value
    ensures r.None? <==> forall j :: 0 <= j <= |url| ==> !RunAt(url, "user=", NotAmp, j)
  {
    PrefixedRun(url, "user=", NotAmp)
  }

  /** The id read from the URL follows a `user=` in it. */
  lemma UserParamInUrl(url: string)
    requires UserParam(url).Some?
    ensures Contains(url, "user=" + UserParam(url).value)
  {
    PrefixedRunOccurs(url, "user=", NotAmp);
  }

  datatype IdLookup = IdMissing | IdNotInUrl | ScholarId(id: string)

  /** The configured id (`config.author?.scholarId || config.scholarId`). */
  function ConfiguredId(c: Config): Option<string> { OrElse(c.authorScholarId, c.scholarId) }

  /** The configured profile URL (`config.social?.googleScholar || config.googleScholar`). */
  function ConfiguredUrl(c: Config): Option<string> { OrElse(c.socialGoogleScholar, c.googleScholar) }

  /** The id lookup at the start of updateCitationsFromScholar. */
  function ResolveScholarId(c: Config): (r: IdLookup)
    ensures r.ScholarId? ==> r.id != ""
    ensures r == IdMissing <==> !Truthy(ConfiguredId(c)) && !Truthy(ConfiguredUrl(c))
    ensures Truthy(ConfiguredId(c)) ==> r == ScholarId(ConfiguredId(c).value)
    ensures !Truthy(ConfiguredId(c)) && Truthy(ConfiguredUrl(c)) ==>
      (r == IdNotInUrl <==> UserParam(ConfiguredUrl(c).value).None?) &&
      (r.ScholarId? ==> Contains(ConfiguredUrl(c).value, "user=" + r.id) && '&' !in r.id)
  {
    var id := ConfiguredId(c);
    var url := ConfiguredUrl(c);
    if !Truthy(id) && !Truthy(url) then IdMissing
    else if Truthy(id) then ScholarId(id.value)
    else
      match UserParam(url.value)
      case Some(u) => UserParamInUrl(url.value); ScholarId(u)
      case None => IdNotInUrl
  }

  // ---------------------------------------------------------------------------
  // updateCitationsFromScholar
  // ---------------------------------------------------------------------------

  /** How a crawler run ends: returning early without a Scholar id,
      returning without saving, `process.exit(1)`, failing on an untitled
      record (the rejection is only logged and nothing is saved), or saving
      the rewritten catalog with the number of changed counts. */
  datatype Outcome =
    | NoScholarId
    | NoIdInUrl
    | KeptExisting
    | ExitFailure
    | Crashed
    | Saved(catalog: Catalog, updated: nat)

  /** Nothing usable came back: keep the file when it has records, exit 1 otherwise. */
  function GiveUp(pubs: Catalog): (o: Outcome)
    ensures o == KeptExisting <==> |pubs| > 0
    ensures o == ExitFailure <==> |pubs| == 0
  {
    if |pubs| > 0 then KeptExisting else ExitFailure
  }

  /** The run from the fetched page onwards, shared by both crawlers. */
  function AfterFetch(pubs: Catalog, html: string, scan: string -> ProfileMatches, now: string): Outcome {
    if html == "" then GiveUp(pubs)
    else
      var profile := ProfileEntries(scan(html));
      if profile == [] then GiveUp(pubs)
      else if !AllTitled(pubs) then Crashed
      else Saved(UpdatedCatalog(pubs, profile, now), ChangedCount(pubs, profile))
  }

  /** A saved catalog keeps every record in place with only its citation
      fields rewritten, and counts at most one change per record; nothing is
      saved when the page was empty or yielded no entries. */
  lemma AfterFetchSaves(pubs: Catalog, html: string, scan: string -> ProfileMatches, now: string)
    ensures AfterFetch(pubs, html, scan, now).Saved? <==>
      html != "" && ProfileEntries(scan(html)) != [] && AllTitled(pubs)
    ensures AfterFetch(pubs, html, scan, now).Saved? ==>
      var o := AfterFetch(pubs, html, scan, now);
      |o.catalog| == |pubs| && o.updated <= |pubs| &&
      forall k :: 0 <= k < |pubs| ==> OnlyCitationsDiffer(pubs[k], o.catalog[k]) && o.catalog[k].citations.Some?
    ensures html == "" || ProfileEntries(scan(html)) == [] ==> AfterFetch(pubs, html, scan, now) == GiveUp(pubs)
  {
  }

  /** Parsing, the in-place update and the save, from a non-empty page. */
  method UpdateFromPage(pubs: Catalog, html: string, scan: string -> ProfileMatches, now: string)
    returns (outcome: Outcome)
    ensures outcome == AfterFetch(pubs, html, scan, now)
  {
    if html == "" {
      return GiveUp(pubs);
    }
    var scholarPublications := ParseScholarProfile(scan(html));
    if |scholarPublications| == 0 {
      return GiveUp(pubs);
    }
    var publications := new Publication[|pubs|](k requires 0 <= k < |pubs| => pubs[k]);
    assert publications[..] == pubs;
    var updated, failedAt := UpdateCitations(publications, scholarPublications, now);
    if failedAt.Some? {
      return Crashed;
    }
    return Saved(publications[..], updated);
  }

  /** updateCitationsFromScholar with the default three attempts. */
  method Run(config: Config, pubs: Catalog, fetch: (string, nat) -> Response,
             scan: string -> ProfileMatches, now: string)
    returns (outcome: Outcome)
    ensures ResolveScholarId(config) == IdMissing ==> outcome == NoScholarId
    ensures ResolveScholarId(config) == IdNotInUrl ==> outcome == NoIdInUrl
    ensures ResolveScholarId(config).ScholarId? ==>
      outcome == AfterFetch(pubs, RetryResult(fetch, ResolveScholarId(config).id, 1, DefaultRetries), scan, now)
  {
    var lookup := ResolveScholarId(config);
    if lookup == IdMissing {
      return NoScholarId;
    }
    if lookup == IdNotInUrl {
      return NoIdInUrl;
    }
    var profileHtml, _, _ := FetchScholarProfile(lookup.id, fetch, DefaultRetries);
    outcome := UpdateFromPage(pubs, profileHtml, scan, now);
  }
}

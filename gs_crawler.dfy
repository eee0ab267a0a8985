/** The SerpAPI citation updater (scripts/gs_crawler.py): the author's
    Google Scholar articles become a map from normalised title to citation
    count, and every catalog record whose normalised title is a key (or,
    failing that, close to one) gets the count and a check timestamp. The
    search, the API key, the close-match measure and the clock are
    parameters. */
module GsCrawler {
  import opened Common
  import opened Catalog

  // ---------------------------------------------------------------------------
  // normalize_title
  // ---------------------------------------------------------------------------

  /** The characters `[^\w\s]` does not remove. */
  predicate IsKept(c: char) { IsPyWordChar(c) || IsPySpace(c) }

  /** lower(), `\s+` to one blank, `[^\w\s]` removed, strip(), in that order. */
  function NormalizeTitle(t: string): string {
    TrimPy(ReplaceOther(CollapseSpaces(ToLower(t), IsPySpace), IsKept, ""))
  }

  /** A normalised title holds only lower-case word characters and blanks,
      and neither starts nor ends with a blank. */
  lemma NormalizeTitleShape(t: string)
    ensures forall k :: 0 <= k < |NormalizeTitle(t)| ==>
      NormalizeTitle(t)[k] == ' ' || (IsPyWordChar(NormalizeTitle(t)[k]) && !IsAsciiUpper(NormalizeTitle(t)[k]))
    ensures NormalizeTitle(t) == [] || (NormalizeTitle(t)[0] != ' ' && NormalizeTitle(t)[|NormalizeTitle(t)| - 1] != ' ')
  {
    KeptShape(t);
    TrimPyInside(ReplaceOther(CollapseSpaces(ToLower(t), IsPySpace), IsKept, ""), IsNormalChar);
  }

  /** A character a normalised title may hold. */
  predicate IsNormalChar(c: char) { c == ' ' || (IsPyWordChar(c) && !IsAsciiUpper(c)) }

  /** After the punctuation is removed only blanks and lower-case word
      characters are left. */
  lemma KeptShape(t: string)
    ensures forall c :: c in ReplaceOther(CollapseSpaces(ToLower(t), IsPySpace), IsKept, "") ==> IsNormalChar(c)
  {
    CollapsedShape(t);
  }

  /** After blanks are collapsed the only space character is ' ' and no
      letter is upper-case. */
  lemma CollapsedShape(t: string)
    ensures forall c :: c in CollapseSpaces(ToLower(t), IsPySpace) ==> c == ' ' || (!IsPySpace(c) && !IsAsciiUpper(c))
  {
    var lower := ToLower(t);
    var collapsed := CollapseSpaces(lower, IsPySpace);
    CollapseShape(lower, IsPySpace, false);
    forall c | c in collapsed ensures c == ' ' || (!IsPySpace(c) && !IsAsciiUpper(c)) {
      var k :| 0 <= k < |collapsed| && collapsed[k] == c;
      if c != ' ' {
        assert c in lower;
        var j :| 0 <= j < |lower| && lower[j] == c;
        assert lower[j] == LowerChar(t[j]);
      }
    }
  }

  /** Upper and lower case spell the same key. */
  lemma NormalizeTitleIgnoresCase(t: string)
    ensures NormalizeTitle(ToLower(t)) == NormalizeTitle(t)
  {
    ToLowerIdempotent(t);
  }

  /** Punctuation is removed after blanks are collapsed, so a normalised
      title can keep a double blank, and normalising it again changes it. */
  lemma NormalizeTitleNotIdempotent()
    ensures NormalizeTitle("a - b") == "a  b"
    ensures NormalizeTitle("a  b") == "a b"
  {
    DashedTitle();
    DoubledTitle();
  }

  lemma DashedTitle()
    ensures NormalizeTitle("a - b") == "a  b"
  {
    DashedLowerCollapsed();
    DashedReplaced();
    BlankInsideTrimmed("a  b");
  }

  lemma DoubledTitle()
    ensures NormalizeTitle("a  b") == "a b"
  {
    ToLowerUnchanged("a  b");
    DoubledCollapsed();
    ReplaceOtherUnchanged("a b", IsKept, "");
    BlankInsideTrimmed("a b");
  }

  lemma DashedLowerCollapsed()
    ensures CollapseSpaces(ToLower("a - b"), IsPySpace) == "a - b"
  {
    ToLowerUnchanged("a - b");
    assert NoDoubleSpace("a - b");
    CollapseUnchanged("a - b", IsPySpace, false);
  }

  lemma DashedReplaced()
    ensures ReplaceOther("a - b", IsKept, "") == "a  b"
  {
    DashedKeepsA();
    DashedKeepsBlank();
    DashedDropsDash();
    DashedKeepsTail();
    assert "a" + (" " + " b") == "a  b";
  }

  lemma DashedKeepsA()
    ensures ReplaceOther("a - b", IsKept, "") == "a" + ReplaceOther(" - b", IsKept, "")
  {
    assert IsKept('a');
    ReplaceOtherCons('a', " - b", IsKept, "");
    assert "a - b" == ['a'] + " - b";
  }

  lemma DashedKeepsBlank()
    ensures ReplaceOther(" - b", IsKept, "") == " " + ReplaceOther("- b", IsKept, "")
  {
    assert IsKept(' ');
    ReplaceOtherCons(' ', "- b", IsKept, "");
    assert " - b" == [' '] + "- b";
  }

  lemma DashedDropsDash()
    ensures ReplaceOther("- b", IsKept, "") == ReplaceOther(" b", IsKept, "")
  {
    assert !IsKept('-');
    ReplaceOtherCons('-', " b", IsKept, "");
    assert "- b" == ['-'] + " b";
  }

  lemma DashedKeepsTail()
    ensures ReplaceOther(" b", IsKept, "") == " b"
  {
    assert IsKept(' ') && IsKept('b');
    ReplaceOtherUnchanged(" b", IsKept, "");
  }

  lemma DoubledCollapsed()
    ensures CollapseSpaces("a  b", IsPySpace) == "a b"
  {
    assert CollapseFrom("b", IsPySpace, true) == "b";
    assert CollapseFrom(" b", IsPySpace, true) == "b";
    assert CollapseFrom("  b", IsPySpace, false) == " b";
  }

  /** strip() leaves a string alone that starts and ends with a letter. */
  lemma BlankInsideTrimmed(t: string)
    requires |t| >= 1 && t[0] == 'a' && t[|t| - 1] == 'b'
    ensures TrimPy(t) == t
  {
    TrimStartUnchanged(t, IsPySpace);
    TrimEndUnchanged(t, IsPySpace);
  }

  // ---------------------------------------------------------------------------
  // fetch_citation_map
  // ---------------------------------------------------------------------------

  /** One entry of the author's `articles`: its `title` (absent, null and ""
      are all falsy) and `cited_by.value` (`None` whenever `cited_by` is
      missing or falsy, or its `value` is missing, null or 0). */
  datatype Article = Article(title: Option<string>, citedBy: Option<int>)

  /** `(article.get("cited_by") or {}).get("value", 0) or 0`. */
  function CitationsOf(a: Article): int {
    if a.citedBy.Some? then a.citedBy.value else 0
  }

  /** The answer of the author search: an `error` entry, if any, and the
      `articles` list, if any. */
  datatype SearchResult = SearchResult(error: Option<string>, articles: Option<seq<Article>>)

  /** `results.get("articles", [])`. */
  function ArticlesOf(res: SearchResult): seq<Article> {
    if res.articles.Some? then res.articles.value else []
  }

  /** `citation_map`: its entries and its keys in insertion order (the order
      `list(citation_map.keys())` gives). */
  datatype CitationMap = CitationMap(counts: map<string, int>, keys: seq<string>)

  datatype FetchResult = MissingApiKey | SerpApiError(message: string) | Fetched(citations: CitationMap)

  /** The counts after the loop over `articles`, keyed by `norm`: a titled
      article sets its key to its count, the later of two equal keys wins. */
  function CountsOf(articles: seq<Article>, norm: string -> string): map<string, int>
    decreases |articles|
  {
    if articles == [] then map[]
    else
      var m := CountsOf(articles[..|articles| - 1], norm);
      var a := articles[|articles| - 1];
      if Truthy(a.title) then m[norm(a.title.value) := CitationsOf(a)] else m
  }

  /** The keys in the order they were first inserted. */
  function KeyOrder(articles: seq<Article>, norm: string -> string): seq<string>
    decreases |articles|
  {
    if articles == [] then []
    else
      var ks := KeyOrder(articles[..|articles| - 1], norm);
      var a := articles[|articles| - 1];
      if Truthy(a.title) && norm(a.title.value) !in ks then ks + [norm(a.title.value)] else ks
  }

  /** The article gives a key: it has a truthy title whose key is `key`. */
  predicate Keys(a: Article, key: string, norm: string -> string) {
    Truthy(a.title) && norm(a.title.value) == key
  }

  /** A key is in the map exactly when some titled article gives it. */
  lemma {:induction false} CountsOfKeys(articles: seq<Article>, norm: string -> string, key: string)
    ensures key in CountsOf(articles, norm) <==> exists j :: 0 <= j < |articles| && Keys(articles[j], key, norm)
    decreases |articles|
  {
    if articles != [] {
      var init := articles[..|articles| - 1];
      CountsOfKeys(init, norm, key);
      assert forall j :: 0 <= j < |init| ==> init[j] == articles[j];
      if key in CountsOf(articles, norm) && key !in CountsOf(init, norm) {
        assert Keys(articles[|articles| - 1], key, norm);
      }
    }
  }

  /** The count stored under a key is the one of the last article giving
      that key. */
  lemma {:induction false} CountsOfLastWins(articles: seq<Article>, norm: string -> string, j: nat)
    requires j < |articles| && Truthy(articles[j].title)
    requires forall i :: j < i < |articles| ==> !Keys(articles[i], norm(articles[j].title.value), norm)
    ensures norm(articles[j].title.value) in CountsOf(articles, norm)
    ensures CountsOf(articles, norm)[norm(articles[j].title.value)] == CitationsOf(articles[j])
    decreases |articles|
  {
    var init := articles[..|articles| - 1];
    if j < |articles| - 1 {
      assert forall i :: 0 <= i < |init| ==> init[i] == articles[i];
      CountsOfLastWins(init, norm, j);
      assert !Keys(articles[|articles| - 1], norm(articles[j].title.value), norm);
    }
  }

  /** The key order lists every key of the map once and nothing else. */
  lemma {:induction false} KeyOrderIsDomain(articles: seq<Article>, norm: string -> string)
    ensures forall key :: key in KeyOrder(articles, norm) <==> key in CountsOf(articles, norm)
    ensures forall i, j :: 0 <= i < j < |KeyOrder(articles, norm)| ==> KeyOrder(articles, norm)[i] != KeyOrder(articles, norm)[j]
    decreases |articles|
  {
    if articles != [] {
      KeyOrderIsDomain(articles[..|articles| - 1], norm);
    }
  }

  /** The loop of fetch_citation_map over the articles. */
  method CollectCitations(articles: seq<Article>, norm: string -> string) returns (counts: map<string, int>, keys: seq<string>)
    ensures counts == CountsOf(articles, norm) && keys == KeyOrder(articles, norm)
  {
    counts := map[];
    keys := [];
    var i := 0;
    while i < |articles|
      invariant 0 <= i <= |articles|
      invariant counts == CountsOf(articles[..i], norm) && keys == KeyOrder(articles[..i], norm)
    {
      var article := articles[i];
      assert articles[..i + 1][..i] == articles[..i];
      KeyOrderIsDomain(articles[..i], norm);
      if Truthy(article.title) {
        var key := norm(article.title.value);
        if key !in counts {
          keys := keys + [key];
        }
        counts := counts[key := CitationsOf(article)];
      }
      i := i + 1;
    }
    assert articles[..i] == articles;
  }

  /** fetch_citation_map: a missing or empty key and an `error` answer are
      errors; otherwise the map of the returned articles. */
  method FetchCitationMap(authorId: string, apiKey: Option<string>, search: (string, string) -> SearchResult)
    returns (r: FetchResult)
    ensures !Truthy(apiKey) ==> r == MissingApiKey
    ensures Truthy(apiKey) && search(apiKey.value, authorId).error.Some? ==>
      r == SerpApiError(search(apiKey.value, authorId).error.value)
    ensures Truthy(apiKey) && search(apiKey.value, authorId).error.None? ==>
      r == Fetched(CitationMap(CountsOf(ArticlesOf(search(apiKey.value, authorId)), NormalizeTitle),
                               KeyOrder(ArticlesOf(search(apiKey.value, authorId)), NormalizeTitle)))
  {
    if !Truthy(apiKey) {
      return MissingApiKey;
    }
    var results := search(apiKey.value, authorId);
    if results.error.Some? {
      return SerpApiError(results.error.value);
    }
    var counts, keys := CollectCitations(ArticlesOf(results), NormalizeTitle);
    return Fetched(CitationMap(counts, keys));
  }

  // ---------------------------------------------------------------------------
  // update_publications_file
  // ---------------------------------------------------------------------------

  /** How the count of a record was found. */
  datatype Found = Exact(count: int) | Fuzzy(count: int) | NotFound

  /** The exact key first; only when it is absent, the one close match
      (cutoff 0.92) among the keys, read from the map. A close match outside
      the map, which get_close_matches never returns, counts as none. */
  function Lookup(key: string, cm: CitationMap, closeMatch: (string, seq<string>) -> Option<string>): (f: Found)
    ensures key in cm.counts ==> f == Exact(cm.counts[key])
    ensures key !in cm.counts && f.Fuzzy? ==>
      closeMatch(key, cm.keys).Some? && closeMatch(key, cm.keys).value in cm.counts &&
      cm.counts[closeMatch(key, cm.keys).value] == f.count
    ensures key !in cm.counts && closeMatch(key, cm.keys).Some? && closeMatch(key, cm.keys).value in cm.counts ==>
      f == Fuzzy(cm.counts[closeMatch(key, cm.keys).value])
    ensures f.Exact? ==> key in cm.counts
    ensures key !in cm.counts && closeMatch(key, cm.keys).None? ==> f == NotFound
  {
    if key in cm.counts then Exact(cm.counts[key])
    else
      var matches := closeMatch(key, cm.keys);
      if matches.Some? && matches.value in cm.counts then Fuzzy(cm.counts[matches.value]) else NotFound
  }

  /** The record's lookup: `NotFound` for a record without a truthy title. */
  function FoundFor(p: Publication, cm: CitationMap, closeMatch: (string, seq<string>) -> Option<string>): Found {
    if Truthy(p.title) then Lookup(NormalizeTitle(p.title.value), cm, closeMatch) else NotFound
  }

  /** Only `citations` and `citations_last_checked` differ. */
  predicate OnlyCheckFieldsDiffer(before: Publication, after: Publication) {
    after.(citations := before.citations, citations_last_checked := before.citations_last_checked) == before
  }

  /** One pass of the loop body: a record without a title or without a
      match is left as it is; a matched record gets the check time, and the
      new count when it differs from `int(item.get("citations", 0))`. */
  function CheckedRecord(p: Publication, cm: CitationMap, closeMatch: (string, seq<string>) -> Option<string>,
                         now: string): (r: Publication)
    ensures FoundFor(p, cm, closeMatch).NotFound? ==> r == p
    ensures !FoundFor(p, cm, closeMatch).NotFound? ==>
      OnlyCheckFieldsDiffer(p, r) && r.citations_last_checked == Some(now) &&
      CitationsOrZero(r) == FoundFor(p, cm, closeMatch).count
    ensures !FoundFor(p, cm, closeMatch).NotFound? && CitationsOrZero(p) != FoundFor(p, cm, closeMatch).count ==>
      r.citations == Some(FoundFor(p, cm, closeMatch).count)
    ensures !FoundFor(p, cm, closeMatch).NotFound? && CitationsOrZero(p) == FoundFor(p, cm, closeMatch).count ==>
      r.citations == p.citations
  {
    match FoundFor(p, cm, closeMatch)
    case NotFound => p
    case _ =>
      var n := FoundFor(p, cm, closeMatch).count;
      if n != CitationsOrZero(p) then p.(citations := Some(n), citations_last_checked := Some(now))
      else p.(citations_last_checked := Some(now))
  }

  /** The record bumps `skipped`: no truthy title, or no match. */
  predicate IsSkipped(p: Publication, cm: CitationMap, closeMatch: (string, seq<string>) -> Option<string>) {
    FoundFor(p, cm, closeMatch).NotFound?
  }

  /** The record bumps `updated`: matched with a different count. */
  predicate IsUpdated(p: Publication, cm: CitationMap, closeMatch: (string, seq<string>) -> Option<string>) {
    !FoundFor(p, cm, closeMatch).NotFound? && FoundFor(p, cm, closeMatch).count != CitationsOrZero(p)
  }

  /** The record bumps `fuzzy_used`. */
  predicate IsFuzzyHit(p: Publication, cm: CitationMap, closeMatch: (string, seq<string>) -> Option<string>) {
    FoundFor(p, cm, closeMatch).Fuzzy?
  }

  function SkippedUnder(cm: CitationMap, closeMatch: (string, seq<string>) -> Option<string>): Publication -> bool {
    (p: Publication) => IsSkipped(p, cm, closeMatch)
  }

  function UpdatedUnder(cm: CitationMap, closeMatch: (string, seq<string>) -> Option<string>): Publication -> bool {
    (p: Publication) => IsUpdated(p, cm, closeMatch)
  }

  function FuzzyUnder(cm: CitationMap, closeMatch: (string, seq<string>) -> Option<string>): Publication -> bool {
    (p: Publication) => IsFuzzyHit(p, cm, closeMatch)
  }

  /** The list after the loop. */
  function CheckedCatalog(pubs: Catalog, cm: CitationMap, closeMatch: (string, seq<string>) -> Option<string>,
                          now: string): (r: Catalog)
    ensures |r| == |pubs|
    ensures forall k :: 0 <= k < |pubs| ==> r[k] == CheckedRecord(pubs[k], cm, closeMatch, now)
  {
    seq(|pubs|, k requires 0 <= k < |pubs| => CheckedRecord(pubs[k], cm, closeMatch, now))
  }

  /** The loop body for one record, with the counters it bumps. */
  method CheckItem(item: Publication, cm: CitationMap, closeMatch: (string, seq<string>) -> Option<string>,
                   now: string)
    returns (checked: Publication, skip: bool, update: bool, fuzzy: bool)
    ensures checked == CheckedRecord(item, cm, closeMatch, now)
    ensures skip == IsSkipped(item, cm, closeMatch)
    ensures update == IsUpdated(item, cm, closeMatch)
    ensures fuzzy == IsFuzzyHit(item, cm, closeMatch)
  {
    checked, skip, update, fuzzy := item, false, false, false;
    if !Truthy(item.title) {
      skip := true;
      return;
    }
    var key := NormalizeTitle(item.title.value);
    var citationsNew: Option<int> := None;
    if key in cm.counts {
      citationsNew := Some(cm.counts[key]);
    }
    if citationsNew.None? {
      var matches := closeMatch(key, cm.keys);
      if matches.Some? && matches.value in cm.counts {
        citationsNew := Some(cm.counts[matches.value]);
        fuzzy := true;
      }
    }
    if citationsNew.None? {
      skip := true;
      return;
    }
    var citationsOld := CitationsOrZero(item);
    if citationsNew.value != citationsOld {
      checked := item.(citations := Some(citationsNew.value), citations_last_checked := Some(now));
      update := true;
    } else {
      checked := item.(citations_last_checked := Some(now));
    }
  }

  lemma CheckStep(before: Catalog, i: nat, cm: CitationMap, closeMatch: (string, seq<string>) -> Option<string>,
                  now: string)
    requires i < |before|
    ensures (CheckedCatalog(before[..i], cm, closeMatch, now) + before[i..])[i := CheckedRecord(before[i], cm, closeMatch, now)] ==
            CheckedCatalog(before[..i + 1], cm, closeMatch, now) + before[i + 1..]
  {
    var done := CheckedCatalog(before[..i], cm, closeMatch, now);
    var next := CheckedCatalog(before[..i + 1], cm, closeMatch, now);
    forall k | 0 <= k < i + 1 ensures next[k] == (done + [CheckedRecord(before[i], cm, closeMatch, now)])[k] {
      if k < i {
        assert before[..i][k] == before[..i + 1][k];
      }
    }
    assert next == done + [CheckedRecord(before[i], cm, closeMatch, now)];
    UpdateAtSeam(done, before[i..], CheckedRecord(before[i], cm, closeMatch, now));
    assert before[i..][1..] == before[i + 1..];
  }

  /** The three counters after one more record. */
  lemma CountsStep(before: Catalog, i: nat, cm: CitationMap, closeMatch: (string, seq<string>) -> Option<string>)
    requires i < |before|
    ensures CountWhere(before[..i + 1], UpdatedUnder(cm, closeMatch)) ==
            CountWhere(before[..i], UpdatedUnder(cm, closeMatch)) + (if IsUpdated(before[i], cm, closeMatch) then 1 else 0)
    ensures CountWhere(before[..i + 1], SkippedUnder(cm, closeMatch)) ==
            CountWhere(before[..i], SkippedUnder(cm, closeMatch)) + (if IsSkipped(before[i], cm, closeMatch) then 1 else 0)
    ensures CountWhere(before[..i + 1], FuzzyUnder(cm, closeMatch)) ==
            CountWhere(before[..i], FuzzyUnder(cm, closeMatch)) + (if IsFuzzyHit(before[i], cm, closeMatch) then 1 else 0)
  {
    CountWhereSnoc(before, i, UpdatedUnder(cm, closeMatch));
    CountWhereSnoc(before, i, SkippedUnder(cm, closeMatch));
    CountWhereSnoc(before, i, FuzzyUnder(cm, closeMatch));
  }

  /** The loop body: `item`, the record at index `i`, is checked and written back. */
  method CheckAt(data: array<Publication>, i: nat, item: Publication, cm: CitationMap,
                 closeMatch: (string, seq<string>) -> Option<string>, now: string)
    returns (skip: bool, update: bool, fuzzy: bool)
    requires i < data.Length && data[i] == item
    modifies data
    ensures data[..] == old(data[..])[i := CheckedRecord(item, cm, closeMatch, now)]
    ensures skip == IsSkipped(item, cm, closeMatch)
    ensures update == IsUpdated(item, cm, closeMatch)
    ensures fuzzy == IsFuzzyHit(item, cm, closeMatch)
  {
    var checked;
    checked, skip, update, fuzzy := CheckItem(item, cm, closeMatch, now);
    data[i] := checked;
  }

  /** `for item in data`, rewriting the records in place and counting. */
  method CheckAll(data: array<Publication>, cm: CitationMap, closeMatch: (string, seq<string>) -> Option<string>,
                  now: string)
    returns (updated: nat, skipped: nat, fuzzyUsed: nat)
    modifies data
    ensures data[..] == CheckedCatalog(old(data[..]), cm, closeMatch, now)
    ensures updated == CountWhere(old(data[..]), UpdatedUnder(cm, closeMatch))
    ensures skipped == CountWhere(old(data[..]), SkippedUnder(cm, closeMatch))
    ensures fuzzyUsed == CountWhere(old(data[..]), FuzzyUnder(cm, closeMatch))
  {
    ghost var before := data[..];
    updated, skipped, fuzzyUsed := 0, 0, 0;
    var i := 0;
    while i < data.Length
      invariant 0 <= i <= data.Length
      invariant data[..] == CheckedCatalog(before[..i], cm, closeMatch, now) + before[i..]
      invariant updated == CountWhere(before[..i], UpdatedUnder(cm, closeMatch))
      invariant skipped == CountWhere(before[..i], SkippedUnder(cm, closeMatch))
      invariant fuzzyUsed == CountWhere(before[..i], FuzzyUnder(cm, closeMatch))
    {
      var item := data[i];
      assert item == before[i];
      var skip, update, fuzzy := CheckAt(data, i, item, cm, closeMatch, now);
      if skip {
        skipped := skipped + 1;
      }
      if update {
        updated := updated + 1;
      }
      if fuzzy {
        fuzzyUsed := fuzzyUsed + 1;
      }
      CheckStep(before, i, cm, closeMatch, now);
      CountsStep(before, i, cm, closeMatch);
      i := i + 1;
    }
    assert before[..i] == before;
  }

  /** `updated + skipped <= len(data)` and `fuzzy_used + skipped <= len(data)`:
      a skipped record is neither updated nor fuzzy-matched. */
  lemma CountersBounded(pubs: Catalog, cm: CitationMap, closeMatch: (string, seq<string>) -> Option<string>)
    ensures CountWhere(pubs, UpdatedUnder(cm, closeMatch)) + CountWhere(pubs, SkippedUnder(cm, closeMatch)) <= |pubs|
    ensures CountWhere(pubs, FuzzyUnder(cm, closeMatch)) + CountWhere(pubs, SkippedUnder(cm, closeMatch)) <= |pubs|
  {
    CountWhereDisjoint(pubs, UpdatedUnder(cm, closeMatch), SkippedUnder(cm, closeMatch));
    CountWhereDisjoint(pubs, FuzzyUnder(cm, closeMatch), SkippedUnder(cm, closeMatch));
  }

  /** A second pass with the same map, matcher and time changes nothing and
      updates no record. */
  lemma RecheckChangesNothing(pubs: Catalog, cm: CitationMap, closeMatch: (string, seq<string>) -> Option<string>,
                              now: string)
    ensures CheckedCatalog(CheckedCatalog(pubs, cm, closeMatch, now), cm, closeMatch, now) ==
            CheckedCatalog(pubs, cm, closeMatch, now)
    ensures CountWhere(CheckedCatalog(pubs, cm, closeMatch, now), UpdatedUnder(cm, closeMatch)) == 0
  {
    var once := CheckedCatalog(pubs, cm, closeMatch, now);
    forall k | 0 <= k < |pubs|
      ensures CheckedRecord(once[k], cm, closeMatch, now) == once[k]
      ensures !IsUpdated(once[k], cm, closeMatch)
    {
      assert once[k].title == pubs[k].title;
    }
  }

  /** The state of `data/publications.json` when the updater starts. */
  datatype PublicationsFile = NoFile | NotAList | Records(data: Catalog)

  datatype Outcome =
    | FileNotFound
    | FormatNotAList
    | FetchFailed(reason: FetchResult)
    | Written(data: Catalog, updated: nat, skipped: nat, fuzzyUsed: nat)

  /** update_publications_file: the file checks come before the search, the
      search errors before any record is touched. */
  method UpdatePublicationsFile(file: PublicationsFile, authorId: string, apiKey: Option<string>,
                                search: (string, string) -> SearchResult,
                                closeMatch: (string, seq<string>) -> Option<string>, now: string)
    returns (outcome: Outcome)
    ensures file == NoFile ==> outcome == FileNotFound
    ensures file == NotAList ==> outcome == FormatNotAList
    ensures file.Records? && !Truthy(apiKey) ==> outcome == FetchFailed(MissingApiKey)
    ensures file.Records? && Truthy(apiKey) && search(apiKey.value, authorId).error.Some? ==>
      outcome == FetchFailed(SerpApiError(search(apiKey.value, authorId).error.value))
    ensures outcome.Written? ==>
      file.Records? && Truthy(apiKey) && search(apiKey.value, authorId).error.None? &&
      outcome.updated + outcome.skipped <= |file.data| &&
      outcome.fuzzyUsed + outcome.skipped <= |file.data|
    ensures file.Records? && Truthy(apiKey) && search(apiKey.value, authorId).error.None? ==>
      var articles := ArticlesOf(search(apiKey.value, authorId));
      var cm := CitationMap(CountsOf(articles, NormalizeTitle), KeyOrder(articles, NormalizeTitle));
      outcome == Written(CheckedCatalog(file.data, cm, closeMatch, now),
                         CountWhere(file.data, UpdatedUnder(cm, closeMatch)),
                         CountWhere(file.data, SkippedUnder(cm, closeMatch)),
                         CountWhere(file.data, FuzzyUnder(cm, closeMatch)))
  {
    if file == NoFile {
      return FileNotFound;
    }
    if file == NotAList {
      return FormatNotAList;
    }
    var fetched := FetchCitationMap(authorId, apiKey, search);
    if !fetched.Fetched? {
      return FetchFailed(fetched);
    }
    var data := new Publication[|file.data|](k requires 0 <= k < |file.data| => file.data[k]);
    assert data[..] == file.data;
    var updated, skipped, fuzzyUsed := CheckAll(data, fetched.citations, closeMatch, now);
    CountersBounded(file.data, fetched.citations, closeMatch);
    return Written(data[..], updated, skipped, fuzzyUsed);
  }
}

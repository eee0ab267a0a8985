/** The enhancement stage, scripts/llm-abstracts.js: the duplicate check for
    newly extracted articles, the choice of service, the template abstracts,
    the enhancement of one record, and `run`, which enhances every record of
    the catalog that is not fully enhanced yet and writes the list back.
    The environment, the model's answers and the clock are parameters:
    `generate(key, title, previous)` is the English abstract service `key`
    writes (None when the request fails), `translate(key, english)` the
    Korean and French versions after all six translation requests (None
    when one of them fails), and `now` the timestamp. */
module LlmAbstracts {
  import opened Common
  import opened Catalog
  import opened Services

  // ---------------------------------------------------------------------------
  // articleAlreadyExists and filterNewArticlesOnly
  // ---------------------------------------------------------------------------

  predicate KeepChar(c: char) { IsJsWordChar(c) || IsJsSpace(c) }

  /** The comparison form: lower-cased, trimmed, punctuation removed, runs of
      white space collapsed to one space. */
  function NormalizeText(text: string): (r: string)
    ensures forall c :: c in r ==> KeepChar(c) && !IsAsciiUpper(c)
  {
    var lowered := ToLower(text);
    CollapseSpaces(ReplaceOther(TrimJs(lowered), KeepChar, ""), IsJsSpace)
  }

  /** Normalising ignores ASCII case. */
  lemma NormalizeIgnoresCase(text: string)
    ensures NormalizeText(ToLower(text)) == NormalizeText(text)
  {
    ToLowerIdempotent(text);
  }

  /** Two articles count as the same when their normalised titles and
      normalised journals agree; a missing field reads as "". */
  predicate SameArticle(a: Publication, b: Publication) {
    NormalizeText(OrEmpty(a.title)) == NormalizeText(OrEmpty(b.title)) &&
    NormalizeText(OrEmpty(a.journal)) == NormalizeText(OrEmpty(b.journal))
  }

  /** `existing.some(matches)`, written as a scan. */
  predicate SomeRecord(existing: Catalog, matches: Publication -> bool)
    decreases |existing|
  {
    existing != [] && (SomeRecord(existing[..|existing| - 1], matches) || matches(existing[|existing| - 1]))
  }

  lemma {:induction false} SomeRecordIff(existing: Catalog, matches: Publication -> bool)
    ensures SomeRecord(existing, matches) <==> exists k :: 0 <= k < |existing| && matches(existing[k])
    decreases |existing|
  {
    if existing != [] {
      var init := existing[..|existing| - 1];
      SomeRecordIff(init, matches);
      if SomeRecord(init, matches) {
        var k :| 0 <= k < |init| && matches(init[k]);
        assert existing[k] == init[k];
      }
      if exists k :: 0 <= k < |existing| && matches(existing[k]) {
        var k :| 0 <= k < |existing| && matches(existing[k]);
        if k < |init| {
          assert init[k] == existing[k];
        }
      }
    }
  }

  function SameAs(article: Publication): Publication -> bool {
    (b: Publication) => SameArticle(b, article)
  }

  /** articleAlreadyExists: some record of the catalog is the same article. */
  predicate ArticleAlreadyExists(article: Publication, existing: Catalog) {
    SomeRecord(existing, SameAs(article))
  }

  /** The scan finds an article exactly when some record matches it. */
  lemma ArticleAlreadyExistsIff(article: Publication, existing: Catalog)
    ensures ArticleAlreadyExists(article, existing) <==> exists k :: 0 <= k < |existing| && SameArticle(existing[k], article)
  {
    SomeRecordIff(existing, SameAs(article));
    assert forall k :: 0 <= k < |existing| ==> (SameAs(article)(existing[k]) <==> SameArticle(existing[k], article));
  }

  /** A record is present in every catalog holding it, and in a catalog that
      holds the same title and journal written in other ASCII case. */
  lemma ArticleAlreadyExistsSelf(article: Publication, existing: Catalog, k: nat)
    requires k < |existing|
    requires existing[k].title == Some(ToLower(OrEmpty(article.title)))
    requires existing[k].journal == Some(ToLower(OrEmpty(article.journal)))
    ensures ArticleAlreadyExists(article, existing)
  {
    NormalizeIgnoresCase(OrEmpty(article.title));
    NormalizeIgnoresCase(OrEmpty(article.journal));
    assert SameArticle(existing[k], article);
    ArticleAlreadyExistsIff(article, existing);
  }

  /** Extending the catalog: an article is present in `existing + more`
      exactly when it is present in one of the parts. */
  lemma ArticleAlreadyExistsAppend(article: Publication, existing: Catalog, more: Catalog)
    ensures ArticleAlreadyExists(article, existing + more) <==>
            ArticleAlreadyExists(article, existing) || ArticleAlreadyExists(article, more)
  {
    SomeRecordAppend(existing, more, SameAs(article));
  }

  lemma SomeRecordAppend(existing: Catalog, more: Catalog, matches: Publication -> bool)
    ensures SomeRecord(existing + more, matches) <==> SomeRecord(existing, matches) || SomeRecord(more, matches)
  {
    var all := existing + more;
    SomeRecordIff(all, matches);
    SomeRecordIff(existing, matches);
    SomeRecordIff(more, matches);
    if SomeRecord(all, matches) {
      var k :| 0 <= k < |all| && matches(all[k]);
      if k >= |existing| {
        assert more[k - |existing|] == all[k];
      } else {
        assert existing[k] == all[k];
      }
    }
    if SomeRecord(more, matches) {
      var k :| 0 <= k < |more| && matches(more[k]);
      assert all[|existing| + k] == more[k];
    }
    if SomeRecord(existing, matches) {
      var k :| 0 <= k < |existing| && matches(existing[k]);
      assert all[k] == existing[k];
    }
  }

  predicate IsNewArticle(existing: Catalog, article: Publication) {
    !ArticleAlreadyExists(article, existing)
  }

  datatype FilterOutcome =
    | UntitledArticle          // an article without a title makes the log line throw
    | Kept(articles: seq<Publication>, skipped: nat)

  /** The filter test of filterNewArticlesOnly. */
  function NewIn(existing: Catalog): Publication -> bool {
    (a: Publication) => IsNewArticle(existing, a)
  }

  /** filterNewArticlesOnly, against the loaded catalog `existing`. */
  method FilterNewArticlesOnly(extracted: seq<Publication>, existing: Catalog) returns (outcome: FilterOutcome)
    ensures (exists k :: 0 <= k < |extracted| && extracted[k].title.None?) <==> outcome == UntitledArticle
    ensures outcome.Kept? ==> outcome.articles == Filter(extracted, NewIn(existing)) &&
                              outcome.skipped == |extracted| - |outcome.articles|
  {
    outcome := KeepNew(extracted, NewIn(existing));
  }

  /** The loop of filterNewArticlesOnly for a filter test `isNew`: an
      article without a title makes its log line throw. */
  method KeepNew(extracted: seq<Publication>, isNew: Publication -> bool) returns (outcome: FilterOutcome)
    ensures (exists k :: 0 <= k < |extracted| && extracted[k].title.None?) <==> outcome == UntitledArticle
    ensures outcome.Kept? ==> outcome.articles == Filter(extracted, isNew) &&
                              outcome.skipped == |extracted| - |outcome.articles|
  {
    var newArticles: seq<Publication> := [];
    for i := 0 to |extracted|
      invariant forall k :: 0 <= k < i ==> extracted[k].title.Some?
      invariant newArticles == Filter(extracted[..i], isNew)
    {
      var article := extracted[i];
      if article.title.None? {
        return UntitledArticle;
      }
      FilterPrefixStep(extracted, i, isNew);
      if isNew(article) {
        newArticles := newArticles + [article];
      }
    }
    assert extracted[..|extracted|] == extracted;
    outcome := Kept(newArticles, |extracted| - |newArticles|);
  }

  /** Once the kept articles are added to the catalog, filtering the same
      extraction again keeps nothing. */
  lemma FilterAgainKeepsNothing(extracted: seq<Publication>, existing: Catalog)
    ensures var kept := Filter(extracted, NewIn(existing));
      Filter(extracted, NewIn(existing + kept)) == []
  {
    var kept := Filter(extracted, NewIn(existing));
    FilterMembers(extracted, NewIn(existing));
    forall a | a in extracted ensures !IsNewArticle(existing + kept, a) {
      ArticleAlreadyExistsAppend(a, existing, kept);
      if IsNewArticle(existing, a) {
        assert a in kept;
        var k :| 0 <= k < |kept| && kept[k] == a;
        assert SameArticle(kept[k], a);
        ArticleAlreadyExistsIff(a, kept);
      }
    }
    FilterNone(extracted, NewIn(existing + kept));
  }

  // ---------------------------------------------------------------------------
  // detectAvailableService
  // ---------------------------------------------------------------------------

  /** The services of the enhancement stage, in declaration order; the local
      server needs no key. */
  const LlmServices: seq<Service> := [
    Service("anthropic", Some("ANTHROPIC_API_KEY")),
    Service("openai", Some("OPENAI_API_KEY")),
    Service("ollama", None),
    Service("groq", Some("GROQ_API_KEY"))]

  /** An entry of the `available` list. */
  datatype Candidate = Candidate(service: Service, priority: nat)

  /** The `available` list: priority 1 for a service whose key is set,
      priority 2 for a keyless `ollama`. */
  function Available(services: seq<Service>, env: string -> Option<string>): (r: seq<Candidate>)
    ensures forall k :: 0 <= k < |r| ==> 1 <= r[k].priority <= 2
    ensures forall k :: 0 <= k < |r| ==> (r[k].priority == 1 <==> HasKey(r[k].service, env))
    decreases |services|
  {
    if services == [] then []
    else Entry(services[0], env) + Available(services[1..], env)
  }

  /** The entry one service adds to the list. */
  function Entry(s: Service, env: string -> Option<string>): seq<Candidate> {
    if HasKey(s, env) then [Candidate(s, 1)]
    else if s.key == "ollama" then [Candidate(s, 2)] else []
  }

  lemma {:induction false} AvailableSnoc(services: seq<Service>, s: Service, env: string -> Option<string>)
    ensures Available(services + [s], env) == Available(services, env) + Entry(s, env)
    decreases |services|
  {
    if services == [] {
      assert [] + [s] == [s];
      assert [s][1..] == [];
    } else {
      assert (services + [s])[1..] == services[1..] + [s];
      AvailableSnoc(services[1..], s, env);
    }
  }

  /** `k` is where the stable sort by priority finds its first element: no
      entry has a lower priority and every entry before `k` a higher one. */
  predicate IsFirstLowest(avail: seq<Candidate>, k: int) {
    0 <= k < |avail| &&
    (forall j :: 0 <= j < |avail| ==> avail[k].priority <= avail[j].priority) &&
    (forall j :: 0 <= j < k ==> avail[k].priority < avail[j].priority)
  }

  lemma FirstLowestUnique(avail: seq<Candidate>, k1: int, k2: int)
    requires IsFirstLowest(avail, k1) && IsFirstLowest(avail, k2)
    ensures k1 == k2
  {
    assert avail[k1].priority <= avail[k2].priority && avail[k2].priority <= avail[k1].priority;
  }

  /** `available.sort(by priority)[0]`, or none for an empty list. */
  function SelectService(avail: seq<Candidate>): (r: Option<Candidate>)
    ensures r.None? <==> avail == []
    ensures r.Some? ==> exists k :: IsFirstLowest(avail, k) && avail[k] == r.value
    decreases |avail|
  {
    if avail == [] then None
    else
      var rest := SelectService(avail[1..]);
      if rest.None? || avail[0].priority <= rest.value.priority then
        assert forall j :: 1 <= j < |avail| ==> avail[j] == avail[1..][j - 1];
        Some(avail[0])
      else
        var k :| IsFirstLowest(avail[1..], k) && avail[1..][k] == rest.value;
        assert forall j :: 1 <= j < |avail| ==> avail[j] == avail[1..][j - 1];
        assert IsFirstLowest(avail, k + 1);
        rest
  }

  /** detectAvailableService: builds the list of available services, then
      takes its first entry of lowest priority. */
  method DetectAvailableService(services: seq<Service>, env: string -> Option<string>) returns (r: Option<Candidate>)
    ensures r == SelectService(Available(services, env))
  {
    var available: seq<Candidate> := [];
    for i := 0 to |services|
      invariant available == Available(services[..i], env)
    {
      var service := services[i];
      assert services[..i + 1] == services[..i] + [service];
      AvailableSnoc(services[..i], service, env);
      if HasKey(service, env) {
        available := available + [Candidate(service, 1)];
      } else if service.key == "ollama" {
        available := available + [Candidate(service, 2)];
      }
    }
    assert services[..|services|] == services;
    r := FirstOfLowestPriority(available);
  }

  /** `available.sort((a, b) => a.priority - b.priority)[0]`: the sort is
      stable, so its head is the first entry of lowest priority. */
  method FirstOfLowestPriority(available: seq<Candidate>) returns (r: Option<Candidate>)
    ensures r == SelectService(available)
  {
    if available == [] {
      return None;
    }
    var best := 0;
    for i := 1 to |available|
      invariant best < i
      invariant forall j :: 0 <= j < i ==> available[best].priority <= available[j].priority
      invariant forall j :: 0 <= j < best ==> available[best].priority < available[j].priority
    {
      if available[i].priority < available[best].priority {
        best := i;
      }
    }
    var k :| IsFirstLowest(available, k) && available[k] == SelectService(available).value;
    FirstLowestUnique(available, best, k);
    r := Some(available[best]);
  }

  /** With the fixed service table a service is always found: the first one
      with a key, in the order anthropic, openai, groq, and otherwise the
      local server. */
  lemma LlmServiceSelection(env: string -> Option<string>)
    ensures var r := SelectService(Available(LlmServices, env));
      r.Some? &&
      (HasKey(LlmServices[0], env) ==> r.value.service == LlmServices[0]) &&
      (!HasKey(LlmServices[0], env) && HasKey(LlmServices[1], env) ==> r.value.service == LlmServices[1]) &&
      (!HasKey(LlmServices[0], env) && !HasKey(LlmServices[1], env) && HasKey(LlmServices[3], env) ==>
         r.value.service == LlmServices[3]) &&
      (!HasKey(LlmServices[0], env) && !HasKey(LlmServices[1], env) && !HasKey(LlmServices[3], env) ==>
         r.value == Candidate(LlmServices[2], 2))
  {
    var a, o, l, g := LlmServices[0], LlmServices[1], LlmServices[2], LlmServices[3];
    assert LlmServices == [a, o, l, g];
    TableSelection(a, o, l, g, env);
  }

  /** The selection over a table of three keyed services and a keyless local
      server in third place. */
  lemma TableSelection(a: Service, o: Service, l: Service, g: Service, env: string -> Option<string>)
    requires l.envVar.None? && l.key == "ollama"
    requires a.key != "ollama" && o.key != "ollama" && g.key != "ollama"
    ensures var r := SelectService(Available([a, o, l, g], env));
      r.Some? &&
      (HasKey(a, env) ==> r.value.service == a) &&
      (!HasKey(a, env) && HasKey(o, env) ==> r.value.service == o) &&
      (!HasKey(a, env) && !HasKey(o, env) && HasKey(g, env) ==> r.value.service == g) &&
      (!HasKey(a, env) && !HasKey(o, env) && !HasKey(g, env) ==> r.value == Candidate(l, 2))
  {
    assert [a, o, l, g] == [a] + [o, l, g];
    if HasKey(a, env) {
      HeadSelection(a, [o, l, g], env);
    } else {
      SkipUnavailable(a, [o, l, g], env);
      TailSelection(o, l, g, env);
    }
  }

  lemma TailSelection(o: Service, l: Service, g: Service, env: string -> Option<string>)
    requires l.envVar.None? && l.key == "ollama" && o.key != "ollama" && g.key != "ollama"
    ensures var r := SelectService(Available([o, l, g], env));
      r.Some? &&
      (HasKey(o, env) ==> r.value.service == o) &&
      (!HasKey(o, env) && HasKey(g, env) ==> r.value.service == g) &&
      (!HasKey(o, env) && !HasKey(g, env) ==> r.value == Candidate(l, 2))
  {
    assert [o, l, g] == [o] + [l, g];
    if HasKey(o, env) {
      HeadSelection(o, [l, g], env);
    } else {
      SkipUnavailable(o, [l, g], env);
      LastSelection(l, g, env);
    }
  }

  /** A first service with a key is selected. */
  lemma HeadSelection(o: Service, rest: seq<Service>, env: string -> Option<string>)
    requires HasKey(o, env)
    ensures SelectService(Available([o] + rest, env)) == Some(Candidate(o, 1))
  {
    var avail := Available([o] + rest, env);
    assert ([o] + rest)[0] == o;
    assert avail[0] == Candidate(o, 1);
    SelectFirstOne(avail, 0);
  }

  /** A first service without a key that is not the local server adds nothing. */
  lemma SkipUnavailable(o: Service, rest: seq<Service>, env: string -> Option<string>)
    requires !HasKey(o, env) && o.key != "ollama"
    ensures Available([o] + rest, env) == Available(rest, env)
  {
    assert ([o] + rest)[0] == o && ([o] + rest)[1..] == rest;
  }

  lemma LastSelection(l: Service, g: Service, env: string -> Option<string>)
    requires l.envVar.None? && l.key == "ollama" && g.key != "ollama"
    ensures var r := SelectService(Available([l, g], env));
      r.Some? &&
      (HasKey(g, env) ==> r.value.service == g) &&
      (!HasKey(g, env) ==> r.value == Candidate(l, 2))
  {
    var avail := Available([l, g], env);
    assert [l, g][1..] == [g] && [g][1..] == [];
    assert Available([g][1..], env) == [];
    assert Available([g], env) == Entry(g, env) + [];
    assert avail == [Candidate(l, 2)] + Entry(g, env);
    if HasKey(g, env) {
      assert avail == [Candidate(l, 2), Candidate(g, 1)];
      SelectFirstOne(avail, 1);
    } else {
      assert avail == [Candidate(l, 2)];
    }
  }

  /** The first entry of priority 1 is selected. */
  lemma SelectFirstOne(avail: seq<Candidate>, k: nat)
    requires k < |avail| && avail[k].priority == 1
    requires forall j :: 0 <= j < |avail| ==> 1 <= avail[j].priority
    requires forall j :: 0 <= j < k ==> avail[j].priority != 1
    ensures SelectService(avail) == Some(avail[k])
  {
    assert IsFirstLowest(avail, k);
    var m :| IsFirstLowest(avail, m) && avail[m] == SelectService(avail).value;
    FirstLowestUnique(avail, k, m);
  }

  // ---------------------------------------------------------------------------
  // detectResearchDomain and generateFallbackAbstract
  // ---------------------------------------------------------------------------

  datatype Domain = Epidemiology | ControlTheory | MathematicalBiology | General

  const EpidemiologyWords: seq<string> := ["covid", "epidemi", "transmission", "vaccination"]
  const ControlWords: seq<string> := ["control", "optimal", "optimization"]
  const BiologyWords: seq<string> := ["mathematical", "model"]

  /** detectResearchDomain: the first keyword group, in priority order, with
      a keyword in the lower-cased title. */
  function DetectResearchDomain(title: string): Domain {
    var t := ToLower(title);
    if ContainsAny(t, EpidemiologyWords) then Epidemiology
    else if ContainsAny(t, ControlWords) then ControlTheory
    else if ContainsAny(t, BiologyWords) then MathematicalBiology
    else General
  }

  /** The domain depends only on the lower-cased title, and a keyword of a
      higher group decides it whatever the title also contains. */
  lemma DomainOfTitle(title: string)
    ensures DetectResearchDomain(ToLower(title)) == DetectResearchDomain(title)
    ensures Contains(ToLower(title), "covid") ==> DetectResearchDomain(title) == Epidemiology
    ensures DetectResearchDomain(title) == General <==>
      !ContainsAny(ToLower(title), EpidemiologyWords + ControlWords + BiologyWords)
  {
    ToLowerIdempotent(title);
    var t := ToLower(title);
    var all := EpidemiologyWords + ControlWords + BiologyWords;
    if Contains(t, "covid") {
      assert EpidemiologyWords[0] == "covid";
    }
    if ContainsAny(t, all) {
      var k :| 0 <= k < |all| && Contains(t, all[k]);
      if k < 4 {
        assert all[k] == EpidemiologyWords[k];
      } else if k < 7 {
        assert all[k] == ControlWords[k - 4];
      } else {
        assert all[k] == BiologyWords[k - 7];
      }
    }
    if ContainsAny(t, EpidemiologyWords) {
      var k :| 0 <= k < 4 && Contains(t, EpidemiologyWords[k]);
      assert all[k] == EpidemiologyWords[k];
    } else if ContainsAny(t, ControlWords) {
      var k :| 0 <= k < 3 && Contains(t, ControlWords[k]);
      assert all[k + 4] == ControlWords[k];
    } else if ContainsAny(t, BiologyWords) {
      var k :| 0 <= k < 2 && Contains(t, BiologyWords[k]);
      assert all[k + 7] == BiologyWords[k];
    }
  }

  /** The text of a domain's template before and after the title. */
  function TemplateHead(d: Domain): string {
    match d
    case Epidemiology => "This study presents research on "
    case ControlTheory => "This paper investigates "
    case MathematicalBiology => "This research examines "
    case General => "This study focuses on "
  }

  function TemplateTail(d: Domain): string {
    match d
    case Epidemiology =>
      ". The work involves mathematical modeling and analysis of epidemiological patterns, contributing to our understanding of disease transmission and control strategies."
    case ControlTheory =>
      ", applying control theory principles and mathematical optimization techniques to analyze system dynamics and develop effective intervention strategies."
    case MathematicalBiology =>
      " using mathematical modeling approaches. The study contributes to the field of mathematical biology through theoretical analysis and computational methods."
    case General =>
      ", employing rigorous analytical methods and mathematical approaches to advance understanding in this important research area."
  }

  /** generateFallbackAbstract: the template of the title's domain with the
      lower-cased title in it. */
  function FallbackAbstract(title: string): string {
    var d := DetectResearchDomain(title);
    TemplateHead(d) + ToLower(title) + TemplateTail(d)
  }

  lemma ThreeParts(a: string, b: string, c: string)
    ensures StartsWith(a + b + c, a) && OccursAt(a + b + c, b, |a|) && EndsWith(a + b + c, c)
  {
    var r := a + b + c;
    assert r[..|a|] == a;
    assert r[|a|..|a| + |b|] == b;
    assert r[|r| - |c|..] == c;
  }

  /** The template abstract opens with its domain's head, carries the
      lower-cased title right after it and closes with the domain's tail. */
  lemma FallbackAbstractShape(title: string)
    ensures var d := DetectResearchDomain(title);
      StartsWith(FallbackAbstract(title), TemplateHead(d)) &&
      OccursAt(FallbackAbstract(title), ToLower(title), |TemplateHead(d)|) &&
      EndsWith(FallbackAbstract(title), TemplateTail(d)) &&
      |FallbackAbstract(title)| > |title|
  {
    var d := DetectResearchDomain(title);
    ThreeParts(TemplateHead(d), ToLower(title), TemplateTail(d));
  }

  // ---------------------------------------------------------------------------
  // enhancePublication
  // ---------------------------------------------------------------------------

  /** The keys enhancePublication sends to a language model; every other
      key, the local server's included, gets the template abstract. */
  predicate IsLlmKey(key: string) { key == "openai" || key == "groq" || key == "anthropic" }

  /** An abstract with the tagged copies standing in for its translations. */
  function Tagged(en: string): Summary {
    Summary(Some(en), Some(KoreanTag + en), Some(FrenchTag + en))
  }

  /** The new `summary` object of a titled record. */
  function EnhancedSummary(pub: Publication, title: string, key: string,
                           generate: (string, string, Option<string>) -> Option<string>,
                           translate: (string, string) -> Option<(string, string)>): (r: Summary)
    ensures r.en.Some? && r.ko.Some? && r.fr.Some?
    ensures !IsLlmKey(key) ==> r == Tagged(FallbackAbstract(title))
    ensures r == Tagged(r.en.value) || (IsLlmKey(key) && translate(key, r.en.value).Some?)
  {
    if !IsLlmKey(key) || pub.summary.None? then Tagged(FallbackAbstract(title))
    else
      match generate(key, title, pub.summary.value.en)
      case None => Tagged(FallbackAbstract(title))
      case Some(en) =>
        match translate(key, en)
        case None => Tagged(en)
        case Some(t) => Summary(Some(en), Some(t.0), Some(t.1))
  }

  /** enhancePublication: None when the record has no title (its log line
      throws before the guarded part); otherwise the record with a new
      summary and time stamp and every other field as it was. */
  function EnhancePublication(pub: Publication, key: string,
                              generate: (string, string, Option<string>) -> Option<string>,
                              translate: (string, string) -> Option<(string, string)>,
                              now: string): (r: Option<Publication>)
    ensures r.None? <==> pub.title.None?
    ensures r.Some? ==> r.value.(summary := pub.summary, enhanced_at := pub.enhanced_at) == pub
    ensures r.Some? ==> r.value.enhanced_at == Some(now) && r.value.summary.Some?
  {
    if pub.title.None? then None
    else Some(pub.(summary := Some(EnhancedSummary(pub, pub.title.value, key, generate, translate)),
                   enhanced_at := Some(now)))
  }

  /** The model's answers are non-empty whenever they arrive. */
  ghost predicate AnswersNonEmpty(generate: (string, string, Option<string>) -> Option<string>,
                            translate: (string, string) -> Option<(string, string)>)
  {
    (forall k, t, e :: generate(k, t, e).Some? ==> generate(k, t, e).value != "") &&
    (forall k, e :: translate(k, e).Some? ==> translate(k, e).value.0 != "" && translate(k, e).value.1 != "")
  }

  /** An enhanced record passes the "already enhanced" test, so a later run
      leaves it alone. */
  lemma EnhancedIsFullyEnhanced(pub: Publication, key: string,
                                generate: (string, string, Option<string>) -> Option<string>,
                                translate: (string, string) -> Option<(string, string)>, now: string)
    requires pub.title.Some? && now != "" && AnswersNonEmpty(generate, translate)
    ensures IsFullyEnhanced(EnhancePublication(pub, key, generate, translate, now).value)
  {
    EnhancedSummaryNonEmpty(pub, pub.title.value, key, generate, translate);
  }

  lemma EnhancedSummaryNonEmpty(pub: Publication, title: string, key: string,
                                generate: (string, string, Option<string>) -> Option<string>,
                                translate: (string, string) -> Option<(string, string)>)
    requires AnswersNonEmpty(generate, translate)
    ensures var s := EnhancedSummary(pub, title, key, generate, translate);
      s.en.value != "" && s.ko.value != "" && s.fr.value != ""
  {
    var s := EnhancedSummary(pub, title, key, generate, translate);
    if !IsLlmKey(key) || pub.summary.None? {
      assert s == Tagged(FallbackAbstract(title));
      FallbackNonEmpty(title);
    } else {
      var g := generate(key, title, pub.summary.value.en);
      if g.None? {
        assert s == Tagged(FallbackAbstract(title));
        FallbackNonEmpty(title);
      } else {
        assert g.value != "";
        GeneratedNonEmpty(key, g.value, generate, translate);
      }
    }
  }

  lemma FallbackNonEmpty(title: string)
    ensures Tagged(FallbackAbstract(title)).en.value != ""
    ensures Tagged(FallbackAbstract(title)).ko.value != ""
    ensures Tagged(FallbackAbstract(title)).fr.value != ""
  {
    FallbackAbstractShape(title);
    TaggedNonEmpty(FallbackAbstract(title));
  }

  /** The summary built from a non-empty generated abstract. */
  lemma GeneratedNonEmpty(key: string, en: string,
                          generate: (string, string, Option<string>) -> Option<string>,
                          translate: (string, string) -> Option<(string, string)>)
    requires AnswersNonEmpty(generate, translate) && en != ""
    ensures var s := match translate(key, en)
                     case None => Tagged(en)
                     case Some(t) => Summary(Some(en), Some(t.0), Some(t.1));
      s.en.value != "" && s.ko.value != "" && s.fr.value != ""
  {
    TaggedNonEmpty(en);
  }

  lemma TaggedNonEmpty(en: string)
    requires en != ""
    ensures Tagged(en).en.value != "" && Tagged(en).ko.value != "" && Tagged(en).fr.value != ""
  {
    assert |KoreanTag + en| > 0 && |FrenchTag + en| > 0;
  }

  // ---------------------------------------------------------------------------
  // run
  // ---------------------------------------------------------------------------

  predicate NeedsEnhancement(p: Publication) { !IsFullyEnhanced(p) }

  /** The key enhancePublication is given: the selected service's, or
      "fallback". */
  function RunKey(env: string -> Option<string>): string {
    var s := SelectService(Available(LlmServices, env));
    if s.Some? then s.value.service.key else "fallback"
  }

  /** The selection at the start of run and the key it hands on. */
  method SelectKey(env: string -> Option<string>) returns (key: string)
    ensures key == RunKey(env)
  {
    var service := DetectAvailableService(LlmServices, env);
    key := if service.Some? then service.value.service.key else "fallback";
  }

  /** What run does to one record of a fully titled catalog. */
  function EnhanceRecord(pub: Publication, key: string,
                         generate: (string, string, Option<string>) -> Option<string>,
                         translate: (string, string) -> Option<(string, string)>, now: string): Publication
  {
    if IsFullyEnhanced(pub) then pub
    else
      match EnhancePublication(pub, key, generate, translate, now)
      case Some(e) => e
      case None => pub
  }

  /** The records of `xs`, each passed through `f`. */
  function MapRecords(xs: seq<Publication>, f: Publication -> Publication): (r: seq<Publication>)
    ensures |r| == |xs| && forall i :: 0 <= i < |xs| ==> r[i] == f(xs[i])
  {
    seq(|xs|, i requires 0 <= i < |xs| => f(xs[i]))
  }

  lemma MapRecordsStep(xs: seq<Publication>, i: int, f: Publication -> Publication)
    requires 0 <= i < |xs|
    ensures MapRecords(xs[..i + 1], f) == MapRecords(xs[..i], f) + [f(xs[i])]
  {
    var l := MapRecords(xs[..i + 1], f);
    var r := MapRecords(xs[..i], f) + [f(xs[i])];
    assert forall k :: 0 <= k < |l| ==> l[k] == r[k];
  }

  /** The enhancement run applies to every record. */
  function Enhancer(key: string,
                    generate: (string, string, Option<string>) -> Option<string>,
                    translate: (string, string) -> Option<(string, string)>, now: string): Publication -> Publication
  {
    p => EnhanceRecord(p, key, generate, translate, now)
  }

  /** The catalog run saves: every record that needs enhancement enhanced,
      every other record as it was. */
  function EnhanceAll(pubs: Catalog, key: string,
                      generate: (string, string, Option<string>) -> Option<string>,
                      translate: (string, string) -> Option<(string, string)>, now: string): Catalog
  {
    MapRecords(pubs, Enhancer(key, generate, translate, now))
  }

  /** The per-record enhancement leaves a fully enhanced record alone and
      keeps every record's title and file. */
  predicate KeepsIdentity(f: Publication -> Publication, p: Publication) {
    (IsFullyEnhanced(p) ==> f(p) == p) && f(p).title == p.title && f(p).pdf_file == p.pdf_file
  }

  lemma EnhancerKeepsIdentity(key: string,
                              generate: (string, string, Option<string>) -> Option<string>,
                              translate: (string, string) -> Option<(string, string)>, now: string)
    ensures forall p :: KeepsIdentity(Enhancer(key, generate, translate, now), p)
  {
    forall p ensures KeepsIdentity(Enhancer(key, generate, translate, now), p) {
      var e := EnhancePublication(p, key, generate, translate, now);
      if !IsFullyEnhanced(p) && e.Some? {
        assert e.value.(summary := p.summary, enhanced_at := p.enhanced_at) == p;
      }
    }
  }

  /** Writing each enhanced record back in place of its own original: the
      list is walked in order and each record needing enhancement takes the
      next enhanced one. */
  function MergeInOrder(pubs: Catalog, enhanced: seq<Publication>): Catalog
    decreases |pubs|
  {
    if pubs == [] then []
    else
      var last := pubs[|pubs| - 1];
      var init := pubs[..|pubs| - 1];
      if NeedsEnhancement(last) && enhanced != [] then
        MergeInOrder(init, enhanced[..|enhanced| - 1]) + [enhanced[|enhanced| - 1]]
      else MergeInOrder(init, enhanced) + [last]
  }

  /** `publications.map(pub => enhanced.find(ep => ep.title === pub.title) || pub)`. */
  function MergeByTitleAsWritten(pubs: Catalog, enhanced: seq<Publication>): (r: Catalog)
    ensures |r| == |pubs|
  {
    seq(|pubs|, i requires 0 <= i < |pubs| =>
      match FirstSatisfying(enhanced, HasTitle(pubs[i].title))
      case Some(e) => e
      case None => pubs[i])
  }

  /** `ep => ep.title === title`. */
  function HasTitle(title: Option<string>): Publication -> bool {
    (ep: Publication) => ep.title == title
  }

  /** The in-order merge of the enhanced selection puts every enhanced
      record back where its original was. */
  lemma {:induction false} MergeInOrderPlacesEach(pubs: Catalog, f: Publication -> Publication)
    requires forall p :: KeepsIdentity(f, p)
    ensures MergeInOrder(pubs, MapRecords(Filter(pubs, NeedsEnhancement), f)) == MapRecords(pubs, f)
    decreases |pubs|
  {
    if pubs != [] {
      var last := pubs[|pubs| - 1];
      var init := pubs[..|pubs| - 1];
      assert pubs == init + [last];
      MergeInOrderPlacesEach(init, f);
      if NeedsEnhancement(last) {
        MergeStepEnhanced(init, last, f);
      } else {
        MergeStepKept(init, last, f);
      }
    }
  }

  lemma MapRecordsSnoc(xs: seq<Publication>, x: Publication, f: Publication -> Publication)
    ensures MapRecords(xs + [x], f) == MapRecords(xs, f) + [f(x)]
  {
    MapRecordsStep(xs + [x], |xs|, f);
    assert (xs + [x])[..|xs|] == xs && (xs + [x])[..|xs| + 1] == xs + [x];
  }

  /** One unfolding of MergeInOrder at a last record. */
  lemma MergeInOrderSnoc(init: Catalog, last: Publication, enhanced: seq<Publication>)
    ensures MergeInOrder(init + [last], enhanced) ==
            if NeedsEnhancement(last) && enhanced != [] then
              MergeInOrder(init, enhanced[..|enhanced| - 1]) + [enhanced[|enhanced| - 1]]
            else MergeInOrder(init, enhanced) + [last]
  {
    var pubs := init + [last];
    assert pubs[..|pubs| - 1] == init && pubs[|pubs| - 1] == last;
  }

  /** The inductive step of MergeInOrderPlacesEach for a last record that is
      enhanced. */
  lemma MergeStepEnhanced(init: Catalog, last: Publication, f: Publication -> Publication)
    requires NeedsEnhancement(last)
    requires MergeInOrder(init, MapRecords(Filter(init, NeedsEnhancement), f)) == MapRecords(init, f)
    ensures MergeInOrder(init + [last], MapRecords(Filter(init + [last], NeedsEnhancement), f)) ==
            MapRecords(init + [last], f)
  {
    var selInit := Filter(init, NeedsEnhancement);
    var done := MapRecords(selInit, f);
    FilterSnoc(init, last, NeedsEnhancement);
    MapRecordsSnoc(selInit, last, f);
    MapRecordsSnoc(init, last, f);
    MergeInOrderSnoc(init, last, done + [f(last)]);
    assert (done + [f(last)])[..|done|] == done;
  }

  /** The inductive step of MergeInOrderPlacesEach for a last record that is
      already fully enhanced and kept. */
  lemma MergeStepKept(init: Catalog, last: Publication, f: Publication -> Publication)
    requires !NeedsEnhancement(last) && KeepsIdentity(f, last)
    requires MergeInOrder(init, MapRecords(Filter(init, NeedsEnhancement), f)) == MapRecords(init, f)
    ensures MergeInOrder(init + [last], MapRecords(Filter(init + [last], NeedsEnhancement), f)) ==
            MapRecords(init + [last], f)
  {
    var sel := Filter(init, NeedsEnhancement);
    FilterSnoc(init, last, NeedsEnhancement);
    assert Filter(init + [last], NeedsEnhancement) == sel + [] == sel;
    MapRecordsSnoc(init, last, f);
    assert f(last) == last;
    MergeInOrderSnoc(init, last, MapRecords(sel, f));
  }

  predicate DistinctTitles(pubs: Catalog) {
    forall i, j :: 0 <= i < j < |pubs| ==> pubs[i].title != pubs[j].title
  }

  /** When no two records share a title, the merge by title written in run
      puts every enhanced record back in its own place. */
  lemma MergeByTitleAgrees(pubs: Catalog, f: Publication -> Publication)
    requires forall p :: KeepsIdentity(f, p)
    requires DistinctTitles(pubs)
    ensures MergeByTitleAsWritten(pubs, MapRecords(Filter(pubs, NeedsEnhancement), f)) == MapRecords(pubs, f)
  {
    var r := MergeByTitleAsWritten(pubs, MapRecords(Filter(pubs, NeedsEnhancement), f));
    var want := MapRecords(pubs, f);
    forall i | 0 <= i < |pubs| ensures r[i] == want[i] {
      MergeByTitleAt(pubs, f, i);
    }
  }

  lemma MergeByTitleAt(pubs: Catalog, f: Publication -> Publication, i: int)
    requires forall p :: KeepsIdentity(f, p)
    requires DistinctTitles(pubs) && 0 <= i < |pubs|
    ensures MergeByTitleAsWritten(pubs, MapRecords(Filter(pubs, NeedsEnhancement), f))[i] == f(pubs[i])
  {
    var found := FirstSatisfying(MapRecords(Filter(pubs, NeedsEnhancement), f), HasTitle(pubs[i].title));
    assert KeepsIdentity(f, pubs[i]);
    if NeedsEnhancement(pubs[i]) {
      FindsOwnTitle(pubs, f, i);
    } else {
      MissesOwnTitle(pubs, f, i);
    }
  }

  /** A record that needs enhancement finds its own enhanced form by title. */
  lemma FindsOwnTitle(pubs: Catalog, f: Publication -> Publication, i: int)
    requires forall p :: KeepsIdentity(f, p)
    requires DistinctTitles(pubs) && 0 <= i < |pubs| && NeedsEnhancement(pubs[i])
    ensures FirstSatisfying(MapRecords(Filter(pubs, NeedsEnhancement), f), HasTitle(pubs[i].title)) == Some(f(pubs[i]))
  {
    var sel := Filter(pubs, NeedsEnhancement);
    var enh := MapRecords(sel, f);
    var p := HasTitle(pubs[i].title);
    assert KeepsIdentity(f, pubs[i]);
    FilterMembers(pubs, NeedsEnhancement);
    assert pubs[i] in sel;
    var m :| 0 <= m < |sel| && sel[m] == pubs[i];
    assert p(enh[m]);
    forall k | 0 <= k < |enh| && p(enh[k]) ensures enh[k] == f(pubs[i]) {
      TitleMatchIsOwn(pubs, f, i, k);
    }
    FirstSatisfyingUnique(enh, p, m, f(pubs[i]));
  }

  /** A record that is already enhanced finds no enhanced record by title. */
  lemma MissesOwnTitle(pubs: Catalog, f: Publication -> Publication, i: int)
    requires forall p :: KeepsIdentity(f, p)
    requires DistinctTitles(pubs) && 0 <= i < |pubs| && !NeedsEnhancement(pubs[i])
    ensures FirstSatisfying(MapRecords(Filter(pubs, NeedsEnhancement), f), HasTitle(pubs[i].title)).None?
  {
    var enh := MapRecords(Filter(pubs, NeedsEnhancement), f);
    forall m | 0 <= m < |enh| ensures !HasTitle(pubs[i].title)(enh[m]) {
      TitleMatchIsOwn(pubs, f, i, m);
    }
  }

  /** With distinct titles, the only enhanced record bearing a record's
      title is that record's own enhanced form. */
  lemma TitleMatchIsOwn(pubs: Catalog, f: Publication -> Publication, i: int, m: int)
    requires forall p :: KeepsIdentity(f, p)
    requires DistinctTitles(pubs) && 0 <= i < |pubs|
    requires 0 <= m < |Filter(pubs, NeedsEnhancement)|
    ensures f(Filter(pubs, NeedsEnhancement)[m]).title == pubs[i].title ==>
      NeedsEnhancement(pubs[i]) && f(Filter(pubs, NeedsEnhancement)[m]) == f(pubs[i])
  {
    var sel := Filter(pubs, NeedsEnhancement);
    FilterMembers(pubs, NeedsEnhancement);
    assert sel[m] in pubs;
    var j :| 0 <= j < |pubs| && pubs[j] == sel[m];
    assert KeepsIdentity(f, sel[m]);
    assert sel[m].title == pubs[i].title ==> j == i;
  }

  /** Two records that share a title and both need enhancement: the merge
      as written gives the second record the first one's enhanced form,
      so the second record's own fields (its file, link, journal,
      citations) are lost from the saved catalog. */
  lemma MergeByTitleDuplicate(a: Publication, b: Publication, f: Publication -> Publication)
    requires forall p :: KeepsIdentity(f, p)
    requires a.title == b.title && a.pdf_file != b.pdf_file
    requires NeedsEnhancement(a) && NeedsEnhancement(b)
    ensures var enh := MapRecords(Filter([a, b], NeedsEnhancement), f);
      MergeByTitleAsWritten([a, b], enh)[1].pdf_file == a.pdf_file &&
      MapRecords([a, b], f)[1].pdf_file == b.pdf_file
  {
    FilterAll([a, b], NeedsEnhancement);
    var enh := MapRecords([a, b], f);
    assert KeepsIdentity(f, a) && KeepsIdentity(f, b);
    assert HasTitle(b.title)(enh[0]);
  }

  datatype RunOutcome =
    | NoPublications     // nothing loaded: return without saving
    | MissingTitle       // a record without a title makes a log line throw
    | AllEnhanced        // nothing selected: return without saving
    | Saved(catalog: Catalog)

  predicate AllFullyEnhanced(pubs: Catalog) {
    forall k :: 0 <= k < |pubs| ==> IsFullyEnhanced(pubs[k])
  }

  /** run: load, select the service, skip the fully enhanced records,
      enhance the rest and write them back. */
  method Run(pubs: Catalog, env: string -> Option<string>,
             generate: (string, string, Option<string>) -> Option<string>,
             translate: (string, string) -> Option<(string, string)>, now: string)
    returns (outcome: RunOutcome)
    ensures pubs == [] ==> outcome == NoPublications
    ensures pubs != [] && !AllTitled(pubs) ==> outcome == MissingTitle
    ensures pubs != [] && AllTitled(pubs) && AllFullyEnhanced(pubs) ==> outcome == AllEnhanced
    ensures pubs != [] && AllTitled(pubs) && !AllFullyEnhanced(pubs) ==>
      outcome == Saved(EnhanceAll(pubs, RunKey(env), generate, translate, now))
  {
    if pubs == [] {
      return NoPublications;
    }
    var key := SelectKey(env);
    outcome := RunLoaded(pubs, key, generate, translate, now);
  }

  /** run after loading a non-empty catalog and selecting the service key. */
  method RunLoaded(pubs: Catalog, key: string,
                   generate: (string, string, Option<string>) -> Option<string>,
                   translate: (string, string) -> Option<(string, string)>, now: string)
    returns (outcome: RunOutcome)
    requires pubs != []
    ensures !AllTitled(pubs) ==> outcome == MissingTitle
    ensures AllTitled(pubs) && AllFullyEnhanced(pubs) ==> outcome == AllEnhanced
    ensures AllTitled(pubs) && !AllFullyEnhanced(pubs) ==>
      outcome == Saved(EnhanceAll(pubs, key, generate, translate, now))
  {
    // the selection's log line reads the title of every skipped record
    if SkippedUntitled(pubs) {
      SkippedIsUntitled(pubs);
      return MissingTitle;
    }
    FilterSelects(pubs);
    if Filter(pubs, NeedsEnhancement) == [] {
      return AllEnhanced;
    }
    outcome := EnhanceAndSave(pubs, key, generate, translate, now);
  }

  /** The second half of run: enhance the selection one record at a time and
      merge the results back in catalog order. */
  method EnhanceAndSave(pubs: Catalog, key: string,
                        generate: (string, string, Option<string>) -> Option<string>,
                        translate: (string, string) -> Option<(string, string)>, now: string)
    returns (outcome: RunOutcome)
    requires !SkippedUntitled(pubs)
    ensures AllTitled(pubs) ==> outcome == Saved(EnhanceAll(pubs, key, generate, translate, now))
    ensures !AllTitled(pubs) ==> outcome == MissingTitle
  {
    var toEnhance := Filter(pubs, NeedsEnhancement);
    var enhance := (p: Publication) => EnhancePublication(p, key, generate, translate, now);
    var enhancedPublications := EnhanceSelected(toEnhance, enhance);
    if enhancedPublications.None? {
      UntitledSelected(pubs);
      return MissingTitle;
    }
    SelectedTitled(pubs);
    MergeSelected(pubs, enhancedPublications.value, key, generate, translate, now);
    outcome := Saved(MergeInOrder(pubs, enhancedPublications.value));
  }

  /** `es` holds, position by position, what `enhance` makes of `xs`. */
  predicate EnhancedEach(xs: seq<Publication>, es: seq<Publication>, enhance: Publication -> Option<Publication>) {
    |es| == |xs| && forall k :: 0 <= k < |xs| ==> enhance(xs[k]) == Some(es[k])
  }

  /** run's loop over the selection: each record is enhanced in turn by
      `enhance` (enhancePublication); the first one without a title makes
      its log line throw, which ends the run. The fail-safe that aborts on
      an already enhanced record cannot fire, since the selection used the
      same test. */
  method EnhanceSelected(toEnhance: seq<Publication>, enhance: Publication -> Option<Publication>)
    returns (r: Option<seq<Publication>>)
    requires forall k :: 0 <= k < |toEnhance| ==> NeedsEnhancement(toEnhance[k])
    requires forall p :: enhance(p).None? <==> p.title.None?
    ensures r.None? <==> !AllTitled(toEnhance)
    ensures r.Some? ==> EnhancedEach(toEnhance, r.value, enhance)
  {
    var enhancedPublications: seq<Publication> := [];
    for i := 0 to |toEnhance|
      invariant EnhancedEach(toEnhance[..i], enhancedPublications, enhance)
      invariant AllTitled(toEnhance[..i])
    {
      var publication := toEnhance[i];
      if IsFullyEnhanced(publication) {
        assert false;
      }
      var enhanced := enhance(publication);
      if enhanced.None? {
        assert toEnhance[i].title.None?;
        return None;
      }
      assert toEnhance[..i + 1] == toEnhance[..i] + [publication];
      enhancedPublications := enhancedPublications + [enhanced.value];
    }
    assert toEnhance[..|toEnhance|] == toEnhance;
    return Some(enhancedPublications);
  }

  /** The records the loop collects are the enhanced forms run saves. */
  lemma SelectedEnhanced(toEnhance: seq<Publication>, es: seq<Publication>, key: string,
                         generate: (string, string, Option<string>) -> Option<string>,
                         translate: (string, string) -> Option<(string, string)>, now: string)
    requires forall k :: 0 <= k < |toEnhance| ==> NeedsEnhancement(toEnhance[k])
    requires EnhancedEach(toEnhance, es, p => EnhancePublication(p, key, generate, translate, now))
    ensures es == EnhanceAll(toEnhance, key, generate, translate, now)
  {
    var want := EnhanceAll(toEnhance, key, generate, translate, now);
    forall k | 0 <= k < |toEnhance| ensures es[k] == want[k] {
      assert NeedsEnhancement(toEnhance[k]);
      assert EnhancePublication(toEnhance[k], key, generate, translate, now) == Some(es[k]);
    }
  }

  /** Writing the loop's records back in order gives the catalog run saves. */
  lemma MergeSelected(pubs: Catalog, es: seq<Publication>, key: string,
                      generate: (string, string, Option<string>) -> Option<string>,
                      translate: (string, string) -> Option<(string, string)>, now: string)
    requires EnhancedEach(Filter(pubs, NeedsEnhancement), es, p => EnhancePublication(p, key, generate, translate, now))
    ensures MergeInOrder(pubs, es) == EnhanceAll(pubs, key, generate, translate, now)
  {
    SelectedEnhanced(Filter(pubs, NeedsEnhancement), es, key, generate, translate, now);
    EnhancerKeepsIdentity(key, generate, translate, now);
    MergeInOrderPlacesEach(pubs, Enhancer(key, generate, translate, now));
  }

  /** run's crash test on the records the selection skips. */
  predicate SkippedUntitled(pubs: Catalog) {
    exists k :: 0 <= k < |pubs| && IsFullyEnhanced(pubs[k]) && pubs[k].title.None?
  }

  /** An untitled record skipped by the selection is an untitled record of the catalog. */
  lemma SkippedIsUntitled(pubs: Catalog)
    requires SkippedUntitled(pubs)
    ensures !AllTitled(pubs)
  {
    var k :| 0 <= k < |pubs| && IsFullyEnhanced(pubs[k]) && pubs[k].title.None?;
  }

  /** An untitled record in the selection is an untitled record of the catalog. */
  lemma UntitledSelected(pubs: Catalog)
    requires !AllTitled(Filter(pubs, NeedsEnhancement))
    ensures !AllTitled(pubs)
  {
    var sel := Filter(pubs, NeedsEnhancement);
    var m :| 0 <= m < |sel| && sel[m].title.None?;
    FilterMembers(pubs, NeedsEnhancement);
    assert sel[m] in pubs;
  }

  /** A catalog whose selected and whose skipped records all have titles is
      fully titled. */
  lemma SelectedTitled(pubs: Catalog)
    requires AllTitled(Filter(pubs, NeedsEnhancement))
    requires !SkippedUntitled(pubs)
    ensures AllTitled(pubs)
  {
    var sel := Filter(pubs, NeedsEnhancement);
    FilterMembers(pubs, NeedsEnhancement);
    forall k | 0 <= k < |pubs| ensures pubs[k].title.Some? {
      assert pubs[k] in pubs;
      if NeedsEnhancement(pubs[k]) {
        assert pubs[k] in sel;
        var m :| 0 <= m < |sel| && sel[m] == pubs[k];
      }
    }
  }

  /** The selection is empty exactly when every record is fully enhanced, and
      it holds every untitled record that needs enhancement. */
  lemma FilterSelects(pubs: Catalog)
    ensures Filter(pubs, NeedsEnhancement) == [] <==> AllFullyEnhanced(pubs)
  {
    FilterMembers(pubs, NeedsEnhancement);
    if Filter(pubs, NeedsEnhancement) == [] {
      forall k | 0 <= k < |pubs| ensures IsFullyEnhanced(pubs[k]) {
        assert pubs[k] in pubs;
      }
    } else {
      assert Filter(pubs, NeedsEnhancement)[0] in pubs;
    }
  }

  /** A saved catalog has the loaded records in their order; fully enhanced
      records are unchanged, the others differ from their originals only in
      `summary` and `enhanced_at`. */
  lemma SavedCatalogShape(pubs: Catalog, key: string,
                          generate: (string, string, Option<string>) -> Option<string>,
                          translate: (string, string) -> Option<(string, string)>, now: string)
    requires AllTitled(pubs)
    ensures var r := EnhanceAll(pubs, key, generate, translate, now);
      |r| == |pubs| &&
      forall i :: 0 <= i < |pubs| ==>
        (IsFullyEnhanced(pubs[i]) ==> r[i] == pubs[i]) &&
        r[i].(summary := pubs[i].summary, enhanced_at := pubs[i].enhanced_at) == pubs[i] &&
        (NeedsEnhancement(pubs[i]) ==> r[i].enhanced_at == Some(now))
  {
  }

  /** A second run on the saved catalog has nothing to do. */
  lemma RerunFindsAllEnhanced(pubs: Catalog, key: string,
                              generate: (string, string, Option<string>) -> Option<string>,
                              translate: (string, string) -> Option<(string, string)>, now: string)
    requires AllTitled(pubs) && now != "" && AnswersNonEmpty(generate, translate)
    ensures var r := EnhanceAll(pubs, key, generate, translate, now);
      AllTitled(r) && forall i :: 0 <= i < |r| ==> IsFullyEnhanced(r[i])
  {
    var r := EnhanceAll(pubs, key, generate, translate, now);
    forall i | 0 <= i < |r| ensures IsFullyEnhanced(r[i]) && r[i].title.Some? {
      if NeedsEnhancement(pubs[i]) {
        EnhancedIsFullyEnhanced(pubs[i], key, generate, translate, now);
      }
    }
  }

  /** Without any API key the local server is selected, and since it is not
      one of the keys sent to a model, every abstract is a template. */
  lemma NoKeysMeansTemplates(pub: Publication, env: string -> Option<string>,
                             generate: (string, string, Option<string>) -> Option<string>,
                             translate: (string, string) -> Option<(string, string)>)
    requires pub.title.Some?
    requires !HasKey(LlmServices[0], env) && !HasKey(LlmServices[1], env) && !HasKey(LlmServices[3], env)
    ensures RunKey(env) == "ollama"
    ensures EnhancedSummary(pub, pub.title.value, RunKey(env), generate, translate) ==
            Tagged(FallbackAbstract(pub.title.value))
  {
    RunKeyWithoutKeys(env);
    OllamaIsNotLlmKey();
    var key := RunKey(env);
    assert !IsLlmKey(key);
  }

  lemma OllamaIsNotLlmKey()
    ensures !IsLlmKey("ollama")
  {
  }

  lemma RunKeyWithoutKeys(env: string -> Option<string>)
    requires !HasKey(LlmServices[0], env) && !HasKey(LlmServices[1], env) && !HasKey(LlmServices[3], env)
    ensures RunKey(env) == "ollama"
  {
    LlmServiceSelection(env);
    assert LlmServices[2].key == "ollama";
  }
}

/** The extraction stage of scripts/pdf-abstracts.js around the catalog:
    choosing the language-model service, recognising a DOI, building the
    record for a new PDF, and `processPDFs`, which appends records for the
    PDFs of the publications directory that the catalog does not name yet.
    The file system, the PDF parser, the language model and the clock are
    parameters: `content(f)` is what the extraction of file `f` returns
    (None when it failed), `info(f)` the title, journal and date suggested
    by the model, `summary(f)` the abstract it writes (None when the request
    failed), and `now` the timestamp. */
module PdfAbstracts {
  import opened Common
  import opened Catalog
  import opened PdfDates
  import opened Services

  // ---------------------------------------------------------------------------
  // Service selection
  // ---------------------------------------------------------------------------

  /** The services of the extraction stage, in declaration order. */
  const PdfServices: seq<Service> :=
    [Service("anthropic", Some("ANTHROPIC_API_KEY")), Service("openai", Some("OPENAI_API_KEY"))]

  /** detectAvailableService: the first service in order whose key is set. */
  function DetectAvailableService(services: seq<Service>, env: string -> Option<string>): (r: Option<Service>)
    ensures r.Some? ==> r.value in services && HasKey(r.value, env)
    ensures r.None? <==> forall k :: 0 <= k < |services| ==> !HasKey(services[k], env)
  {
    FirstSatisfying(services, (s: Service) => HasKey(s, env))
  }

  /** Anthropic wins whenever its key is set; OpenAI is used only without
      it; with neither key the stage stops. */
  lemma PdfServicePriority(env: string -> Option<string>)
    ensures var r := DetectAvailableService(PdfServices, env);
      (HasKey(PdfServices[0], env) ==> r == Some(PdfServices[0])) &&
      (!HasKey(PdfServices[0], env) && HasKey(PdfServices[1], env) ==> r == Some(PdfServices[1])) &&
      (!HasKey(PdfServices[0], env) && !HasKey(PdfServices[1], env) ==> r.None?)
  {
    var p := (s: Service) => HasKey(s, env);
    assert PdfServices[1..][1..] == [];
    assert FirstSatisfying(PdfServices[1..][1..], p) == None;
  }

  // ---------------------------------------------------------------------------
  // DOI extraction
  // ---------------------------------------------------------------------------

  const DoiResolver := "https://doi.org/"

  /** `doi.startsWith('10.')`. */
  predicate IsDoi(d: string) { StartsWith(d, "10.") }

  /** `match[1] || match[0]` of every match, in order. */
  function MatchTexts(ms: seq<RegexMatch>): (r: seq<string>)
    ensures |r| == |ms| && forall k :: 0 <= k < |ms| ==> r[k] == MatchText(ms[k])
  {
    seq(|ms|, k requires 0 <= k < |ms| => MatchText(ms[k]))
  }

  /** The candidates of one text: all matches of the three DOI patterns
      (`doi:`, a doi.org address, a bare `10.xxxx/` name) in pattern order;
      `matchAll(text, p)` lists the matches of pattern `p`. */
  function DoiCandidates(text: string, matchAll: (string, nat) -> seq<RegexMatch>): seq<string> {
    MatchTexts(matchAll(text, 0)) + MatchTexts(matchAll(text, 1)) + MatchTexts(matchAll(text, 2))
  }

  /** The candidates of the lines that mention "doi", in line order. */
  function LineDoiCandidates(lines: seq<string>, matchAll: (string, nat) -> seq<RegexMatch>): seq<string>
    decreases |lines|
  {
    if lines == [] then []
    else
      var last := lines[|lines| - 1];
      var here := if Contains(ToLower(last), "doi") then DoiCandidates(last, matchAll) else [];
      LineDoiCandidates(lines[..|lines| - 1], matchAll) + here
  }

  /** The candidates in search order: the "doi" lines, then the whole text. */
  function AllDoiCandidates(lines: seq<string>, fullText: string,
                            matchAll: (string, nat) -> seq<RegexMatch>): seq<string> {
    LineDoiCandidates(lines, matchAll) + DoiCandidates(fullText, matchAll)
  }

  /** extractDOI: the first candidate starting with "10.", from the "doi"
      lines first and then from the whole text, as a doi.org address. */
  function ExtractDOI(lines: seq<string>, fullText: string,
                      matchAll: (string, nat) -> seq<RegexMatch>): (r: Option<string>)
    ensures r.Some? ==> StartsWith(r.value, "https://doi.org/10.")
    ensures r.None? <==> forall k :: 0 <= k < |AllDoiCandidates(lines, fullText, matchAll)| ==>
                           !IsDoi(AllDoiCandidates(lines, fullText, matchAll)[k])
    ensures r.Some? ==> r.value[|DoiResolver|..] in AllDoiCandidates(lines, fullText, matchAll)
  {
    var hit := FirstSatisfying(AllDoiCandidates(lines, fullText, matchAll), IsDoi);
    if hit.None? then None
    else
      ResolverPrefix(hit.value);
      assert (DoiResolver + hit.value)[|DoiResolver|..] == hit.value;
      Some(DoiResolver + hit.value)
  }

  lemma ResolverPrefix(d: string)
    requires IsDoi(d)
    ensures StartsWith(DoiResolver + d, "https://doi.org/10.")
  {
    assert (DoiResolver + d)[..19] == DoiResolver + d[..3];
  }

  /** A DOI on a line that mentions "doi" wins over any DOI found only by
      the whole-text search. */
  lemma ExtractDOILinesFirst(lines: seq<string>, fullText: string, matchAll: (string, nat) -> seq<RegexMatch>)
    requires FirstSatisfying(LineDoiCandidates(lines, matchAll), IsDoi).Some?
    ensures ExtractDOI(lines, fullText, matchAll) ==
            Some(DoiResolver + FirstSatisfying(LineDoiCandidates(lines, matchAll), IsDoi).value)
  {
    FirstSatisfyingAppend(LineDoiCandidates(lines, matchAll), DoiCandidates(fullText, matchAll), IsDoi);
  }

  // ---------------------------------------------------------------------------
  // The record of a new PDF
  // ---------------------------------------------------------------------------

  /** What extractPDFContent hands to processPDFs. */
  datatype PdfContent = PdfContent(title: string, journal: string, publicationDate: string, doi: Option<string>)

  /** The fall-backs of extractPDFContent: the file's stem for a missing
      title, "Unknown Journal", the placeholder date. */
  function PdfContentOf(pdfFile: string, title: string, journal: string, date: string,
                        doi: Option<string>): (c: PdfContent)
    ensures c.doi == doi
    ensures title != "" ==> c.title == title
    ensures title == "" ==> c.title == Stem(pdfFile)
    ensures c.journal != "" && c.publicationDate != ""
  {
    PdfContent(if title != "" then title else Stem(pdfFile),
               if journal != "" then journal else "Unknown Journal",
               if date != "" then date else Placeholder,
               doi)
  }

  /** A source PDF always gets a non-empty title, and the date search never
      leaves the placeholder fall-back anything to do. */
  lemma PdfContentFallbacks(pdfFile: string, title: string, journal: string,
                            lines: seq<string>, family: nat -> seq<string>,
                            matchAt: (string, nat) -> Option<RegexMatch>, doi: Option<string>)
    requires IsSourcePdf(pdfFile)
    ensures var date := ExtractPublicationDateEnhanced(lines, pdfFile, family, matchAt);
      var c := PdfContentOf(pdfFile, title, journal, date, doi);
      c.title != "" && c.publicationDate == date && IsMonthDate(date)
  {
    var date := ExtractPublicationDateEnhanced(lines, pdfFile, family, matchAt);
    EnhancedDateShape(lines, pdfFile, family, matchAt);
    if |pdfFile| > 4 {
      assert |Stem(pdfFile)| == |pdfFile| - 4;
    } else {
      assert Stem(pdfFile) == pdfFile;
    }
  }

  /** Both date searches yield `YYYY-MM-01` dates. */
  lemma EnhancedDateShape(lines: seq<string>, pdfFile: string, family: nat -> seq<string>,
                          matchAt: (string, nat) -> Option<RegexMatch>)
    ensures IsMonthDate(ExtractPublicationDateEnhanced(lines, pdfFile, family, matchAt))
  {
    match FirstSatisfying(EnhancedHits(family), NotPlaceholder)
    case Some(d) => FormatDateShape(d);
    case None => ExtractPublicationDateYear(lines, pdfFile, matchAt);
  }

  /** The title, journal and date the language model suggests; each may be
      missing. */
  datatype EnhancedInfo = EnhancedInfo(title: Option<string>, journal: Option<string>, publicationDate: Option<string>)

  /** `x || fallback`. */
  function OrElse(o: Option<string>, fallback: string): (r: string)
    ensures Truthy(o) ==> r == o.value
    ensures !Truthy(o) ==> r == fallback
  {
    if Truthy(o) then o.value else fallback
  }

  /** The record processPDFs writes for a new PDF. */
  function NewRecord(pdfFile: string, c: PdfContent, info: EnhancedInfo, summary: string, now: string): Publication {
    var date := OrElse(info.publicationDate, c.publicationDate);
    Publication(
      date := Some(date),
      title := Some(OrElse(info.title, c.title)),
      journal := Some(OrElse(info.journal, c.journal)),
      link := Some(if Truthy(c.doi) then c.doi.value else "./publications/" + pdfFile),
      citations := Some(0),
      summary := Some(Summary(Some(summary), Some(KoreanTag + summary), Some(FrenchTag + summary))),
      thumbnail := Some("./publications/" + BareStem(pdfFile) + ".png"),
      fetched_at := Some(now),
      enhanced_at := Some(now),
      pdf_file := Some(pdfFile),
      formatted_date := Some(FormatDateForDisplay(date)),
      citations_updated_at := None,
      citations_last_checked := None)
  }

  /** A new record names its file, starts at zero citations, has its title
      and journal set, and counts as fully enhanced for the enhancement
      stage exactly when the abstract and the timestamp are non-empty. */
  lemma NewRecordShape(pdfFile: string, c: PdfContent, info: EnhancedInfo, summary: string, now: string)
    requires c.title != "" && c.journal != ""
    ensures var p := NewRecord(pdfFile, c, info, summary, now);
      p.pdf_file == Some(pdfFile) && CitationsOrZero(p) == 0 &&
      Truthy(p.title) && Truthy(p.journal) && Truthy(p.link) &&
      (IsFullyEnhanced(p) <==> summary != "" && now != "")
  {
    var p := NewRecord(pdfFile, c, info, summary, now);
    assert SummaryKo(p) == Some(KoreanTag + summary);
    assert SummaryFr(p) == Some(FrenchTag + summary);
    assert |KoreanTag + summary| > 0 && |FrenchTag + summary| > 0;
  }

  // ---------------------------------------------------------------------------
  // processPDFs
  // ---------------------------------------------------------------------------

  /** isPDFAlreadyProcessed: some record names the file as its `pdf_file`. */
  predicate IsPDFAlreadyProcessed(pdfFile: string, existing: Catalog) {
    Catalogs(existing, pdfFile)
  }

  /** The directory files processPDFs works on: source PDFs no record names. */
  function NewPdfFiles(existing: Catalog, dirFiles: seq<string>): (r: seq<string>)
    ensures forall k :: 0 <= k < |r| ==> r[k] in dirFiles && IsSourcePdf(r[k]) && !IsPDFAlreadyProcessed(r[k], existing)
    ensures forall f :: f in dirFiles && IsSourcePdf(f) && !IsPDFAlreadyProcessed(f, existing) ==> f in r
  {
    var unprocessed := (f: string) => !IsPDFAlreadyProcessed(f, existing);
    FilterMembers(dirFiles, IsSourcePdf);
    FilterMembers(Filter(dirFiles, IsSourcePdf), unprocessed);
    Filter(Filter(dirFiles, IsSourcePdf), unprocessed)
  }

  /** The record for one file, or None when its extraction or its abstract
      failed and the file is skipped. */
  function FileRecord(f: string, content: string -> Option<PdfContent>, info: string -> EnhancedInfo,
                      summary: string -> Option<string>, now: string): Option<Publication>
  {
    if content(f).None? || summary(f).None? then None
    else Some(NewRecord(f, content(f).value, info(f), summary(f).value, now))
  }

  /** The records for a list of files, in file order. */
  function NewRecords(files: seq<string>, content: string -> Option<PdfContent>, info: string -> EnhancedInfo,
                      summary: string -> Option<string>, now: string): seq<Publication>
    decreases |files|
  {
    if files == [] then []
    else
      var r := FileRecord(files[|files| - 1], content, info, summary, now);
      NewRecords(files[..|files| - 1], content, info, summary, now) + (if r.Some? then [r.value] else [])
  }

  datatype ProcessOutcome = NoService | AllProcessed | Saved(catalog: Catalog)

  /** processPDFs. The fail-safe that aborts on an already cataloged file
      cannot fire: the file list has been filtered by the same test. */
  method ProcessPDFs(env: string -> Option<string>, existing: Catalog, dirFiles: seq<string>,
                     content: string -> Option<PdfContent>, info: string -> EnhancedInfo,
                     summary: string -> Option<string>, now: string)
    returns (outcome: ProcessOutcome)
    ensures DetectAvailableService(PdfServices, env).None? ==> outcome == NoService
    ensures DetectAvailableService(PdfServices, env).Some? && NewPdfFiles(existing, dirFiles) == [] ==>
      outcome == AllProcessed
    ensures DetectAvailableService(PdfServices, env).Some? && NewPdfFiles(existing, dirFiles) != [] ==>
      outcome == Saved(existing + NewRecords(NewPdfFiles(existing, dirFiles), content, info, summary, now))
  {
    var service := DetectAvailableService(PdfServices, env);
    if service.None? {
      return NoService;
    }
    var newFiles := Filter(Filter(dirFiles, IsSourcePdf), (f: string) => !IsPDFAlreadyProcessed(f, existing));
    if newFiles == [] {
      return AllProcessed;
    }
    var newPublications: seq<Publication> := [];
    for i := 0 to |newFiles|
      invariant newPublications == NewRecords(newFiles[..i], content, info, summary, now)
    {
      var pdfFile := newFiles[i];
      if IsPDFAlreadyProcessed(pdfFile, existing) {
        assert false;
      }
      assert newFiles[..i + 1][..i] == newFiles[..i];
      var c := content(pdfFile);
      if c.Some? {
        var s := summary(pdfFile);
        if s.Some? {
          newPublications := newPublications + [NewRecord(pdfFile, c.value, info(pdfFile), s.value, now)];
        }
      }
    }
    assert newFiles[..|newFiles|] == newFiles;
    outcome := Saved(existing + newPublications);
  }

  /** Every new record is for a listed file and names it. */
  lemma {:induction false} NewRecordsFiles(files: seq<string>, content: string -> Option<PdfContent>,
                                           info: string -> EnhancedInfo, summary: string -> Option<string>, now: string)
    ensures var rs := NewRecords(files, content, info, summary, now);
      |rs| <= |files| && forall k :: 0 <= k < |rs| ==> rs[k].pdf_file.Some? && rs[k].pdf_file.value in files
    decreases |files|
  {
    if files != [] {
      var init := files[..|files| - 1];
      NewRecordsFiles(init, content, info, summary, now);
      assert forall f :: f in init ==> f in files;
    }
  }

  /** The `pdf_file` values of a catalog are pairwise distinct. */
  predicate DistinctPdfFiles(c: Catalog) {
    forall i, j :: 0 <= i < j < |c| && c[i].pdf_file.Some? ==> c[i].pdf_file != c[j].pdf_file
  }

  predicate Distinct(s: seq<string>) {
    forall i, j :: 0 <= i < j < |s| ==> s[i] != s[j]
  }

  lemma {:induction false} FilterDistinct(s: seq<string>, p: string -> bool)
    requires Distinct(s)
    ensures Distinct(Filter(s, p))
    decreases |s|
  {
    if s != [] {
      var init := s[..|s| - 1];
      assert Distinct(init);
      FilterDistinct(init, p);
      FilterMembers(init, p);
      assert s[|s| - 1] !in init;
    }
  }

  lemma {:induction false} NewRecordsDistinct(files: seq<string>, content: string -> Option<PdfContent>,
                                              info: string -> EnhancedInfo, summary: string -> Option<string>, now: string)
    requires Distinct(files)
    ensures DistinctPdfFiles(NewRecords(files, content, info, summary, now))
    decreases |files|
  {
    if files != [] {
      var init := files[..|files| - 1];
      assert Distinct(init);
      NewRecordsDistinct(init, content, info, summary, now);
      NewRecordsFiles(init, content, info, summary, now);
      assert files[|files| - 1] !in init;
    }
  }

  /** Saving appends: the existing records keep their order and content,
      the new ones follow in directory order, and each new record is for a
      source PDF of the directory that no existing record names. */
  lemma SavedCatalog(existing: Catalog, dirFiles: seq<string>, content: string -> Option<PdfContent>,
                     info: string -> EnhancedInfo, summary: string -> Option<string>, now: string)
    ensures var saved := existing + NewRecords(NewPdfFiles(existing, dirFiles), content, info, summary, now);
      saved[..|existing|] == existing &&
      forall k :: |existing| <= k < |saved| ==>
        saved[k].pdf_file.Some? && saved[k].pdf_file.value in dirFiles && IsSourcePdf(saved[k].pdf_file.value) &&
        !IsPDFAlreadyProcessed(saved[k].pdf_file.value, existing)
  {
    var files := NewPdfFiles(existing, dirFiles);
    var rs := NewRecords(files, content, info, summary, now);
    NewRecordsFiles(files, content, info, summary, now);
    var saved := existing + rs;
    forall k | |existing| <= k < |saved|
      ensures saved[k].pdf_file.Some? && saved[k].pdf_file.value in dirFiles && IsSourcePdf(saved[k].pdf_file.value) &&
              !IsPDFAlreadyProcessed(saved[k].pdf_file.value, existing)
    {
      assert saved[k] == rs[k - |existing|];
      var f := rs[k - |existing|].pdf_file.value;
      var m :| 0 <= m < |files| && files[m] == f;
    }
  }

  /** Given a catalog without repeated `pdf_file` values and a directory
      listing without repeated names, the saved catalog repeats no
      `pdf_file` either. */
  lemma SavedDistinct(existing: Catalog, dirFiles: seq<string>, content: string -> Option<PdfContent>,
                      info: string -> EnhancedInfo, summary: string -> Option<string>, now: string)
    requires DistinctPdfFiles(existing) && Distinct(dirFiles)
    ensures DistinctPdfFiles(existing + NewRecords(NewPdfFiles(existing, dirFiles), content, info, summary, now))
  {
    var files := NewPdfFiles(existing, dirFiles);
    var rs := NewRecords(files, content, info, summary, now);
    FilterDistinct(dirFiles, IsSourcePdf);
    FilterDistinct(Filter(dirFiles, IsSourcePdf), (f: string) => !IsPDFAlreadyProcessed(f, existing));
    NewRecordsDistinct(files, content, info, summary, now);
    SavedCatalog(existing, dirFiles, content, info, summary, now);
    var saved := existing + rs;
    forall i, j | 0 <= i < j < |saved| && saved[i].pdf_file.Some?
      ensures saved[i].pdf_file != saved[j].pdf_file
    {
      if j < |existing| {
        assert saved[i] == existing[i] && saved[j] == existing[j];
      } else if i >= |existing| {
        assert saved[i] == rs[i - |existing|] && saved[j] == rs[j - |existing|];
      } else {
        assert saved[i] == existing[i];
        assert !IsPDFAlreadyProcessed(saved[j].pdf_file.value, existing);
      }
    }
  }

  /** Every listed file whose extraction and abstract succeed gets a
      record. */
  lemma {:induction false} NewRecordsCover(files: seq<string>, content: string -> Option<PdfContent>,
                                           info: string -> EnhancedInfo, summary: string -> Option<string>, now: string,
                                           f: string)
    requires f in files && FileRecord(f, content, info, summary, now).Some?
    ensures Catalogs(NewRecords(files, content, info, summary, now), f)
    decreases |files|
  {
    var init := files[..|files| - 1];
    var last := FileRecord(files[|files| - 1], content, info, summary, now);
    var front := NewRecords(init, content, info, summary, now);
    var rs := NewRecords(files, content, info, summary, now);
    assert rs == front + (if last.Some? then [last.value] else []);
    if f == files[|files| - 1] {
      assert last.value.pdf_file == Some(f);
      assert rs[|rs| - 1] == last.value;
    } else {
      assert f in init;
      NewRecordsCover(init, content, info, summary, now, f);
      var k :| 0 <= k < |front| && front[k].pdf_file == Some(f);
      assert rs[k] == front[k];
    }
  }

  /** Running the stage again on the saved catalog finds nothing to do when
      every new file was processed successfully the first time. */
  lemma RerunFindsNothing(existing: Catalog, dirFiles: seq<string>, content: string -> Option<PdfContent>,
                          info: string -> EnhancedInfo, summary: string -> Option<string>, now: string)
    requires forall f :: f in NewPdfFiles(existing, dirFiles) ==> FileRecord(f, content, info, summary, now).Some?
    ensures var saved := existing + NewRecords(NewPdfFiles(existing, dirFiles), content, info, summary, now);
      NewPdfFiles(saved, dirFiles) == []
  {
    var files := NewPdfFiles(existing, dirFiles);
    var rs := NewRecords(files, content, info, summary, now);
    var saved := existing + rs;
    FilterMembers(dirFiles, IsSourcePdf);
    forall f | f in Filter(dirFiles, IsSourcePdf) ensures !(!IsPDFAlreadyProcessed(f, saved)) {
      if IsPDFAlreadyProcessed(f, existing) {
        var k :| 0 <= k < |existing| && existing[k].pdf_file == Some(f);
        assert saved[k] == existing[k];
      } else {
        assert f in files;
        NewRecordsCover(files, content, info, summary, now, f);
        var k :| 0 <= k < |rs| && rs[k].pdf_file == Some(f);
        assert saved[|existing| + k] == rs[k];
      }
    }
    FilterNone(Filter(dirFiles, IsSourcePdf), (f: string) => !IsPDFAlreadyProcessed(f, saved));
  }
}

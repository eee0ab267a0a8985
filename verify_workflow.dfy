/** The workflow verifier (docs/verify-workflow.js): three read-only checks
    of the catalog against the publications directory (PDF coverage,
    enhancement status, field integrity) and the report that combines
    them. The catalog file and the directory listing are inputs; console
    output is reduced to the values it reports. */
module VerifyWorkflow {
  import opened Common
  import opened Catalog
  import PdfAbstracts

  /** loadPublications: the parsed catalog, or `[]` when the file cannot be
      read or parsed. */
  function LoadPublications(file: Option<Catalog>): (pubs: Catalog)
    ensures file.None? ==> pubs == []
    ensures file.Some? ==> pubs == file.value
  {
    if file.Some? then file.value else []
  }

  /** getPDFFiles: the directory entries that are source PDFs, in listing
      order. */
  function PdfFiles(listing: seq<string>): (files: seq<string>)
    ensures forall f :: f in files <==> f in listing && IsSourcePdf(f)
  {
    FilterMembers(listing, IsSourcePdf);
    Filter(listing, IsSourcePdf)
  }

  // ---------------------------------------------------------------------------
  // verifyPDFCoverage
  // ---------------------------------------------------------------------------

  /** No record names `f` as its `pdf_file`. */
  function Uncatalogued(pubs: Catalog): string -> bool {
    (f: string) => !Catalogs(pubs, f)
  }

  /** `missingPDFs`: the PDF files, in directory order, that no record
      names. */
  function MissingPdfs(pubs: Catalog, pdfFiles: seq<string>): (r: seq<string>)
    ensures |r| <= |pdfFiles|
    ensures forall f :: f in r <==> f in pdfFiles && !Catalogs(pubs, f)
  {
    FilterMembers(pdfFiles, Uncatalogued(pubs));
    Filter(pdfFiles, Uncatalogued(pubs))
  }

  /** The record names a file (truthy `pdf_file`) that is not a PDF of the
      directory. */
  predicate NamesExtra(p: Publication, pdfFiles: seq<string>) {
    Truthy(p.pdf_file) && p.pdf_file.value !in pdfFiles
  }

  /** `extraPublications`: in record order, the truthy `pdf_file` values that
      are not among the PDF files. */
  function ExtraPdfs(pubs: Catalog, pdfFiles: seq<string>): (r: seq<string>)
    ensures |r| <= |pubs|
    ensures forall k :: 0 <= k < |r| ==> r[k] != "" && r[k] !in pdfFiles && Catalogs(pubs, r[k])
    ensures forall j :: 0 <= j < |pubs| && NamesExtra(pubs[j], pdfFiles) ==> pubs[j].pdf_file.value in r
    decreases |pubs|
  {
    if pubs == [] then []
    else
      var init := pubs[..|pubs| - 1];
      var p := pubs[|pubs| - 1];
      var r := ExtraPdfs(init, pdfFiles) + (if NamesExtra(p, pdfFiles) then [p.pdf_file.value] else []);
      assert forall j :: 0 <= j < |init| ==> init[j] == pubs[j];
      assert forall f :: Catalogs(init, f) ==> Catalogs(pubs, f);
      r
  }

  lemma ExtraPdfsSnoc(pubs: Catalog, i: nat, pdfFiles: seq<string>)
    requires i < |pubs|
    ensures ExtraPdfs(pubs[..i + 1], pdfFiles) ==
            ExtraPdfs(pubs[..i], pdfFiles) + (if NamesExtra(pubs[i], pdfFiles) then [pubs[i].pdf_file.value] else [])
  {
    assert pubs[..i + 1][..i] == pubs[..i];
  }

  /** verifyPDFCoverage: both lists, each built by a loop. */
  method VerifyPdfCoverage(pubs: Catalog, pdfFiles: seq<string>) returns (missing: seq<string>, extra: seq<string>)
    ensures missing == MissingPdfs(pubs, pdfFiles)
    ensures extra == ExtraPdfs(pubs, pdfFiles)
  {
    missing := [];
    for i := 0 to |pdfFiles|
      invariant missing == Filter(pdfFiles[..i], Uncatalogued(pubs))
    {
      var found := Catalogs(pubs, pdfFiles[i]);
      if !found {
        missing := missing + [pdfFiles[i]];
      }
      FilterPrefixStep(pdfFiles, i, Uncatalogued(pubs));
    }
    assert pdfFiles[..|pdfFiles|] == pdfFiles;
    extra := [];
    for i := 0 to |pubs|
      invariant extra == ExtraPdfs(pubs[..i], pdfFiles)
    {
      if Truthy(pubs[i].pdf_file) && pubs[i].pdf_file.value !in pdfFiles {
        extra := extra + [pubs[i].pdf_file.value];
      }
      ExtraPdfsSnoc(pubs, i, pdfFiles);
    }
    assert pubs[..|pubs|] == pubs;
  }

  /** The coverage check and the extraction stage agree on what is left to
      do: `missingPDFs` is exactly the list of files processPDFs would
      extract, since both use the same directory filter and the same
      "some record names it" test. */
  lemma MissingIsExtractorWork(pubs: Catalog, listing: seq<string>)
    ensures MissingPdfs(pubs, PdfFiles(listing)) == PdfAbstracts.NewPdfFiles(pubs, listing)
  {
    FilterAgree(Filter(listing, IsSourcePdf), Uncatalogued(pubs),
                (f: string) => !PdfAbstracts.IsPDFAlreadyProcessed(f, pubs));
  }

  /** After an extraction run in which every new file succeeded, the
      coverage check reports no missing PDF. */
  lemma CoveredAfterExtraction(existing: Catalog, listing: seq<string>,
                               content: string -> Option<PdfAbstracts.PdfContent>,
                               info: string -> PdfAbstracts.EnhancedInfo, summary: string -> Option<string>, now: string)
    requires forall f :: f in PdfAbstracts.NewPdfFiles(existing, listing) ==>
      PdfAbstracts.FileRecord(f, content, info, summary, now).Some?
    ensures var saved := existing + PdfAbstracts.NewRecords(PdfAbstracts.NewPdfFiles(existing, listing), content, info, summary, now);
      MissingPdfs(saved, PdfFiles(listing)) == []
  {
    var saved := existing + PdfAbstracts.NewRecords(PdfAbstracts.NewPdfFiles(existing, listing), content, info, summary, now);
    PdfAbstracts.RerunFindsNothing(existing, listing, content, info, summary, now);
    MissingIsExtractorWork(saved, listing);
  }

  // ---------------------------------------------------------------------------
  // verifyEnhancementStatus
  // ---------------------------------------------------------------------------

  function EnhancedTest(): Publication -> bool {
    (p: Publication) => IsFullyEnhanced(p)
  }

  function UnenhancedTest(): Publication -> bool {
    (p: Publication) => !IsFullyEnhanced(p)
  }

  /** Listing the unenhanced titles calls `title.substring` on each: a record
      without a title that is not enhanced makes it throw. */
  predicate ListingThrows(pubs: Catalog) {
    exists k :: 0 <= k < |pubs| && !IsFullyEnhanced(pubs[k]) && pubs[k].title.None?
  }

  lemma ListingThrowsSnoc(pubs: Catalog, i: nat)
    requires i < |pubs|
    ensures ListingThrows(pubs[..i + 1]) <==> ListingThrows(pubs[..i]) || (!IsFullyEnhanced(pubs[i]) && pubs[i].title.None?)
  {
    assert forall k :: 0 <= k < i ==> pubs[..i + 1][k] == pubs[..i][k];
    assert pubs[..i + 1][i] == pubs[i];
  }

  datatype EnhancementStatus = Status(enhanced: nat, unenhanced: nat) | ListingFailed

  /** verifyEnhancementStatus: every record goes to exactly one of the two
      lists. */
  method VerifyEnhancementStatus(pubs: Catalog) returns (r: EnhancementStatus)
    ensures r.ListingFailed? <==> ListingThrows(pubs)
    ensures r.Status? ==> r.enhanced == CountWhere(pubs, EnhancedTest()) &&
                          r.unenhanced == CountWhere(pubs, UnenhancedTest()) &&
                          r.enhanced + r.unenhanced == |pubs|
  {
    var enhanced, unenhanced := 0, 0;
    var untitled := false;
    for i := 0 to |pubs|
      invariant enhanced == CountWhere(pubs[..i], EnhancedTest())
      invariant unenhanced == CountWhere(pubs[..i], UnenhancedTest())
      invariant untitled <==> ListingThrows(pubs[..i])
    {
      var pub := pubs[i];
      if IsFullyEnhanced(pub) {
        enhanced := enhanced + 1;
      } else {
        unenhanced := unenhanced + 1;
        if pub.title.None? {
          untitled := true;
        }
      }
      CountWhereSnoc(pubs, i, EnhancedTest());
      CountWhereSnoc(pubs, i, UnenhancedTest());
      ListingThrowsSnoc(pubs, i);
    }
    assert pubs[..|pubs|] == pubs;
    if untitled {
      return ListingFailed;
    }
    CountWhereComplement(pubs, EnhancedTest(), UnenhancedTest());
    return Status(enhanced, unenhanced);
  }

  // ---------------------------------------------------------------------------
  // verifyDataIntegrity
  // ---------------------------------------------------------------------------

  /** The kinds of issue messages, in the order they are pushed for one
      record. */
  datatype IssueKind =
    | MissingTitle | MissingJournal | MissingDate | MissingPdfFile
    | MissingEnglish | MissingKorean | MissingFrench

  /** An issue message: its kind and the position of the record. */
  datatype Issue = Issue(kind: IssueKind, at: nat)

  /** The condition under which a record gets an issue of a kind: a falsy
      required field, or a falsy abstract in a record with `enhanced_at`. */
  predicate Lacks(p: Publication, kind: IssueKind) {
    match kind
    case MissingTitle => !Truthy(p.title)
    case MissingJournal => !Truthy(p.journal)
    case MissingDate => !Truthy(p.date)
    case MissingPdfFile => !Truthy(p.pdf_file)
    case MissingEnglish => Truthy(p.enhanced_at) && !Truthy(SummaryEn(p))
    case MissingKorean => Truthy(p.enhanced_at) && !Truthy(SummaryKo(p))
    case MissingFrench => Truthy(p.enhanced_at) && !Truthy(SummaryFr(p))
  }

  function IssueIf(c: bool, kind: IssueKind, at: nat): seq<Issue> {
    if c then [Issue(kind, at)] else []
  }

  /** The messages for the four required fields. */
  function FieldIssues(p: Publication, at: nat): seq<Issue> {
    IssueIf(!Truthy(p.title), MissingTitle, at) +
    IssueIf(!Truthy(p.journal), MissingJournal, at) +
    IssueIf(!Truthy(p.date), MissingDate, at) +
    IssueIf(!Truthy(p.pdf_file), MissingPdfFile, at)
  }

  /** The messages for the three abstracts of an enhanced record. */
  function TranslationIssues(p: Publication, at: nat): seq<Issue> {
    if Truthy(p.enhanced_at) then
      IssueIf(!Truthy(SummaryEn(p)), MissingEnglish, at) +
      IssueIf(!Truthy(SummaryKo(p)), MissingKorean, at) +
      IssueIf(!Truthy(SummaryFr(p)), MissingFrench, at)
    else []
  }

  /** The messages the loop body pushes for record `at`, in order. */
  function RecordIssues(p: Publication, at: nat): seq<Issue> {
    FieldIssues(p, at) + TranslationIssues(p, at)
  }

  /** The record gets an issue of a kind exactly when it lacks what the
      kind checks. */
  lemma RecordIssuesIff(p: Publication, at: nat, kind: IssueKind)
    ensures Issue(kind, at) in RecordIssues(p, at) <==> Lacks(p, kind)
  {
    assert Issue(kind, at) in FieldIssues(p, at) <==>
      (kind.MissingTitle? || kind.MissingJournal? || kind.MissingDate? || kind.MissingPdfFile?) && Lacks(p, kind);
    assert Issue(kind, at) in TranslationIssues(p, at) <==>
      (kind.MissingEnglish? || kind.MissingKorean? || kind.MissingFrench?) && Lacks(p, kind);
  }

  /** Every message of a record carries its position. */
  lemma RecordIssuesAt(p: Publication, at: nat)
    ensures forall x :: x in RecordIssues(p, at) ==> x.at == at
  {
    assert forall x :: x in FieldIssues(p, at) ==> x.at == at;
    assert forall x :: x in TranslationIssues(p, at) ==> x.at == at;
  }

  /** `issues` after the loop over the records. */
  function IntegrityIssues(pubs: Catalog): seq<Issue>
    decreases |pubs|
  {
    if pubs == [] then []
    else IntegrityIssues(pubs[..|pubs| - 1]) + RecordIssues(pubs[|pubs| - 1], |pubs| - 1)
  }

  /** verifyDataIntegrity: the loop appends the messages of each record. */
  method VerifyDataIntegrity(pubs: Catalog) returns (issues: seq<Issue>)
    ensures issues == IntegrityIssues(pubs)
  {
    issues := [];
    for i := 0 to |pubs|
      invariant issues == IntegrityIssues(pubs[..i])
    {
      issues := issues + RecordIssues(pubs[i], i);
      assert pubs[..i + 1][..i] == pubs[..i];
    }
    assert pubs[..|pubs|] == pubs;
  }

  /** An issue is reported for a record and a kind exactly when the record
      lacks what that kind checks. */
  lemma {:induction false} IntegrityIssuesIff(pubs: Catalog, kind: IssueKind, at: nat)
    ensures Issue(kind, at) in IntegrityIssues(pubs) <==> at < |pubs| && Lacks(pubs[at], kind)
    decreases |pubs|
  {
    if pubs != [] {
      var init := pubs[..|pubs| - 1];
      IntegrityIssuesIff(init, kind, at);
      RecordIssuesIff(pubs[|pubs| - 1], |pubs| - 1, kind);
      RecordIssuesAt(pubs[|pubs| - 1], |pubs| - 1);
      assert IntegrityIssues(pubs) == IntegrityIssues(init) + RecordIssues(pubs[|pubs| - 1], |pubs| - 1);
      if at < |init| {
        assert init[at] == pubs[at];
      }
    }
  }

  /** The record has every required field and, when enhanced, every
      abstract. */
  predicate IsComplete(p: Publication) {
    Truthy(p.title) && Truthy(p.journal) && Truthy(p.date) && Truthy(p.pdf_file) &&
    (Truthy(p.enhanced_at) ==> Truthy(SummaryEn(p)) && Truthy(SummaryKo(p)) && Truthy(SummaryFr(p)))
  }

  /** No issue is reported exactly when every record is complete. */
  lemma NoIssuesIff(pubs: Catalog)
    ensures IntegrityIssues(pubs) == [] <==> forall k :: 0 <= k < |pubs| ==> IsComplete(pubs[k])
  {
    if IntegrityIssues(pubs) != [] {
      var i := IntegrityIssues(pubs)[0];
      IntegrityIssuesIff(pubs, i.kind, i.at);
      assert !IsComplete(pubs[i.at]) by {
        match i.kind
        case _ =>
      }
    } else {
      forall k | 0 <= k < |pubs| ensures IsComplete(pubs[k]) {
        IntegrityIssuesIff(pubs, MissingTitle, k);
        IntegrityIssuesIff(pubs, MissingJournal, k);
        IntegrityIssuesIff(pubs, MissingDate, k);
        IntegrityIssuesIff(pubs, MissingPdfFile, k);
        IntegrityIssuesIff(pubs, MissingEnglish, k);
        IntegrityIssuesIff(pubs, MissingKorean, k);
        IntegrityIssuesIff(pubs, MissingFrench, k);
      }
    }
  }

  // ---------------------------------------------------------------------------
  // generateReport
  // ---------------------------------------------------------------------------

  datatype Report =
    | NoPublicationsDir
    | EnhancementListingFailed
    | Report(missingPdfs: seq<string>, extraPdfs: seq<string>, enhanced: nat, unenhanced: nat,
             issues: seq<Issue>, optimal: bool, maximumEfficiency: bool, operationsNeeded: nat)

  /** The summary decision: OPTIMAL when nothing is missing, unenhanced or
      inconsistent. */
  predicate IsOptimal(missing: seq<string>, unenhanced: nat, issues: seq<Issue>) {
    |missing| == 0 && unenhanced == 0 && |issues| == 0
  }

  /** generateReport. `listing` is None when the publications directory
      cannot be read, which makes getPDFFiles throw before anything is
      reported; each check reads the same catalog file. */
  method GenerateReport(file: Option<Catalog>, listing: Option<seq<string>>) returns (r: Report)
    ensures listing.None? ==> r == NoPublicationsDir
    ensures listing.Some? && ListingThrows(LoadPublications(file)) ==> r == EnhancementListingFailed
    ensures listing.Some? && !ListingThrows(LoadPublications(file)) ==>
      r.Report? &&
      r.missingPdfs == MissingPdfs(LoadPublications(file), PdfFiles(listing.value)) &&
      r.extraPdfs == ExtraPdfs(LoadPublications(file), PdfFiles(listing.value)) &&
      r.enhanced == CountWhere(LoadPublications(file), EnhancedTest()) &&
      r.unenhanced == CountWhere(LoadPublications(file), UnenhancedTest()) &&
      r.issues == IntegrityIssues(LoadPublications(file))
    ensures r.Report? ==> r.enhanced + r.unenhanced == |LoadPublications(file)|
    ensures r.Report? ==> (r.optimal <==> IsOptimal(r.missingPdfs, r.unenhanced, r.issues))
    ensures r.Report? ==> (r.maximumEfficiency <==> r.operationsNeeded == 0)
    ensures r.Report? ==> r.operationsNeeded == |r.missingPdfs| + r.unenhanced
  {
    if listing.None? {
      return NoPublicationsDir;
    }
    var pdfFiles := PdfFiles(listing.value);
    var missing, extra := VerifyPdfCoverage(LoadPublications(file), pdfFiles);
    var status := VerifyEnhancementStatus(LoadPublications(file));
    if status.ListingFailed? {
      return EnhancementListingFailed;
    }
    var issues := VerifyDataIntegrity(LoadPublications(file));
    var optimal := |missing| == 0 && status.unenhanced == 0 && |issues| == 0;
    var maximum := |missing| == 0 && status.unenhanced == 0;
    return Report(missing, extra, status.enhanced, status.unenhanced, issues, optimal, maximum,
                  |missing| + status.unenhanced);
  }

  /** OPTIMAL means: every source PDF of the directory is catalogued, every
      record is fully enhanced, and every record is complete. */
  lemma OptimalMeans(pubs: Catalog, listing: seq<string>)
    ensures IsOptimal(MissingPdfs(pubs, PdfFiles(listing)), CountWhere(pubs, UnenhancedTest()), IntegrityIssues(pubs)) <==>
      (forall f :: f in listing && IsSourcePdf(f) ==> Catalogs(pubs, f)) &&
      (forall k :: 0 <= k < |pubs| ==> IsFullyEnhanced(pubs[k])) &&
      (forall k :: 0 <= k < |pubs| ==> IsComplete(pubs[k]))
  {
    NoIssuesIff(pubs);
    var missing := MissingPdfs(pubs, PdfFiles(listing));
    assert |missing| == 0 <==> forall f :: f in listing && IsSourcePdf(f) ==> Catalogs(pubs, f) by {
      if |missing| != 0 {
        assert missing[0] in missing;
      }
    }
  }
}

/** The catalog `data/publications.json`: a JSON array of publication records
    whose fields are optional strings, an optional citation count and two
    optional nested objects. JavaScript truthiness on a string field means
    "present and non-empty". */
module Catalog {
  import opened Common

  /** The `summary` object: one abstract per site language. */
  datatype Summary = Summary(en: Option<string>, ko: Option<string>, fr: Option<string>)

  /** The `formatted_date` object written by the extraction stage. */
  datatype Localized = Localized(en: string, ko: string, fr: string)

  datatype Publication = Publication(
    date: Option<string>,
    title: Option<string>,
    journal: Option<string>,
    link: Option<string>,
    citations: Option<int>,
    summary: Option<Summary>,
    thumbnail: Option<string>,
    fetched_at: Option<string>,
    enhanced_at: Option<string>,
    pdf_file: Option<string>,
    formatted_date: Option<Localized>,
    citations_updated_at: Option<string>,
    citations_last_checked: Option<string>)

  type Catalog = seq<Publication>

  /** JavaScript truthiness of an optional string field. */
  predicate Truthy(o: Option<string>) { o.Some? && o.value != "" }

  /** `field || ''`. */
  function OrEmpty(o: Option<string>): (r: string)
    ensures Truthy(o) ==> r == o.value
    ensures !Truthy(o) ==> r == ""
  {
    if o.Some? then o.value else ""
  }

  /** `pub.summary?.en`, `pub.summary?.ko`, `pub.summary?.fr`. */
  function SummaryEn(p: Publication): Option<string> {
    if p.summary.Some? then p.summary.value.en else None
  }

  function SummaryKo(p: Publication): Option<string> {
    if p.summary.Some? then p.summary.value.ko else None
  }

  function SummaryFr(p: Publication): Option<string> {
    if p.summary.Some? then p.summary.value.fr else None
  }

  /** The "already enhanced" test shared by the enhancement stage and the
      workflow verifier: all three abstracts and `enhanced_at` are truthy. */
  predicate IsFullyEnhanced(p: Publication) {
    Truthy(SummaryEn(p)) && Truthy(SummaryKo(p)) && Truthy(SummaryFr(p)) && Truthy(p.enhanced_at)
  }

  /** `publication.citations || 0`: a missing count and a zero count both read as 0. */
  function CitationsOrZero(p: Publication): (r: int)
    ensures p.citations.Some? && p.citations.value != 0 ==> r == p.citations.value
    ensures p.citations.None? ==> r == 0
  {
    if p.citations.Some? then p.citations.value else 0
  }

  /** The directory filter used by both the extractor and the verifier: a
      name ending in `.pdf` that does not contain `_correction`. */
  predicate IsSourcePdf(name: string) {
    EndsWith(name, ".pdf") && !Contains(name, "_correction")
  }

  /** Node's `path.basename(dir + '/' + file, '.pdf')`, the base name of a
      file inside a directory: the suffix is removed only when something is
      left of the last path component in front of it. */
  function Stem(file: string): (r: string)
    ensures EndsWith(file, ".pdf") && |file| > 4 ==> r + ".pdf" == file
    ensures !(EndsWith(file, ".pdf") && |file| > 4) ==> r == file
  {
    if EndsWith(file, ".pdf") && |file| > 4 then file[..|file| - 4] else file
  }

  /** Node's `path.basename(name, '.pdf')` for a bare file name: a name that
      ends in the suffix loses it, so the name `.pdf` itself becomes empty. */
  function BareStem(name: string): (r: string)
    ensures EndsWith(name, ".pdf") ==> r + ".pdf" == name
    ensures !EndsWith(name, ".pdf") ==> r == name
  {
    if EndsWith(name, ".pdf") then name[..|name| - 4] else name
  }

  /** The two base names agree except on the file named `.pdf` alone. */
  lemma StemsAgree(file: string)
    ensures file != ".pdf" ==> BareStem(file) == Stem(file)
    ensures BareStem(".pdf") == "" && Stem(".pdf") == ".pdf"
  {
    if EndsWith(file, ".pdf") && |file| == 4 {
      assert file == file[|file| - 4..];
    }
    assert ".pdf"[4 - 4..] == ".pdf";
  }

  /** The prefixes of the Korean and French abstracts written when no
      translation is available: the English text behind a language tag. */
  const KoreanTag := "[\U{D55C}\U{AD6D}\U{C5B4}] "
  const FrenchTag := "[Fran\U{E7}ais] "

  /** Every record has a `title`: the scripts that read `publication.title`
      as a string fail on the first record without one. */
  predicate AllTitled(pubs: Catalog) {
    forall k :: 0 <= k < |pubs| ==> pubs[k].title.Some?
  }

  /** The `pdf_file` names that occur in a catalog. */
  predicate Catalogs(pubs: Catalog, file: string) {
    exists k :: 0 <= k < |pubs| && pubs[k].pdf_file == Some(file)
  }
}

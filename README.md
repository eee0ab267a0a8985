# Publication catalog pipeline, modelled in Dafny

The site keeps its publication list in `data/publications.json`, a JSON array of
publication records. A handful of offline scripts maintain it:

- **Extraction stage** (`scripts/pdf-abstracts.js`). Turns new PDFs in `publications/` into records: a
  title, a date, a DOI link and an abstract. It skips files that are already
  catalogued and appends the new records after the existing ones.
- **Enhancement stage** (`scripts/llm-abstracts.js`). Picks a language-model service, rewrites the
  summaries of every record that is not yet fully enhanced (English, Korean,
  French and `enhanced_at`) and writes the records back.
- **Citation updaters** (`scripts/scholar-citation-crawler.js`, `scripts/proxy-scholar-crawler.js`,
  `scripts/gs_crawler.py`). Fetch a Google Scholar profile, match its titles against the
  local ones and rewrite the `citations` fields in place.
- **Workflow verifier** (`docs/verify-workflow.js`). Reports PDFs missing from the catalog, records
  that are not enhanced, records lacking required fields, and whether the
  pipeline is in its optimal state.

The model is split into modules:

- `Common`. The string and sequence operations the scripts use:
  - JavaScript and Python trimming, ASCII lower-casing and splitting;
  - regex-style runs and `parseInt`;
  - the `filter`, `find`, `map` and count patterns.
- `Catalog`. The record type, where JSON `null` and a missing field are both `None`. It also holds JavaScript truthiness and the shared tests: "fully enhanced", "source PDF" and `citations || 0`.
- `Services`. The language-model services and the "key is set" test.
- `PdfTitle`:
  - de-spacing of one-letter words;
  - the title score;
  - the three candidate strategies and the choice of title.
- `PdfDates`:
  - `formatDate`;
  - both date searches;
  - the display rendering in English, Korean and French.
- `PdfAbstracts`:
  - service choice;
  - DOI extraction;
  - the fall-backs of the content extraction;
  - the `processPDFs` filter and append.
- `LlmAbstracts`:
  - the duplicate check and the filter of new articles;
  - service priority;
  - the domain classifier and the template abstract;
  - `enhancePublication` and `run`.
- `ScholarCrawler`, covering both JavaScript crawlers:
  - the title matcher;
  - the in-place citation update over an `array`;
  - the retry schedule;
  - the three-method profile parser;
  - the Scholar id lookup;
  - the run.
- `ProxyCrawler`:
  - proxy line parsing;
  - the source caps and back-ups;
  - the attempt plan of the multi-method fetch: direct, then proxies, then direct retries;
  - its run.
- `GsCrawler`:
  - `normalize_title`;
  - the citation map;
  - the exact-then-fuzzy lookup;
  - the in-place update with its counters;
  - the file-level outcome.
- `VerifyWorkflow`:
  - PDF coverage;
  - enhancement status;
  - data integrity;
  - the report decision.

Code that works by steps is modelled as methods with loops: the per-record loops, the candidate collection, the score accumulation, the retry and attempt loops, and the proxy gathering. Each method is proved against a specification function, and the properties are proved about those functions as lemmas. The rewritten catalogs of the citation updaters are `array`s updated in place.

Everything outside the program is a parameter:

- the network: the Scholar page, the proxy lists, SerpAPI and the language models;
- the environment variables;
- file contents and directory listings;
- the clock, as a `now` string;
- regex matchers the model does not reproduce: the family matches of the date searches, the DOI matches and the Scholar HTML matches;
- `cleanTitle` and `difflib.get_close_matches`.

## Model

| member | source | states |
|---|---|---|
| Common.MatchText | scripts/pdf-abstracts.js:1384 | `match[1] \|\| match[0]`: the group when it is non-empty, otherwise the whole match |
| Common.ToLower | scripts/llm-abstracts.js:104 | same length; every character is lower-cased position by position |
| Common.ToLowerIdempotent | scripts/llm-abstracts.js:104 | lower-casing twice is lower-casing once |
| Common.TrimJs | scripts/llm-abstracts.js:105 | `trim()`: never longer, only input characters, and no JavaScript white space at either end |
| Common.TrimPy | scripts/gs_crawler.py:39 | `strip()`: no Python white space at either end, never longer than the input |
| Common.CollapseFrom | scripts/llm-abstracts.js:107 | `replace(/\s+/g, ' ')`: only input characters or ' ' appear in the result |
| Common.CollapseShape | scripts/llm-abstracts.js:107 | after collapsing, every white-space character is ' ' and no two spaces are adjacent |
| Common.ReplaceOther | scripts/llm-abstracts.js:106 | `replace(/[^\w\s]/g, r)`: every kept character is in the class or is the replacement; a one-character replacement keeps the length |
| Common.Split | scripts/pdf-abstracts.js:343 | `split(sep)`: at least one piece, and no piece contains the separator |
| Common.JoinSplit | scripts/pdf-abstracts.js:343-372 | joining the pieces of a split with the separator gives back the string |
| Common.SplitJoin | scripts/pdf-abstracts.js:343-372 | splitting a join of separator-free words gives back the words |
| Common.FirstSatisfying | scripts/llm-abstracts.js:1035 | `find`: the first element satisfying the test, or none exactly when no element does |
| Common.Filter | scripts/pdf-abstracts.js:795-802 | `filter`: never longer than the input, and every kept element satisfies the test |
| Common.FilterMembers | scripts/pdf-abstracts.js:795-802 | every kept element comes from the input, and every satisfying element of the input is kept |
| Common.FilterAppend | scripts/pdf-abstracts.js:896 | filtering a concatenation is the concatenation of the filtered parts |
| Common.CountWhere | docs/verify-workflow.js:83-105 | a count never above the length, zero exactly when no element satisfies the test |
| Common.CountWhereComplement | docs/verify-workflow.js:83-105 | counts of a test and of its negation add up to the length |
| Common.ParseIntOfDigits | scripts/scholar-citation-crawler.js:166 | `parseInt` of a non-empty digit string is its decimal value |
| Common.ParseIntHexPrefixed | scripts/proxy-scholar-crawler.js:62 | `parseInt` without a radix reads a text starting "0x" or "0X" as hexadecimal, NaN when no hexadecimal digit follows |
| Common.ParseIntHex | scripts/proxy-scholar-crawler.js:62 | `parseInt("0x50")` is 80 |
| Common.ParseIntOfNatToString | scripts/proxy-scholar-crawler.js:62 | `parseInt` reads back the decimal text of every natural number |
| Common.PrefixedRun | scripts/scholar-citation-crawler.js:263 | the regex `prefix([class]+)`: a non-empty run of class characters, none exactly when no position matches |
| Common.PrefixedRunOccurs | scripts/scholar-citation-crawler.js:263 | the captured run occurs in the text right after the prefix |
| Catalog.OrEmpty | scripts/llm-abstracts.js:110-111 | `field \|\| ''`: the value when truthy, otherwise '' |
| Catalog.CitationsOrZero | scripts/scholar-citation-crawler.js:318 | `citations \|\| 0`: a missing count reads as 0, a non-zero count as itself |
| Catalog.Stem | scripts/pdf-abstracts.js:115 | `path.basename(pdfPath, '.pdf')` of a file inside a directory: the suffix is removed when something of the last component precedes it, otherwise the name is kept |
| Catalog.BareStem | scripts/pdf-abstracts.js:874 | `path.basename(pdfFile, '.pdf')` of a bare file name: a name ending in `.pdf` loses the suffix, so `.pdf` itself becomes '' |
| Catalog.StemsAgree | scripts/pdf-abstracts.js:874 | the bare-name and in-directory base names agree on every name except `.pdf`, where they give '' and `.pdf` |
| PdfTitle.SingleRunLen | scripts/pdf-abstracts.js:355-358 | the look-ahead length: the maximal run of one-character words at the front |
| PdfTitle.FixWords | scripts/pdf-abstracts.js:346-370 | the de-spaced word list is empty exactly when the input is, never longer, and keeps a leading longer word |
| PdfTitle.GatherSingles | scripts/pdf-abstracts.js:350-358 | the look-ahead gathers exactly the maximal run of one-character words and glues them |
| PdfTitle.FixWordList | scripts/pdf-abstracts.js:346-370 | the word loop, with its `i = j - 1` skip, computes the de-spaced word list |
| PdfTitle.FixSpacedText | scripts/pdf-abstracts.js:338-373 | `fixSpacedText` is split on ' ', de-spacing, join with ' ' |
| PdfTitle.FixWordsRunStep | scripts/pdf-abstracts.js:361-363 | a run of two or more one-character words becomes one glued word |
| PdfTitle.FixWordsKeepStep | scripts/pdf-abstracts.js:364-369 | a word that does not start such a run is kept as it is |
| PdfTitle.FixWordsConcat | scripts/pdf-abstracts.js:346-370 | the concatenation of the words is unchanged by de-spacing |
| PdfTitle.FixWordsNoAdjacent | scripts/pdf-abstracts.js:346-370 | the output never has two neighbouring one-character words |
| PdfTitle.FixWordsFixpoint | scripts/pdf-abstracts.js:346-370 | a word list without neighbouring one-character words is left alone |
| PdfTitle.FixWordsUnchangedIff | scripts/pdf-abstracts.js:346-370 | the word list changes exactly when it has neighbouring one-character words |
| PdfTitle.DeSpacedWords | scripts/pdf-abstracts.js:343-372 | the output words contain no ' ' and there is at least one |
| PdfTitle.DeSpacedKeepsNonSpace | scripts/pdf-abstracts.js:338-373 | deleting every ' ' from input and from output gives the same string |
| PdfTitle.DeSpacedIdempotent | scripts/pdf-abstracts.js:338-373 | de-spacing twice equals de-spacing once |
| PdfTitle.FixWordsAllSingles | scripts/pdf-abstracts.js:346-370 | two or more one-character words become a single word |
| PdfTitle.DeSpacedAllSingles | scripts/pdf-abstracts.js:338-373 | "e s t i m a t i n g" becomes the text with its spaces removed |
| PdfTitle.PositionBonus | scripts/pdf-abstracts.js:300 | `max(0, 50 - position * 2)` lies in 0..50 |
| PdfTitle.LengthBonus | scripts/pdf-abstracts.js:303-304 | both length bonuses (+30) exactly for 50..150, none exactly outside 30..200 |
| PdfTitle.CountInAtMost | scripts/pdf-abstracts.js:310-323 | each vocabulary list adds at most one bonus per word |
| PdfTitle.CountChars | scripts/pdf-abstracts.js:332 | `(text.match(/\d/g) \|\| []).length` is at most the text length |
| PdfTitle.CalculateTitleScore | scripts/pdf-abstracts.js:296-336 | the accumulated score equals the term-by-term score, with `> 0.3 * length` read as `10 * count > 3 * length` |
| PdfTitle.WordPoints | scripts/pdf-abstracts.js:311-323 | a word-list loop adds its weight once for every listed word the lower-cased text contains |
| PdfTitle.TitleScoreEarlierNotLower | scripts/pdf-abstracts.js:300 | for equal text an earlier position never scores lower; the difference is the position term alone |
| PdfTitle.TitleScoreBounds | scripts/pdf-abstracts.js:296-336 | every score lies between -50 and 188 |
| PdfTitle.CleanLines | scripts/pdf-abstracts.js:135 | the cleaned lines are non-empty and never more than the input lines |
| PdfTitle.LinePrefix | scripts/pdf-abstracts.js:188-193 | the part of a line that `.` can run over: a prefix without line terminators |
| PdfTitle.LineCandidatesShape | scripts/pdf-abstracts.js:199-238 | each candidate of a line scan is a line inside the scanned range that passes the scan's test, scored at its own position |
| PdfTitle.Strategy1Shape | scripts/pdf-abstracts.js:199-238 | every strategy-1 candidate is a cleaned line among the first 30 that passes all tests, scored at its position |
| PdfTitle.Strategy2Shape | scripts/pdf-abstracts.js:241-258 | every strategy-2 candidate joins two neighbouring lines with ' ', passes the tests and gets +10 |
| PdfTitle.PairCandidatesShape | scripts/pdf-abstracts.js:241-258 | each candidate of a pair scan joins lines k and k+1 with ' ', passes the scan's test and is scored at position k |
| PdfTitle.Strategy3InnerShape | scripts/pdf-abstracts.js:266-275 | the lines after a keyword line are the next four lines of length 31..249, each with +5 |
| PdfTitle.Strategy3Shape | scripts/pdf-abstracts.js:262-277 | every strategy-3 candidate follows, within four lines, a keyword line among the first 20 |
| PdfTitle.CollectStrategy1 | scripts/pdf-abstracts.js:199-238 | the first loop pushes exactly the strategy-1 candidates |
| PdfTitle.CollectLines | scripts/pdf-abstracts.js:266-275 | the scan loop shared by strategies 1 and 3 pushes exactly the lines of its range that pass its test, with the calculated score plus the bonus |
| PdfTitle.CollectStrategy2 | scripts/pdf-abstracts.js:241-258 | the second loop pushes exactly the strategy-2 candidates |
| PdfTitle.CollectLinePairs | scripts/pdf-abstracts.js:241-258 | the pair loop pushes exactly the neighbouring pairs below its bound that pass its test, with the calculated score plus the bonus |
| PdfTitle.CollectAfterKeyword | scripts/pdf-abstracts.js:266-275 | the inner loop pushes exactly the candidates after one keyword line |
| PdfTitle.CollectStrategy3 | scripts/pdf-abstracts.js:262-277 | the third loop pushes exactly the strategy-3 candidates |
| PdfTitle.SelectBest | scripts/pdf-abstracts.js:280 | the candidate a stable descending sort puts first: highest score, earliest among equals |
| PdfTitle.ExtractTitle | scripts/pdf-abstracts.js:133-294 | '' without candidates; otherwise the cleaned best candidate, de-spaced when it still holds a lone "a", "i" or "o" |
| PdfDates.FirstFourDigits | scripts/pdf-abstracts.js:570 | the leftmost position of four digits, none exactly when there is none |
| PdfDates.YearMatch | scripts/pdf-abstracts.js:570 | a found year is four digits |
| PdfDates.WordMatch | scripts/pdf-abstracts.js:574 | `/[a-zA-Z]+/`: a non-empty run of letters, none exactly when the text has no letter |
| PdfDates.TwoDigits | scripts/pdf-abstracts.js:561-568 | the two-digit month code reads back as its month |
| PdfDates.MonthOf | scripts/pdf-abstracts.js:574-577 | the month read from a phrase is always one of 1..12 |
| PdfDates.FormatDateShape | scripts/pdf-abstracts.js:560-582 | always `YYYY-MM-01`; the year is the first four digits and the month comes from the first word; '2024-01-01' without a year |
| PdfDates.FormatDateOfPhrase | scripts/pdf-abstracts.js:560-582 | "15 July 2021" style phrases give year-month-01 from their year and their word |
| PdfDates.YearOfPhrase | scripts/pdf-abstracts.js:570-573 | in a day-word-year phrase the year found is the phrase's year |
| PdfDates.WordOfPhrase | scripts/pdf-abstracts.js:574 | in a day-word-year phrase the first word found is the phrase's word |
| PdfDates.FormatDateAsWritten | scripts/pdf-abstracts.js:560-582 | the code as written agrees with the corrected table on every word other than "constructor" |
| PdfDates.FormatDateAsWrittenConstructor | scripts/pdf-abstracts.js:577 | "1 constructor 2021" puts the text of `Object` in the month slot, which is no month date |
| PdfDates.AsWrittenOnConstructor | scripts/pdf-abstracts.js:577 | every phrase whose first word is "constructor" leaves the `YYYY-MM-01` shape |
| PdfDates.ExtractPublicationDateYear | scripts/pdf-abstracts.js:524-558 | with the month table of the corrected `formatDate`, the text search always yields a `20YY-MM-01` date, of 2020..2024 when a line phrase was accepted |
| PdfDates.InWindowDate | scripts/pdf-abstracts.js:543-544 | with the corrected month table, a phrase whose year is in 2020..2024 is formatted to a date of that window |
| PdfDates.FileNameDateShape | scripts/pdf-abstracts.js:551-557 | the file-name fall-back is January 1st of a 20xx year |
| PdfDates.ExtractPublicationDateEarlierLine | scripts/pdf-abstracts.js:535-548 | an in-window phrase in an earlier line wins over later lines and the file name |
| PdfDates.ExtractPublicationDateFromFileName | scripts/pdf-abstracts.js:550-557 | with no in-window phrase: the first 20xx of the file stem as `YYYY-01-01`, else '2024-01-01' |
| PdfDates.EnhancedFamilyPriority | scripts/pdf-abstracts.js:1201-1227 | a non-placeholder hit of a higher-priority family beats every hit of lower families |
| PdfDates.January2024Rejected | scripts/pdf-abstracts.js:1222 | a genuine January 2024 phrase formats to the placeholder and is passed over |
| PdfDates.EnhancedPlaceholderFromFallback | scripts/pdf-abstracts.js:1217-1229 | the placeholder comes only from the older search, after every family hit formatted to it |
| PdfDates.MonthName | scripts/pdf-abstracts.js:1169-1176 | `names[parseInt(month) - 1]`: the name for months 1..12, "undefined" otherwise |
| PdfDates.DisplayYearOnly | scripts/pdf-abstracts.js:1186-1192 | a missing month or month "01" shows the year alone in all three languages |
| PdfDates.DisplayKoIsDotted | scripts/pdf-abstracts.js:1175 | with month and day, the Korean form is the date with '-' replaced by '.' |
| PdfDates.DisplayOfTwoParts | scripts/pdf-abstracts.js:1178-1185 | a month other than January without a day is "Month YYYY" / "YYYY.MM" / "Mois YYYY" |
| PdfDates.DisplayOfThreeParts | scripts/pdf-abstracts.js:1171-1177 | a full date is "Month D, YYYY" / "YYYY.MM.DD" / "D Mois YYYY" |
| PdfDates.FormatDateParts | scripts/pdf-abstracts.js:578 | a formatted date splits into its year, its month code and "01" |
| PdfDates.DisplayOfFormatDate | scripts/pdf-abstracts.js:1153-1194 | dates written by formatDate are shown with day 1, or as the year in January |
| PdfDates.ParseTwoDigits | scripts/pdf-abstracts.js:1169 | `parseInt` reads each month code back as its month |
| PdfDates.MonthTablesAgree | scripts/pdf-abstracts.js:1160-1166 | the display tables name month n at code n |
| PdfAbstracts.DetectAvailableService | scripts/pdf-abstracts.js:52-67 | the first service whose key is set, or none exactly when no key is set |
| PdfAbstracts.PdfServicePriority | scripts/pdf-abstracts.js:13-26 | Anthropic whenever its key is set, OpenAI only without it, none without both |
| PdfAbstracts.MatchTexts | scripts/pdf-abstracts.js:1383-1384 | each match contributes `match[1] \|\| match[0]`, in order |
| PdfAbstracts.ExtractDOI | scripts/pdf-abstracts.js:1367-1408 | null exactly when no candidate starts "10."; otherwise a doi.org address of a candidate, starting "https://doi.org/10." |
| PdfAbstracts.ExtractDOILinesFirst | scripts/pdf-abstracts.js:1378-1392 | a DOI on a line mentioning "doi" wins over anything found only in the full text |
| PdfAbstracts.ResolverPrefix | scripts/pdf-abstracts.js:1387 | the resolver address of a DOI starts "https://doi.org/10." |
| PdfAbstracts.PdfContentOf | scripts/pdf-abstracts.js:114-126 | empty title replaced by the file stem; journal and date never empty; DOI carried over |
| PdfAbstracts.PdfContentFallbacks | scripts/pdf-abstracts.js:84-117 | a source PDF always gets a non-empty title, and a `YYYY-MM-01` date under the corrected month table |
| PdfAbstracts.EnhancedDateShape | scripts/pdf-abstracts.js:1197-1230 | under the corrected month table, the enhanced search always yields a `YYYY-MM-01` date |
| PdfAbstracts.OrElse | scripts/pdf-abstracts.js:852-854 | `x \|\| fallback`: the value when truthy, the fallback otherwise |
| PdfAbstracts.NewRecordShape | scripts/pdf-abstracts.js:863-879 | a new record names its file, starts at 0 citations, has a title, journal and link, and is fully enhanced iff its abstract and time are non-empty |
| PdfAbstracts.NewPdfFiles | scripts/pdf-abstracts.js:791-802 | exactly the listed source PDFs that no record names as `pdf_file` |
| PdfAbstracts.ProcessPDFs | scripts/pdf-abstracts.js:775-910 | no service: nothing; nothing new: nothing; otherwise the catalog saved as existing records followed by the new ones |
| PdfAbstracts.NewRecordsFiles | scripts/pdf-abstracts.js:813-893 | every new record is for a listed file and names it |
| PdfAbstracts.NewRecordsDistinct | scripts/pdf-abstracts.js:813-893 | distinct files give records with distinct `pdf_file` values |
| PdfAbstracts.SavedCatalog | scripts/pdf-abstracts.js:896-900 | the saved list keeps the existing records in order; each added record names a listed, uncatalogued source PDF |
| PdfAbstracts.SavedDistinct | scripts/pdf-abstracts.js:896-900 | with a duplicate-free catalog and listing, no `pdf_file` is duplicated after saving |
| PdfAbstracts.NewRecordsCover | scripts/pdf-abstracts.js:839-881 | every file whose extraction succeeds gets a record |
| PdfAbstracts.RerunFindsNothing | scripts/pdf-abstracts.js:795-809 | a second run on the saved catalog has no new files when every extraction succeeded |
| LlmAbstracts.NormalizeText | scripts/llm-abstracts.js:103-108 | the normal form holds only lower-case word characters and white space |
| LlmAbstracts.NormalizeIgnoresCase | scripts/llm-abstracts.js:103-108 | normalising ignores ASCII case |
| LlmAbstracts.ArticleAlreadyExistsIff | scripts/llm-abstracts.js:101-120 | true exactly when some record matches on normalised title and normalised journal |
| LlmAbstracts.ArticleAlreadyExistsSelf | scripts/llm-abstracts.js:110-118 | a record stored in normal form is found |
| LlmAbstracts.ArticleAlreadyExistsAppend | scripts/llm-abstracts.js:113-119 | present in a joined catalog iff present in one of its parts |
| LlmAbstracts.FilterNewArticlesOnly | scripts/llm-abstracts.js:122-144 | the articles not already present, in order; skipped = input - kept; an untitled article ends the run |
| LlmAbstracts.FilterAgainKeepsNothing | scripts/llm-abstracts.js:122-144 | after adding the kept articles, filtering again keeps nothing |
| LlmAbstracts.Available | scripts/llm-abstracts.js:152-162 | every entry has priority 1 or 2, and priority 1 exactly when its key is set |
| LlmAbstracts.SelectService | scripts/llm-abstracts.js:165-169 | none exactly for an empty list; otherwise the first entry of lowest priority |
| LlmAbstracts.DetectAvailableService | scripts/llm-abstracts.js:146-170 | the list loop and sort select what the specification selects |
| LlmAbstracts.FirstOfLowestPriority | scripts/llm-abstracts.js:165-169 | the sort-and-take-first computes the first entry of lowest priority |
| LlmAbstracts.FirstLowestUnique | scripts/llm-abstracts.js:165 | the position the stable sort puts first is unique |
| LlmAbstracts.LlmServiceSelection | scripts/llm-abstracts.js:25-50 | with the fixed table: Anthropic, then OpenAI, then Groq by key, and Ollama when none is set |
| LlmAbstracts.TableSelection | scripts/llm-abstracts.js:152-169 | the same order for any four-service table with a keyless local server third |
| LlmAbstracts.SelectFirstOne | scripts/llm-abstracts.js:165-169 | the first entry of priority 1 is selected |
| LlmAbstracts.DomainOfTitle | scripts/llm-abstracts.js:842-856 | the domain depends on the lower-cased title; "covid" means epidemiology; general exactly when no keyword occurs |
| LlmAbstracts.FallbackAbstractShape | scripts/llm-abstracts.js:817-832 | the template of the title's domain, with the lower-cased title between its head and tail |
| LlmAbstracts.EnhancedSummary | scripts/llm-abstracts.js:884-921 | all three languages present; a non-model key gives the template with tagged copies; otherwise tagged copies or a delivered translation |
| LlmAbstracts.EnhancePublication | scripts/llm-abstracts.js:858-944 | none exactly for an untitled record; every other field kept; `enhanced_at` is the time and a summary is set |
| LlmAbstracts.EnhancedIsFullyEnhanced | scripts/llm-abstracts.js:923-927 | an enhanced record passes the fully-enhanced test |
| LlmAbstracts.EnhancedSummaryNonEmpty | scripts/llm-abstracts.js:913-920 | with non-empty answers, all three abstracts are non-empty |
| LlmAbstracts.SelectKey | scripts/llm-abstracts.js:965-1021 | the key handed on is the selected service's |
| LlmAbstracts.MapRecords | scripts/llm-abstracts.js:1034 | `map`: same length, each record passed through |
| LlmAbstracts.EnhancerKeepsIdentity | scripts/llm-abstracts.js:923-942 | per-record enhancement returns fully enhanced records unchanged and keeps every record's title and `pdf_file` |
| LlmAbstracts.MergeByTitleAsWritten | scripts/llm-abstracts.js:1034-1037 | the merge by title keeps the list length |
| LlmAbstracts.MergeByTitleDuplicate | scripts/llm-abstracts.js:1035 | two selected records sharing a title: the second is overwritten by the first one's enhanced form |
| LlmAbstracts.MergeInOrderPlacesEach | scripts/llm-abstracts.js:1034-1037 | writing each enhanced record back in place of its own original gives the per-record result |
| LlmAbstracts.MergeByTitleAgrees | scripts/llm-abstracts.js:1034-1037 | with distinct titles the merge by title equals the in-place merge |
| LlmAbstracts.MergeByTitleAt | scripts/llm-abstracts.js:1035-1036 | with distinct titles each position holds its own record's result |
| LlmAbstracts.FindsOwnTitle | scripts/llm-abstracts.js:1035 | a selected record finds its own enhanced form by title |
| LlmAbstracts.MissesOwnTitle | scripts/llm-abstracts.js:1036 | a skipped record finds nothing and is kept |
| LlmAbstracts.TitleMatchIsOwn | scripts/llm-abstracts.js:1035 | with distinct titles only the record's own enhanced form bears its title |
| LlmAbstracts.Run | scripts/llm-abstracts.js:952-1053 | empty catalog: nothing; untitled record: failure; all enhanced: nothing saved; otherwise, with the corrected in-order merge, every record needing it is enhanced in place |
| LlmAbstracts.RunLoaded | scripts/llm-abstracts.js:977-1040 | for a loaded catalog: an untitled record means failure; nothing selected means nothing saved; otherwise the catalog enhanced by the corrected in-order merge is saved |
| LlmAbstracts.EnhanceAndSave | scripts/llm-abstracts.js:999-1040 | failure exactly when some record lacks a title; otherwise, with the corrected in-order merge, the catalog with every selected record enhanced in place |
| LlmAbstracts.EnhanceSelected | scripts/llm-abstracts.js:1001-1031 | the loop enhances each selected record in order, stopping at the first untitled one; the fail-safe cannot fire |
| LlmAbstracts.SelectedEnhanced | scripts/llm-abstracts.js:1001-1031 | the records the loop collects are the enhanced forms of the selection |
| LlmAbstracts.MergeSelected | scripts/llm-abstracts.js:1034-1040 | writing the loop's records back with the corrected in-order merge gives the catalog that is saved |
| LlmAbstracts.UntitledSelected | scripts/llm-abstracts.js:977-989 | an untitled selected record is an untitled catalog record |
| LlmAbstracts.SelectedTitled | scripts/llm-abstracts.js:977-989 | titled selected and skipped records make a titled catalog |
| LlmAbstracts.FilterSelects | scripts/llm-abstracts.js:977-994 | the selection is empty exactly when every record is fully enhanced |
| LlmAbstracts.SavedCatalogShape | scripts/llm-abstracts.js:1034-1040 | with the corrected in-order merge: same length and order; fully enhanced records unchanged; others differ only in summary and a new `enhanced_at` |
| LlmAbstracts.RerunFindsAllEnhanced | scripts/llm-abstracts.js:977-994 | after a run every record is fully enhanced, so a second run has nothing to do |
| LlmAbstracts.NoKeysMeansTemplates | scripts/llm-abstracts.js:877-921 | without any key Ollama is chosen and every record gets the tagged template abstract |
| LlmAbstracts.RunKeyWithoutKeys | scripts/llm-abstracts.js:152-169 | without any key the key handed on is "ollama" |
| ScholarCrawler.NormalizeForMatchShape | scripts/scholar-citation-crawler.js:221-226 | the normal form has only lower-case word characters and single inner spaces, trimmed |
| ScholarCrawler.NormalFormFixed | scripts/scholar-citation-crawler.js:221-226 | a string already in normal form is unchanged |
| ScholarCrawler.NormalizeForMatchIdempotent | scripts/scholar-citation-crawler.js:221-226 | normalising twice equals normalising once |
| ScholarCrawler.MatchTitleSymmetric | scripts/scholar-citation-crawler.js:219-242 | `matchTitle(a, b)` iff `matchTitle(b, a)` |
| ScholarCrawler.MatchTitleReflexive | scripts/scholar-citation-crawler.js:232 | every title matches itself |
| ScholarCrawler.EmptyNormalMatchesAll | scripts/scholar-citation-crawler.js:235 | a title normalising to "" matches every title |
| ScholarCrawler.MatchTitleNormalized | scripts/scholar-citation-crawler.js:228-229 | matching ignores case and prior normalisation |
| ScholarCrawler.FindMatch | scripts/scholar-citation-crawler.js:316-331 | the scan stops at the first profile entry, in order, that matches |
| ScholarCrawler.UpdatedRecord | scripts/scholar-citation-crawler.js:312-336 | only citation fields change; first match: its count and the time; no match: `citations \|\| 0` |
| ScholarCrawler.UpdatedCatalog | scripts/scholar-citation-crawler.js:312-337 | same length; each record differs only in its citation fields, which are set |
| ScholarCrawler.UpdatedCatalogSnoc | scripts/scholar-citation-crawler.js:312-337 | the catalog update proceeds record by record |
| ScholarCrawler.UpdateCitations | scripts/scholar-citation-crawler.js:311-337 | in place: all titled gives the updated catalog and the changed count; otherwise the prefix before the first untitled record is updated |
| ScholarCrawler.UpdateStep | scripts/scholar-citation-crawler.js:312-337 | one step of the in-place loop extends the updated prefix |
| ScholarCrawler.RewriteRecord | scripts/scholar-citation-crawler.js:313-336 | the loop body rewrites one record and reports whether its count changed |
| ScholarCrawler.RerunChangesNothing | scripts/scholar-citation-crawler.js:311-337 | updating again with the same profile changes nothing and counts 0 |
| ScholarCrawler.Pow2 | scripts/scholar-citation-crawler.js:77 | `2^n` is at least 1, and at least 2 for n >= 1 |
| ScholarCrawler.Pow2Monotone | scripts/scholar-citation-crawler.js:77 | `2^n` grows with n |
| ScholarCrawler.WaitTime | scripts/scholar-citation-crawler.js:76-80 | every wait before a retry is 10..30 seconds |
| ScholarCrawler.WaitTimeSchedule | scripts/scholar-citation-crawler.js:77 | waits never shrink: 10 s, 20 s, then 30 s from the fourth attempt |
| ScholarCrawler.RetryWaits | scripts/scholar-citation-crawler.js:72-80 | every attempt after the first is preceded by its wait |
| ScholarCrawler.FetchScholarProfile | scripts/scholar-citation-crawler.js:71-150 | at most `maxRetries` attempts; the first success's page, or '' when every attempt failed |
| ScholarCrawler.CollectPairs | scripts/scholar-citation-crawler.js:164-172 | the `exec` loop pushes one trimmed entry per match |
| ScholarCrawler.PairEntry | scripts/scholar-citation-crawler.js:165-166 | the title trimmed and the count as `parseInt` reads it |
| ScholarCrawler.RawEntry | scripts/scholar-citation-crawler.js:198-199 | an entry exactly when both matches succeed; count and title from the first digit run and the text after '>' |
| ScholarCrawler.PairedEntries | scripts/scholar-citation-crawler.js:196-205 | index-paired entries when every index parses, none when one throws |
| ScholarCrawler.CollectRaw | scripts/scholar-citation-crawler.js:197-205 | the method-3 loop computes the index-paired entries |
| ScholarCrawler.ParseScholarProfile | scripts/scholar-citation-crawler.js:153-216 | the parser yields the entries of the first method that finds any |
| ScholarCrawler.ProfileEntriesShape | scripts/scholar-citation-crawler.js:175-207 | method 1 when it matched, else method 2, else method 3 with equal lists; titles trimmed |
| ScholarCrawler.ProfileFallbackOrder | scripts/scholar-citation-crawler.js:175 | later methods are not consulted when an earlier one found entries |
| ScholarCrawler.OrElse | scripts/scholar-citation-crawler.js:252-253 | `a \|\| b`: truthy iff either is; a truthy `a` wins |
| ScholarCrawler.UserParam | scripts/scholar-citation-crawler.js:263-264 | `user=([^&]+)`: a non-empty id without '&', none exactly when no position matches |
| ScholarCrawler.UserParamInUrl | scripts/scholar-citation-crawler.js:263 | the id read from the URL follows "user=" in it |
| ScholarCrawler.ResolveScholarId | scripts/scholar-citation-crawler.js:252-270 | the configured id first; else the URL's user= value; missing exactly when neither is configured |
| ScholarCrawler.GiveUp | scripts/scholar-citation-crawler.js:283-289 | keep the file when it has records, exit 1 exactly when it is empty |
| ScholarCrawler.AfterFetchSaves | scripts/scholar-citation-crawler.js:276-340 | saved exactly with a page, parsed entries and titled records; only citation fields change |
| ScholarCrawler.UpdateFromPage | scripts/scholar-citation-crawler.js:277-340 | parsing, the in-place update and the save compute the specified outcome |
| ScholarCrawler.Run | scripts/scholar-citation-crawler.js:244-363 | early returns without an id; otherwise the outcome of the page the retry loop returns |
| ProxyCrawler.ParseProxyLine | scripts/proxy-scholar-crawler.js:58-64 | a kept proxy is usable, its host has no ':' and is the text before the first ':' of the trimmed line |
| ProxyCrawler.HexPortKept | scripts/proxy-scholar-crawler.js:61-64 | a line `host:0x50` is kept as the proxy on port 80 |
| ProxyCrawler.LineWithoutPortDropped | scripts/proxy-scholar-crawler.js:61-64 | a line without ':' has no port and is dropped |
| ProxyCrawler.ParseRenderedLine | scripts/proxy-scholar-crawler.js:58-64 | parsing the line `host:port` of a well-formed proxy gives the proxy back |
| ProxyCrawler.ProxiesOfLines | scripts/proxy-scholar-crawler.js:60-64 | at most one usable proxy per line |
| ProxyCrawler.ProxiesOfRenderedLines | scripts/proxy-scholar-crawler.js:58-64 | the lines of well-formed proxies parse back to the proxies |
| ProxyCrawler.ProxiesOfParsedLines | scripts/proxy-scholar-crawler.js:60-64 | lines that each parse to a proxy yield exactly those proxies, in line order |
| ProxyCrawler.ParseRenderedList | scripts/proxy-scholar-crawler.js:58-64 | a downloaded list of such lines parses back to its proxies |
| ProxyCrawler.RenderedLineShape | scripts/proxy-scholar-crawler.js:58-59 | a rendered line is non-blank and has no line break |
| ProxyCrawler.EmptyListParsesEmpty | scripts/proxy-scholar-crawler.js:58-59 | an empty download yields no proxies |
| ProxyCrawler.Take | scripts/proxy-scholar-crawler.js:78 | `slice(0, n)`: the first min(n, length) elements |
| ProxyCrawler.Gathered | scripts/proxy-scholar-crawler.js:42-82 | at most 5 proxies per source |
| ProxyCrawler.GatheredUsable | scripts/proxy-scholar-crawler.js:58-78 | every gathered proxy is usable |
| ProxyCrawler.DownloadList | scripts/proxy-scholar-crawler.js:43-81 | one source: the first 5 proxies of its list, none when its download fails |
| ProxyCrawler.GatherProxies | scripts/proxy-scholar-crawler.js:42-82 | the source loop collects the capped lists in source order |
| ProxyCrawler.GetFreeProxies | scripts/proxy-scholar-crawler.js:33-97 | the loop, the back-ups and the 15 cap compute the specified proxy list |
| ProxyCrawler.FreeProxiesShape | scripts/proxy-scholar-crawler.js:85-96 | 1..15 usable proxies; the gathered ones when any, else exactly the 5 back-ups |
| ProxyCrawler.BackupsUsable | scripts/proxy-scholar-crawler.js:86-92 | the five back-ups are usable |
| ProxyCrawler.Plan | scripts/proxy-scholar-crawler.js:168-189 | the attempt plan has 4 + min(10, proxies) routes |
| ProxyCrawler.PlanShape | scripts/proxy-scholar-crawler.js:168-189 | direct first, then the first ten proxies in order, then three direct retries |
| ProxyCrawler.PlanProxied | scripts/proxy-scholar-crawler.js:177 | attempt 1 + i goes through proxy i for i < min(10, proxies) |
| ProxyCrawler.PlanDirectTail | scripts/proxy-scholar-crawler.js:185-189 | the last three attempts are direct |
| ProxyCrawler.FirstOk | scripts/proxy-scholar-crawler.js:168-192 | the page of the first successful attempt, none exactly when every attempt fails |
| ProxyCrawler.FetchScholarProfileMultiMethod | scripts/proxy-scholar-crawler.js:161-193 | the first success in attempt order, with its attempt; null after every attempt has failed |
| ProxyCrawler.FirstOkDirect | scripts/proxy-scholar-crawler.js:169-170 | a successful direct attempt returns at once |
| ProxyCrawler.FetchAfterDirect | scripts/proxy-scholar-crawler.js:174-192 | after a failed direct attempt the proxy and retry loops find the first success |
| ProxyCrawler.FetchThroughProxies | scripts/proxy-scholar-crawler.js:176-180 | the proxy loop returns the first success among the first ten proxies, or reports that every request so far failed |
| ProxyCrawler.RetryDirect | scripts/proxy-scholar-crawler.js:183-190 | after every proxy failed, the three direct retries return the plan's first success, or null after the whole plan |
| ProxyCrawler.FirstOkSkips | scripts/proxy-scholar-crawler.js:177-189 | failed attempts are skipped |
| ProxyCrawler.FirstOkAfterFailures | scripts/proxy-scholar-crawler.js:180 | the first success after failures is what is returned |
| ProxyCrawler.Run | scripts/proxy-scholar-crawler.js:297-403 | early returns without an id; otherwise the outcome of the multi-method page, '' standing for null |
| GsCrawler.NormalizeTitleShape | scripts/gs_crawler.py:29-39 | only ' ' and lower-case word characters remain, with no space at either end |
| GsCrawler.NormalizeTitleIgnoresCase | scripts/gs_crawler.py:30 | normalising ignores ASCII case |
| GsCrawler.NormalizeTitleNotIdempotent | scripts/gs_crawler.py:33-36 | "a - b" becomes "a  b", which normalises further, so the function is not idempotent |
| GsCrawler.CountsOfKeys | scripts/gs_crawler.py:80-93 | a key is in the map exactly when some titled article normalises to it |
| GsCrawler.CountsOfLastWins | scripts/gs_crawler.py:93 | a key's count is that of the last article with that key |
| GsCrawler.KeyOrderIsDomain | scripts/gs_crawler.py:114 | `list(citation_map.keys())` holds the map's keys once each |
| GsCrawler.CollectCitations | scripts/gs_crawler.py:76-95 | the loop builds the specified map and key order |
| GsCrawler.FetchCitationMap | scripts/gs_crawler.py:41-95 | no key: error; API error: its message; otherwise the map of the returned articles |
| GsCrawler.Lookup | scripts/gs_crawler.py:126-134 | exact first; when the exact key is missing, the close match's count as fuzzy whenever the close match is a key; fuzzy only then; nothing when neither finds a key |
| GsCrawler.CheckedRecord | scripts/gs_crawler.py:119-149 | unmatched records unchanged; matched ones get the check time, and their count only when it differs |
| GsCrawler.CheckedCatalog | scripts/gs_crawler.py:119-149 | each record is checked in place |
| GsCrawler.CheckItem | scripts/gs_crawler.py:120-149 | one loop step: the rewritten record and which counters it bumps |
| GsCrawler.CheckStep | scripts/gs_crawler.py:119-149 | one step of the in-place loop extends the checked prefix |
| GsCrawler.CheckAt | scripts/gs_crawler.py:119-149 | the loop body: the record at index i becomes its checked form, every other entry unchanged, with the flags of the counters it bumps |
| GsCrawler.CheckAll | scripts/gs_crawler.py:117-149 | in place: the checked catalog and the updated, skipped and fuzzy counts |
| GsCrawler.CountersBounded | scripts/gs_crawler.py:117-149 | updated + skipped and fuzzy + skipped never exceed the number of records |
| GsCrawler.RecheckChangesNothing | scripts/gs_crawler.py:142-149 | checking again with the same map changes nothing and updates none |
| GsCrawler.UpdatePublicationsFile | scripts/gs_crawler.py:97-151 | missing file and non-list errors come before any fetch; otherwise the checked catalog with its counters |
| VerifyWorkflow.LoadPublications | docs/verify-workflow.js:19-26 | a read or parse failure gives the empty catalog |
| VerifyWorkflow.PdfFiles | docs/verify-workflow.js:28-31 | exactly the listed names ending `.pdf` without `_correction` |
| VerifyWorkflow.MissingPdfs | docs/verify-workflow.js:47-52 | exactly the PDF files no record names |
| VerifyWorkflow.ExtraPdfs | docs/verify-workflow.js:54-58 | exactly the non-empty `pdf_file` values not among the PDF files |
| VerifyWorkflow.ExtraPdfsSnoc | docs/verify-workflow.js:54-58 | the loop over records appends one name per extra record |
| VerifyWorkflow.VerifyPdfCoverage | docs/verify-workflow.js:33-73 | both loops compute the missing and the extra lists |
| VerifyWorkflow.MissingIsExtractorWork | docs/verify-workflow.js:29-30 | the missing PDFs are exactly the files the extractor would process |
| VerifyWorkflow.CoveredAfterExtraction | docs/verify-workflow.js:47-52 | after a fully successful extraction no PDF is missing |
| VerifyWorkflow.ListingThrowsSnoc | docs/verify-workflow.js:100-103 | the unenhanced listing fails at the first untitled unenhanced record |
| VerifyWorkflow.VerifyEnhancementStatus | docs/verify-workflow.js:75-106 | enhanced counts the fully enhanced records, unenhanced the rest, summing to the total; the listing failure is its own result |
| VerifyWorkflow.RecordIssuesIff | docs/verify-workflow.js:117-127 | a record yields an issue of a kind exactly when it lacks that field |
| VerifyWorkflow.RecordIssuesAt | docs/verify-workflow.js:117-127 | a record's issues name that record |
| VerifyWorkflow.VerifyDataIntegrity | docs/verify-workflow.js:108-138 | the loop collects every record's issues in order |
| VerifyWorkflow.IntegrityIssuesIff | docs/verify-workflow.js:115-128 | an issue appears exactly for a record lacking that field |
| VerifyWorkflow.NoIssuesIff | docs/verify-workflow.js:115-128 | no issues exactly when every record is complete |
| VerifyWorkflow.GenerateReport | docs/verify-workflow.js:140-178 | the three checks' results; optimal iff nothing is missing, unenhanced or at issue; operations = missing + unenhanced |
| VerifyWorkflow.OptimalMeans | docs/verify-workflow.js:151-153 | optimal exactly when every source PDF is catalogued and every record is enhanced and complete |

## Left out

- Network access is not modelled: the language-model requests, the Scholar page fetches, the proxy downloads and SerpAPI. Their answers are function parameters. So are the HTTP status handling in `fetchWithProxy` and the proxy connection mechanics: each attempt reads only success or failure.
- PDF parsing (`pdf-parse`) is not modelled: extracted content is an input.
- ProxyCrawler.Usable: keeps every non-zero port, as the source's filter does, including negative ports and ports above 65535. From Node's `http.request` such a port, like a Scholar id with a space or a non-Latin character in the request path (`scripts/scholar-citation-crawler.js:88`, `scripts/proxy-scholar-crawler.js:108`), throws at once instead of failing one attempt; the run then rejects, the error is only logged and nothing is saved. The model counts every such request as one failed attempt and goes on, so `ProxyCrawler.FetchScholarProfileMultiMethod`, `ProxyCrawler.Run`, `ScholarCrawler.FetchScholarProfile` and `ScholarCrawler.Run` do not capture that abort.
- `cleanTitle`, `extractJournal`, `extractAbstractEnhanced`, `extractQuantitativeResults`, `extractStatisticalFindings`, `extractTableResults`, `extractDateRelevantText` and `extractKeyFindings` are regex cascades. `cleanTitle` is a parameter of `PdfTitle.ExtractTitle`. `extractJournal` becomes the record's journal: its result is the `journal` input of `PdfAbstracts.PdfContentOf`, which puts "Unknown Journal" in place of an empty one. The others only feed prompt text and are left out.
- The regexes of the date searches and the Scholar HTML patterns are oracle parameters. The model gives, for each pattern, its matches in order and the groups they capture. The same holds for the three DOI patterns.
- Prompt texts, `generateAbstractWithOpenAI`/`Anthropic`, `translateAbstract`, the translation-enhancing calls and `enhanceTitleJournalAndDate` are language-model answers given as parameters. A thrown error is modelled as a missing answer.
- `difflib.get_close_matches` is an oracle. A close match that is not a key of the map never occurs with difflib, and the model treats it as no match.
- Random delays, random user agents, `setTimeout` rate limiting and `process.exit` are not modelled. An exit is an outcome value.
- The clock is a `now` parameter. One run's records share one time.
- Reading and writing files, `.env` loading and console logging are outside the model. Files are inputs and outcomes are values. The verifier's three reads of the catalog are one read.
- JSON `null` and a missing field are both `None`. `int(None)` raising for a `null` `citations` in `scripts/gs_crawler.py` is therefore not modelled.
- A catalog file whose JSON is not an array is not modelled in the JavaScript scripts.
- Lower-casing and the word-character classes are ASCII only. JavaScript `\w` is ASCII, as modelled. Python's `str.lower` and `\w` also cover other scripts, such as Korean, and the model does not (`GsCrawler.NormalizeTitleShape` and the other `GsCrawler` normalisation lemmas hold for the ASCII reading).
- The verifier's issue messages are reduced to an issue kind and the record's index.
- The proxy sources are identified by their position in the source list, not by URL.
- `extractKeywords` is not modelled: its result is never used.
- The browser files `app.js`, `assets/js/main.js` and `js/i18n.js` are not part of this model.
- Floating-point ratio tests (`count > length * 0.3`, `alpha < length * 0.6`) are modelled as the equivalent integer comparisons (`10 * count > 3 * length`, `5 * alpha < 3 * length`).
- PdfDates.ExtractPublicationDateYear: composes the corrected `formatDate` of the first finding below (`PdfDates.FormatDate`, whose month table has no inherited entries). For a phrase whose month word is "constructor" the source returns a date such as "2021-function Object() { [native code] }-01", which the model does not produce; `PdfDates.FormatDateAsWritten` models that code.
- PdfDates.InWindowDate: states the window property of the corrected `formatDate`, for the same reason.
- PdfAbstracts.PdfContentFallbacks: its `YYYY-MM-01` promise holds for the corrected `formatDate`; the source breaks it on a "constructor" month word.
- PdfAbstracts.EnhancedDateShape: its `YYYY-MM-01` promise holds for the corrected `formatDate`; the source breaks it on a "constructor" month word.
- LlmAbstracts.Run: saves the catalog of the corrected in-order merge (`LlmAbstracts.MergeInOrder`) of the second finding below. The source merges by title with `find`, and differs when two selected records share a title; `LlmAbstracts.MergeByTitleAsWritten` models that code and `LlmAbstracts.MergeByTitleAgrees` shows the two agree when titles are distinct.
- LlmAbstracts.RunLoaded: uses the corrected in-order merge, for the same reason.
- LlmAbstracts.EnhanceAndSave: uses the corrected in-order merge, for the same reason.
- LlmAbstracts.MergeSelected: states the corrected in-order merge, for the same reason.
- LlmAbstracts.SavedCatalogShape: is about the corrected in-order merge. With the source's merge by title, a record sharing its title with an earlier selected record also takes that record's `pdf_file` and other fields.
- PdfTitle.CalculateTitleScore: string lengths are counted in characters (Unicode code points), while JavaScript's `.length` counts UTF-16 code units. A text with characters outside the Basic Multilingual Plane is longer in the source than in the model, so the length bonuses and the `> 0.3 * length` digit test can differ. The same holds for `PdfTitle.TitleScore`, `PdfTitle.LengthBonus` and `PdfTitle.TitleScoreBounds`.
- PdfTitle.IsTitleLine: the 25..300 length test and the letter ratio use code points, not UTF-16 units, so the line tests of `PdfTitle.IsTwoLineTitle` and `PdfTitle.IsAfterKeywordTitle`, and the candidate results of `PdfTitle.Strategy1Shape`, `PdfTitle.Strategy2Shape`, `PdfTitle.Strategy3InnerShape`, `PdfTitle.Strategy3Shape`, the `PdfTitle.Collect*` methods and `PdfTitle.ExtractTitle`, can differ from the source on such text.
- PdfTitle.FixWords: the `word.length === 1` test is read as "one character". A single character outside the Basic Multilingual Plane has length 2 in JavaScript and is not a one-character word there. The same holds for `PdfTitle.SingleRunLen`, `PdfTitle.GatherSingles`, `PdfTitle.FixWordList` and `PdfTitle.FixSpacedText`.
- Dates keep two origins apart. The fall-back dates that `formatDate` builds from the PDF text or the file name always end in `-01`. A date the language model delivers (`enhancedInfo.publicationDate`, taken first in `PdfAbstracts.NewRecord`) keeps its own day, such as "2021-07-15", and `formatDateForDisplay` shows that day (`PdfDates.DisplayOfThreeParts`). The model's answer is a parameter, so which full dates it delivers is not modelled.

## Findings

| source | as written | input that shows it | evidently intended | confidence | as-written member | corrected member |
|---|---|---|---|---|---|---|
| scripts/pdf-abstracts.js:577 | `months[word] \|\| '01'` looks the word up on a plain object literal, so inherited properties such as `constructor` are found too | a date phrase "1 constructor 2021" gives "2021-function Object() { [native code] }-01" | a word outside the month table gives month "01" | not executed | PdfDates.FormatDateAsWrittenConstructor | PdfDates.FormatDateShape |
| scripts/llm-abstracts.js:1034-1037 | the enhanced records are merged back by title with `find`, so records sharing a title all receive the first one's enhanced form | two unenhanced records with the same title and different `pdf_file`: the second is replaced by the first's enhanced record and its own file name is lost | each record is replaced by its own enhanced form | not executed | LlmAbstracts.MergeByTitleDuplicate | LlmAbstracts.MergeInOrderPlacesEach |

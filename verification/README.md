# api-jntuh result scraper, modelled in Dafny

The api-jntuh service reads student results from the JNTUH results portal.
Its core has five parts:

- **Exam-code directory** (`executable/Codes.py`). It reads the result links on the portal's home page and files every exam code under degree, regulation and semester. Each list of codes is de-duplicated and sorted. The semesters of each regulation are sorted. Code "1690" is dropped from btech / R18 / 3-1. The directory is kept in a JSON snapshot that is trusted for 24 hours.
- **One semester, walked in order** (`executable/ResultSem.py`). The roll number is classified into degree, regulation and lateral entry. The semester's exam codes are looked up and each is requested in two variants: the regular page and the revaluation page. Pages accumulate into one result. The walk stops at the first page after which the student is identified and has passed every subject collected so far. If it runs out instead, the hall ticket is stamped invalid. Finished results are cached per (roll, semester).
- **All semesters at once** (`executable/Results.py`). Every request of every semester is issued first. The pages are then scraped in request order into a dict keyed by semester. The first failure turns the whole reply into "Failed to fetch URL".
- **One semester, gathered** (`executable/SemResult.py`). All requests are gathered together and scraped in order into a flat result.
- **Academic report** (`executable/ResultAcademic.py`). The eight semesters are each asked of a fresh one-semester scraper. The first completed reply that has details supplies them. Semesters with subjects are listed in canonical order.

## Modules

- `wrappers.dfy`: `Option` and `Result`. `Result.Raised` is a Python exception escaping a call.
- `pystr.dfy`: the Python string built-ins the code relies on: `find`, `in`, clamped slicing, `int()` and string order.
- `sorting.dfy`: `sorted`, the list filter, and duplicate-freedom.
- `directory.dfy`: the directory's shape. The semester dict is an association list, because its key order is observable.
- `roll.dfy`: roll-number classification.
- `pages.dfy`: the shared pieces of the scrapers:
  - the request list;
  - the details table and the identity check;
  - the two ways of reading a results row;
  - the fold of rows into a subject dict.
- `codes.dfy`, `result_sem.dfy`, `results.dfy`, `sem_result.dfy`, `result_academic.dfy`: one module per source file.

## How the outside world appears

- **Network.** The network is a parameter `fetch: Request -> Response`. A response is `Unreachable` or `Answer(ok, body)`. `ok` means status 200, and the body is `None` when empty. Each source file turns a response into a page in its own way, and each module models its own mapping.
- **HTML.** A parsed page is either the portal's "no result" form, or markup listed as tables of rows. Each row holds its cells' texts and its bold texts. A page that is not HTML, such as the text "Failed to fetch URL", is markup without tables. Every index error on a missing table, row or cell is a `Raised` (or `None`) outcome.
- **The home page.** It arrives as one table of rows per degree. Each row holds its first link's `href` (absent when the lookup raises) and its text.
- **Time and the snapshot file.** The clock readings are real-valued parameters. The file's state is a `SnapshotFile` value.
- **Completion order.** The order in which the eight threads of the academic report complete is a parameter, constrained to be a permutation of the semesters.

## Model

| member | source | states |
|---|---|---|
| PyStr.Find | executable/Codes.py:16 | `find` answers an occurrence of the pattern, and no earlier index holds one; -1 exactly when there is none |
| PyStr.ContainsIff | executable/Codes.py:35 | substring `in` holds exactly when the pattern occurs at some index, and exactly when `find` is not -1 |
| PyStr.ContainsFromIff | executable/Codes.py:35 | the recursive scan from index k succeeds exactly when the pattern occurs at k or later |
| PyStr.Slice | executable/Codes.py:17 | `s[lo:hi]` clamps both ends to the length, and its characters are those of `s` from `lo` on |
| PyStr.StripLeft | executable/ResultSem.py:41 | `int()`'s leading-whitespace strip removes a prefix made only of whitespace and leaves a suffix that starts with no whitespace |
| PyStr.StripRight | executable/ResultSem.py:41 | the trailing strip removes a suffix made only of whitespace and leaves a prefix that ends with no whitespace |
| PyStr.AllDigitsIff | executable/ResultSem.py:41 | the recursive digit test holds exactly when every character is a decimal digit |
| PyStr.StripNothing | executable/ResultSem.py:41 | a string with no whitespace at either end is left unchanged by the strips |
| PyStr.TwoDigitsValue | executable/ResultSem.py:41 | two digits are a digit string whose value is ten times the first plus the second |
| PyStr.ParseTwoCharsIsInt | executable/ResultSem.py:41 | on any two characters, the case table (two digits; a digit beside whitespace; a sign then a digit; otherwise a raise) gives exactly what the general `int()` gives |
| PyStr.ParseOne | executable/ResultSem.py:41 | `int()` of one non-space character is that digit's value, or raises when it is not a digit |
| PyStr.LeadingSpace | executable/ResultSem.py:41 | `int()` of two characters opening with whitespace reads the second character alone, and raises when both are whitespace |
| PyStr.TrailingSpace | executable/ResultSem.py:41 | `int()` of a character followed by whitespace reads that character alone |
| PyStr.NoSpace | executable/ResultSem.py:41 | on two non-space characters the case table agrees with `int()` |
| PyStr.StripOne | executable/ResultSem.py:41 | stripping one character leaves nothing when it is whitespace and the character otherwise |
| PyStr.LexLeTotal | executable/Codes.py:79-80 | Python's string order relates any two strings |
| PyStr.LexLeTrans | executable/Codes.py:79-80 | the string order is transitive |
| PyStr.LexLeAntisym | executable/Codes.py:79-80 | two strings ordered both ways are equal |
| Sorting.Insert | executable/Codes.py:79 | inserting into an ascending list keeps it ascending, and adds exactly one copy of the element |
| Sorting.Sort | executable/Codes.py:79 | `sorted` gives an ascending permutation of its input |
| Sorting.NoDupDistinct | executable/Codes.py:70-71 | in a duplicate-free list, two positions hold different elements |
| Sorting.DistinctNoDup | executable/Codes.py:87 | a list with pairwise different elements is duplicate-free |
| Sorting.NoDupTail | executable/Codes.py:70-71 | the tail of a duplicate-free list is duplicate-free |
| Sorting.SortedNoDupStrict | executable/Codes.py:79 | ascending and duplicate-free means strictly ascending |
| Sorting.NoDupAppend | executable/Codes.py:70-71 | appending a code only when absent keeps the list duplicate-free |
| Sorting.NoDupPermutation | executable/Codes.py:79 | sorting a duplicate-free list leaves it duplicate-free |
| Sorting.Without | executable/Codes.py:87 | the filter keeps exactly the elements other than the excluded one, with their multiplicities |
| Sorting.WithoutConcat | executable/Codes.py:87 | filtering distributes over concatenation, so the kept codes keep their order |
| Sorting.WithoutSorted | executable/Codes.py:87 | filtering an ascending list leaves it ascending |
| Sorting.WithoutSortedNoDup | executable/Codes.py:87 | filtering keeps a list ascending and duplicate-free |
| Directory.Keys | executable/Codes.py:80 | a dict's key list is the keys of its entries, in insertion order |
| Directory.Get | executable/ResultSem.py:48 | `dict.get` finds a value exactly when the key is one of the keys |
| Directory.GetStored | executable/ResultSem.py:48 | the value a lookup returns is stored under that key |
| Directory.GetAt | executable/Results.py:35 | in a dict with unique keys, iterating its entries sees what the lookup of each key returns |
| Directory.Set | executable/Codes.py:69-71 | `d[k] = v` replaces in place or appends a new key last; `k` then maps to `v` and no other key changes |
| Directory.SetUnique | executable/Codes.py:69-71 | setting a key keeps the keys unique |
| Directory.Pop | executable/Results.py:28-29 | `pop` raises exactly when the key is absent; otherwise the key is gone, every other key keeps its value and its place in insertion order, and no entry is invented |
| Directory.Drop | executable/Results.py:28-29 | removing a key leaves every other key's lookup alone, keeps the remaining keys in insertion order, and adds no entry |
| Roll.Classify | executable/ResultSem.py:41-47 | the roll classifies exactly when it has six characters and its first two characters are an integer to `int()`. Btech iff character 5 is 'A'. R22 iff that year is at least 23, or it is 22 and character 4 is not '5'. Otherwise R18 for btech and R17 for bpharmacy. Lateral iff character 4 is '5' |
| Roll.ClassifyUsesInt | executable/ResultSem.py:41 | classification raises exactly when Python's `int()` of the first two characters raises, and otherwise uses that integer as the year |
| Roll.DigitYear | executable/Results.py:19-25 | a roll opening with two digits classifies with those digits as its year |
| Roll.ClassifyBTech2020 | executable/ResultSem.py:43-46 | a regular btech roll of 2020 is btech / R18, not lateral |
| Roll.ClassifyBTech2023 | executable/ResultSem.py:43-46 | a btech roll of 2023 is on R22, regular or lateral |
| Roll.ClassifyRegular2022 | executable/ResultSem.py:43-46 | a regular btech roll of 2022 is on R22 |
| Roll.ClassifyLateral2022 | executable/ResultSem.py:43-46 | a lateral btech roll of 2022 stays on R18 |
| Roll.ClassifyPharmacy2021 | executable/ResultSem.py:42-46 | a pharmacy roll of 2021 falls back to R17 |
| Roll.NonNumericYearRaises | executable/SemResult.py:17 | a roll whose first two characters are letters raises |
| Pages.Requests | executable/ResultSem.py:54-56 | request i is for code i/2 in variant i%2 ("null" then "gradercrv"), with the degree and hall ticket, and there are two per code |
| Pages.RequestsCover | executable/SemResult.py:22-25 | every listed code is requested in both variants |
| Pages.RequestsAppend | executable/Results.py:35-40 | the requests of consecutive code lists concatenate |
| Pages.StampInvalid | executable/ResultSem.py:72 | the stamp sets `Roll_No` to the invalid sentinel, which is truthy, and keeps the other fields |
| Pages.ReadStudent | executable/ResultSem.py:91-95 | the details read succeeds exactly when table 0 has two rows of at least four cells, and reads cells 1 and 3 of each row |
| Pages.MergeStudent | executable/ResultSem.py:97-103 | after the identity check `Roll_No` is the page's hall ticket. The details are either kept or replaced by the page's, and they change exactly when the stored `Roll_No` differs and the page's details are different |
| Pages.MergeSameHtno | executable/Results.py:79-85 | a second page with the same hall ticket never changes the details |
| Pages.MergeOtherHtno | executable/SemResult.py:57-63 | a page with another hall ticket replaces every field |
| Pages.StudentOf | executable/SemResult.py:47-55 | a page names a student exactly when it is markup whose details table reads |
| Pages.FirstStudent | executable/SemResult.py:37-39 | the first student the pages name in order, and none exactly when no page names one |
| Pages.OneStudentDetails | executable/SemResult.py:57-63 | when every page names the same hall ticket, the details after all pages' identity checks are the first named student merged once; later pages change nothing |
| Pages.Body | executable/ResultSem.py:106 | `table[1:]` is every row after the header |
| Pages.IndexOf | executable/Results.py:91-94 | `list.index` finds the first position holding the name, and raises exactly when it is absent |
| Pages.OptionalIndex | executable/Results.py:97-99 | the guarded `index(...) if ... in ... else None` is the plain lookup, never raising |
| Pages.ResolveColumns | executable/Results.py:89-100 | the header resolves exactly when the four required names are present. Each resolved index holds its name, and an optional index exists exactly when its name is present |
| Pages.HeaderReader | executable/Results.py:88-100 | a results table yields a reader exactly when it has a header row that resolves |
| Pages.OptionalCell | executable/Results.py:110-112 | an optional cell is read exactly when its test passes, and it raises exactly when it is read and the cell is missing; otherwise it is "" |
| Pages.ParseRowByName | executable/Results.py:103-114 | the header-driven reader takes every field from the cell under its column's name, and "" for an absent optional column |
| Pages.StandardColumns | executable/Results.py:89-100 | the standard header resolves to the fixed positions 0, 1, 5, 6 and 2, 3, 4 |
| Pages.StandardIndex | executable/Results.py:91-94 | each standard column name is found at its own position |
| Pages.StandardDistinct | executable/Results.py:89 | the standard column names are pairwise different |
| Pages.IndexOfAt | executable/Results.py:91-94 | `index` finds the one position holding a name that occurs nowhere earlier |
| Pages.StandardHeaderAgrees | executable/ResultSem.py:106-117 | on the standard layout both header-driven readers agree with the positional reader on every row, including which rows raise |
| Pages.TestsAgreeOffColumnZero | executable/SemResult.py:87-89 | the truth-value test and the `is not None` test read the same row unless an optional column is column 0 |
| Pages.TruthinessDropsColumnZero | executable/Results.py:110 | with INTERNAL as column 0, the truth-value test drops the internal mark that `is not None` reads |
| Pages.FoldRows | executable/ResultSem.py:106-117 | the fold succeeds exactly when every row parses, and it never loses a subject code |
| Pages.FoldLastWrite | executable/SemResult.py:80-91 | after a successful fold each subject code holds what the last row naming it wrote, and an unnamed code keeps its earlier entry |
| Pages.LastWriteCons | executable/SemResult.py:80-91 | the last row naming a code is the last such row after the first row, or else the first row when it names the code |
| Pages.LastEntryAppend | executable/SemResult.py:37-39 | the last pair naming a code in two concatenated lists comes from the second list whenever that list names the code at all |
| Pages.EntriesAppend | executable/SemResult.py:80-82 | the subject pairs read from consecutive rows concatenate |
| Codes.ExtractExamCode | executable/Codes.py:13-23 | a code is found exactly when four characters start 9 past the first "examCode" (8 when there is none). It is those characters, cut to three exactly when the fourth is '&' |
| Codes.ExtractFromLink | executable/Codes.py:16-20 | a link with `examCode=<code>&` as its first "examCode" yields exactly the three- or four-character code |
| Codes.FirstCategoryIsFirst | executable/Codes.py:34-37 | the scan of the token table answers the label of the first entry whose token occurs, and `None` exactly when none occurs |
| Codes.CategorizeIsFirstMatch | executable/Codes.py:26-37 | the category is the label of the first year token, in table order, that occurs in the text, and `None` exactly when none does; every label is a semester |
| Codes.AddCode | executable/Codes.py:69-71 | after `setdefault` and the guarded append, exactly the new (semester, code) pair is added to what is listed. The dict stays well formed and no list shrinks |
| Codes.KeyListed | executable/Codes.py:69-71 | while the dict is being built, a semester is a key exactly when some code is listed under it, because a semester is only created by appending its first code |
| Codes.AppendCodeWellFormed | executable/Codes.py:70-71 | appending a code not yet listed keeps keys unique and lists duplicate-free |
| Codes.AppendCodeListed | executable/Codes.py:69-71 | the append lists the new code under its semester and changes nothing else listed |
| Codes.AddToRegulations | executable/Codes.py:63-71 | a found row is filed under exactly those of the degree's regulations that its text names |
| Codes.AddToRegulation | executable/Codes.py:64-71 | one regulation receives the code exactly when the row text names it |
| Codes.FileRow | executable/Codes.py:58-74 | a row adds exactly the pairs it contributes: it has a link, names the regulation, and both code and semester are found |
| Codes.TableContributesSnoc | executable/Codes.py:57 | a table contributes a pair exactly when its earlier rows or its last row does |
| Codes.TableCodes | executable/Codes.py:52-74 | after the row loop a regulation lists a (semester, code) exactly when some row of the table contributes it |
| Codes.Rebuild | executable/Codes.py:80 | the dict rebuilt from a key list has exactly those keys, each holding its sorted codes |
| Codes.Finalize | executable/Codes.py:77-80 | the sort step yields strictly ascending semesters and code lists, with the same semesters and the same listed pairs |
| Codes.FinalizeFacts | executable/Codes.py:77-80 | the sorted dict is ordered and lists exactly what it listed before |
| Codes.DegreeCodes | executable/Codes.py:52-80 | a degree has exactly its regulations, each ordered, listing exactly what the table contributes. A semester is a key of a regulation exactly when some row contributes a code to it |
| Codes.Exclude1690 | executable/Codes.py:83-87 | the exclusion touches only btech / R18 / 3-1, where it keeps the keys and filters "1690" out of the list |
| Codes.ExcludeKeepsOrder | executable/Codes.py:83-87 | after the exclusion btech / R18 stays ordered and lists exactly what it listed, except "1690" under 3-1 |
| Codes.ExtractExamCodes | executable/Codes.py:52-53 | the build raises exactly when the home page has fewer than two tables |
| Codes.ExtractedShape | executable/Codes.py:46-49 | the built directory has exactly the degrees btech and bpharmacy |
| Codes.ExtractedBTech | executable/Codes.py:41-90 | btech has exactly R18 and R22, each ordered. A code is listed exactly when a row of table 0 contributes it and it is not the excluded "1690". A semester is a key exactly when some row contributes a code to it, even when "1690" was its only code |
| Codes.ExtractedPharmacy | executable/Codes.py:41-90 | bpharmacy has exactly R17 and R22, each ordered, listing exactly what table 1 contributes. A semester is a key exactly when some row contributes a code to it |
| Codes.BTechFacts | executable/Codes.py:83-87 | the exclusion leaves btech ordered, with exactly its regulations and semester keys, listing all but "1690" |
| Codes.PharmacyFacts | executable/Codes.py:83-87 | the exclusion leaves bpharmacy as built, with exactly the contributed semester keys |
| Codes.IsDataFresh | executable/Codes.py:101-109 | fresh exactly when a stored timestamp is less than the maximum age before now. A missing or undecodable file is not fresh; a missing timestamp raises |
| Codes.LoadExamCodes | executable/Codes.py:112-119 | loading gives the stored data, `{}` for a missing or undecodable file, and raises when "data" is missing |
| Codes.GetExamCodes | executable/Codes.py:122-128 | a fresh snapshot is served and left alone. A stale one is rebuilt from the home page, and the file is overwritten with the rebuild and its save time exactly when the rebuild succeeds. A freshness check that raises changes nothing |
| Codes.RebuildThenServe | executable/Codes.py:94-128 | a rebuild is served back unchanged by any call within 24 hours of saving, whatever the home page then shows |
| Codes.ServeFresh | executable/Codes.py:94-97 | a snapshot saved less than 24 hours before is served as it is |
| ResultSem.AllSubjectsPassed | executable/ResultSem.py:119-120 | the loop answers true exactly when no collected subject has grade "F" or "Ab" |
| ResultSem.Content | executable/ResultSem.py:76-84 | content exists exactly for a 200 answer with a non-empty body, and is that body |
| ResultSem.Scrape | executable/ResultSem.py:86-117 | the no-result form changes nothing. Otherwise the scrape succeeds exactly when the details table reads, a second table exists and every row has seven cells. The details go through the identity check and no subject code is lost |
| ResultSem.ScrapeSubjects | executable/ResultSem.py:106-117 | after a scrape each subject code holds its last row's subject, and others keep theirs |
| ResultSem.Walk | executable/ResultSem.py:53-68 | the walk issues at most all requests, all of them when it runs out, and when it stops early the student is identified and has passed everything collected |
| ResultSem.WalkIsFirstExit | executable/ResultSem.py:53-68 | the walk stops at the first request after which the exit test holds, its result is the in-order replay of the requests it issued, and a walk that runs out never met the test |
| ResultSem.WalkIgnoresLaterResponses | executable/ResultSem.py:57-68 | responses to requests after the stopping one do not affect the outcome |
| ResultSem.CodesFor | executable/ResultSem.py:48 | the lookup raises exactly when degree or regulation is missing; an unlisted semester has no codes |
| ResultSem.GetResult | executable/ResultSem.py:34-74 | a cached pair is answered from the cache unchanged. A lateral roll asking for 1-1 or 1-2 gets NoData exactly when classification and lookup succeed. Otherwise the reply raises exactly when the walk over the codes' requests raises. A finished reply holds the walk's subjects; its details are the walk's when it stopped on a pass, and carry the invalid sentinel when the requests ran out. It is cached and kept as the instance's result |
| ResultSem.RepeatIsCached | executable/ResultSem.py:37-39 | asking again for an answered pair returns the same reply and instance, whatever the network now says |
| ResultSem.LateralFirstYear | executable/ResultSem.py:50-51 | a lateral roll's first-year request never depends on the network, and succeeds only as NoData |
| ResultSem.RebuiltDirectoryHasClass | executable/ResultSem.py:48 | on a directory built from the home page the lookup for any classified roll succeeds |
| ResultSem.ForSemester | executable/ResultSem.py:34-74 | a fresh instance raises exactly when its walk raises, and otherwise holds the walk's subjects, with the invalid sentinel stamped when the walk ran out; the result either passes every subject or carries the sentinel |
| ResultSem.ForSemesterReplays | executable/ResultSem.py:53-74 | against a full in-order replay of the requests: either the exit test first holds after some request and the result is the replay up to it, or it never holds and the result is every subject the whole replay collected with `Roll_No` overwritten by the invalid sentinel |
| Results.Content | executable/Results.py:54-65 | a 200 with a body is that body. A 200 with an empty body is skipped. Any other answer or failure is markup without tables |
| Results.Tag | executable/Results.py:40 | each request is tagged with its semester, in order |
| Results.Tasks | executable/Results.py:33-40 | every task belongs to a semester of the dict and carries the degree and roll |
| Results.TasksCover | executable/Results.py:35-40 | every code of every semester is requested in both variants under that semester |
| Results.Of | executable/Results.py:43 | the tasks kept for a semester all belong to it |
| Results.OfAppend | executable/Results.py:43 | selecting a semester's tasks distributes over concatenation |
| Results.OfTag | executable/Results.py:37-40 | a semester's tagged requests are all kept for it and none for another semester |
| Results.OfNone | executable/Results.py:43 | a list with no task of a semester keeps none for it |
| Results.TasksOfSemester | executable/Results.py:35-40 | in a dict with unique keys, the tasks of a semester are, in submission order, both variants ("null" then "gradercrv") of each of its codes in list order, and a semester the dict does not list has none |
| Results.SemesterEntriesOf | executable/Results.py:43-47 | a semester's subject rows depend only on that semester's tasks |
| Results.Scrape | executable/Results.py:67-114 | the no-result form changes nothing. On markup the scrape succeeds exactly when the details table reads, a second table exists, its header names the four required columns and every row reads. It merges the details, adds exactly the page's semester, loses no subject, and leaves every other semester alone |
| Results.StoreSubjects | executable/Results.py:102-114 | storing succeeds exactly when every row reads. It creates the semester if absent, keeps its earlier subject codes, and changes no other semester |
| Results.ScrapeSubjects | executable/Results.py:103-114 | after a scrape each subject code of the semester holds its last row's subject, and others keep theirs |
| Results.NamesCons | executable/Results.py:43 | a semester is named by a task list exactly when it is the first task's or is named by the rest |
| Results.Process | executable/Results.py:43-49 | the reply is JSON exactly when every task's content is empty or a page that scrapes. Any failed request or non-200 answer makes it "Failed to fetch URL". A JSON reply only adds semesters that some task names, keeps every semester no task names, and its details are what the identity checks of the delivered pages leave, in submission order |
| Results.ProcessSemesters | executable/Results.py:43-47 | a JSON reply holds a semester exactly when the accumulator had it or some task of it delivered markup rather than the no-result form |
| Results.ProcessSubjects | executable/Results.py:43-47 | within each semester of a JSON reply, a subject code holds what the last row naming it said across that semester's pages in task order, and a code none of them names keeps its earlier entry |
| Results.StepSubjects | executable/Results.py:45-47 | one task changes its semester by the last row of its page naming each code, and leaves codes its page does not name alone |
| Results.OpenedCons | executable/Results.py:43 | a semester is opened by a task list exactly when the first task or the rest opens it |
| Results.ProcessAppend | executable/Results.py:43-49 | processing two task lists in turn is processing their concatenation, and the first failure ends everything |
| Results.SemestersFor | executable/Results.py:26-29 | a missing degree raises and a missing regulation gives `{}`. A lateral roll pops 1-1 and 1-2, raising when either is absent, and keeps every other semester in its dict order |
| Results.GetResult | executable/Results.py:16-52 | the call succeeds exactly when classification and the lookups succeed. The reply is then JSON exactly when every task's content is empty or scrapes, is "Failed to fetch URL" whenever some request fails or answers other than 200, and a JSON reply holds exactly the semesters some task opened, with the details the identity checks of the delivered pages leave from `{}`, in submission order across all semesters |
| Results.ReplyDetails | executable/Results.py:43-47 | when every delivered page names the roll asked for, a JSON reply's details are the first such page's student, or `{}` when none names one |
| Results.ReplySubjects | executable/Results.py:43-47 | each subject of a JSON reply is what the last row naming its code said across its semester's pages in task order, and a code no such row names is absent |
| Results.ProcessedSemestersListed | executable/Results.py:35-49 | every semester in a processed reply is a key of the dict |
| Results.LateralKeysListed | executable/Results.py:27-29 | after the pops every remaining semester was in the regulation's dict |
| Results.ReplySemesters | executable/Results.py:16-52 | every semester in the reply is in the directory, and a lateral roll's reply holds neither 1-1 nor 1-2 |
| SemResult.Tasks | executable/SemResult.py:16-26 | the tasks raise exactly when classification fails or degree or regulation is missing. Otherwise they are, for a listed semester, both variants ("null" then "gradercrv") of each listed code in order, for the degree and hall ticket; an unlisted semester has none |
| SemResult.Text | executable/SemResult.py:38 | the status is ignored, and an empty body is markup without tables |
| SemResult.Gather | executable/SemResult.py:35 | the gather raises exactly when some request cannot be reached; otherwise it gives each request's page, in order |
| SemResult.GatherIgnoresStatus | executable/SemResult.py:35-38 | two networks that differ only in status codes gather the same pages |
| SemResult.Scrape | executable/SemResult.py:44-91 | the no-result form changes nothing. On markup the scrape succeeds exactly when the details table reads, a second table exists, its header names the four required columns and every row reads. It merges the details and loses no subject |
| SemResult.ScrapeAll | executable/SemResult.py:37-39 | scraping in order succeeds exactly when every page scrapes, never loses a subject code, and leaves the details the pages' identity checks give in order |
| SemResult.ScrapeAllLastWrite | executable/SemResult.py:37-39 | after all pages are scraped each subject code holds what the last row naming it said across the pages in order, and a code no page names keeps what it had |
| SemResult.ScrapeSubjects | executable/SemResult.py:80-91 | after a scrape each subject code holds its last row's subject, and others keep theirs |
| SemResult.ScrapeAllAppend | executable/SemResult.py:37-39 | scraping two batches in turn is scraping them together; a later page's row replaces an earlier one's |
| SemResult.GetSymbol | executable/SemResult.py:28-42 | the call succeeds exactly when the tasks are built and every request is answered with a page that scrapes. A subject code is then present exactly when some gathered page names it, holding the last row naming it, and the details are what the pages' identity checks leave from `{}`, so nothing from outside this call's pages appears |
| SemResult.SymbolDetails | executable/SemResult.py:28-42 | when every gathered page names the hall ticket asked for, the details are the first such page's student, or `{}` when none names one |
| SemResult.FromEmpty | executable/SemResult.py:30-39 | scraping from the empty result, a code is present exactly when some page names it, with the last row naming it |
| SemResult.StatusIgnored | executable/SemResult.py:33-39 | the reply is the same under any status codes for the same bodies |
| SemResult.LateralFirstYearRequested | executable/SemResult.py:16-26 | a lateral roll asking for a listed first-year semester gets requests issued |
| ResultAcademic.SemestersDistinct | executable/ResultAcademic.py:6 | the eight semester labels are pairwise different |
| ResultAcademic.FirstDetailsIsFirst | executable/ResultAcademic.py:35-36 | the kept details are empty exactly when no reply gives any, and otherwise are those of the earliest reply, in completion order, that does |
| ResultAcademic.Collect | executable/ResultAcademic.py:30-43 | the collected entries are exactly the semesters with subjects, each with its reply's result |
| ResultAcademic.IndexOfTail | executable/ResultAcademic.py:41-43 | a semester's position past the head is one more than its position in the tail |
| ResultAcademic.OrderedTail | executable/ResultAcademic.py:41-43 | entries in the tail's order are in the whole list's order when the head does not recur |
| ResultAcademic.OrderedCons | executable/ResultAcademic.py:41-43 | putting the head semester's entry in front keeps the order |
| ResultAcademic.CollectOrdered | executable/ResultAcademic.py:41-43 | collected entries come in the order of the semester list |
| ResultAcademic.Assemble | executable/ResultAcademic.py:8-49 | the report always has details. It lists a semester exactly when its reply has subjects, with that reply's result, in canonical semester order |
| ResultAcademic.AssembleDetails | executable/ResultAcademic.py:35-47 | the details are the first giving reply's in completion order, or only the invalid sentinel when no reply gives any |
| ResultAcademic.FirstDetailsAgree | executable/ResultAcademic.py:35-36 | when all giving replies agree on details, the kept details are those |
| ResultAcademic.CompletionOrderMembers | executable/ResultAcademic.py:26 | a completion order holds exactly the eight semesters |
| ResultAcademic.CompletionOrderIrrelevant | executable/ResultAcademic.py:20-43 | the report does not depend on completion order when all giving semesters report the same details |
| ResultAcademic.GetAcademic | executable/ResultAcademic.py:8-49 | no listed semester has an empty result |
| ResultAcademic.LateralHasNoFirstYear | executable/ResultAcademic.py:24-43 | a lateral student's report holds neither 1-1 nor 1-2 |

## Behaviours a reader might not expect

Each item states what the code does; the model follows it.

- **Student details are not set once.** A later page with another hall ticket is accepted: the code replaces all four fields whenever the page's hall ticket differs from the stored one (`Pages.MergeOtherHtno`).
- **Exhausted walk.** A walk that runs out is not treated as a partial result, even when it found subjects: `executable/ResultSem.py` stamps `Roll_No` with "Invalid Hallticket Number" whenever the walk runs out, whatever subjects were found (`ResultSem.GetResult`).
- **Order of checks in ResultSem.** The lateral-entry short-circuit does not come first. In `executable/ResultSem.py` the cache check, the classification and the directory lookup come first. A missing degree or regulation raises `KeyError` even for a lateral first-year request.
- **Lateral entry in SemResult.** `executable/SemResult.py` has no lateral-entry check and requests first-year semesters (`SemResult.LateralFirstYearRequested`). `executable/Results.py` pops "1-1" and "1-2" from the directory's own dict and raises when either is missing.
- **Failures are not contained.** A fetch or page-shape failure does not merely degrade the result:
  - In `executable/Results.py`, a failed fetch becomes a page without tables. Scraping it raises, and the whole reply becomes "Failed to fetch URL".
  - In `executable/SemResult.py`, one unreachable request makes the gather raise.
  - In `executable/ResultSem.py`, a malformed page raises out of `get_result`.
- **Short roll numbers.** These raise Python's `IndexError` or `ValueError`, not a dedicated error. The model writes both as `Raised`.
- **Optional columns.** `executable/Results.py` tests an optional column index by truth value, so an optional column at position 0 is never read (`Pages.TruthinessDropsColumnZero`). `executable/SemResult.py` tests `is not None`.
- **Invalid semesters in the academic report.** A semester whose result was stamped invalid still appears in the academic report when it has subjects. The report filters on a non-empty "Result", not on the outcome.
- **Non-ResultSem replies in the academic report.** The "No data available" text makes `.get` raise `AttributeError`, which the loop catches and skips.
- **No snapshot fallback.** A failed home-page fetch is not recovered from the last snapshot: `get_exam_codes` only reads the snapshot when it is fresh.
- **Missing "examCode".** When a link has no "examCode", `find` returns -1 and the code reads the window starting at index 8 (`Codes.ExtractExamCode`).

## Left out

- HTTP itself: sessions, retries with back-off, timeouts, connection pools, TLS flags and URL formatting. A request is the tuple of the query parameters that vary.
- HTML parsing (BeautifulSoup) is abstracted into tables, rows, cell texts and bold texts. `get_text()` on a row of the home page is taken as given.
- Threads and `asyncio` are left out. Requests are issued and consumed in submission order, which is the order `future.result()` and `asyncio.gather` deliver. The academic report's completion order is a parameter.
- JSON encoding and decoding, file paths and the file system, and `time.time()` are left out. The snapshot is a value, and the clock readings are parameters.
- The home-page fetch in `extract_exam_codes` is left out. Its tables are a parameter, and an unreachable portal (which would raise) is not modelled.
- `print` and logging are left out.
- `lru_cache` on `get_cached_result` and `fetch_url` is left out. It does not change the replies of the fresh instances the callers create.
- `ResultSem.GetResult`: the cache stores the result value, whereas the source stores a reference to the instance's accumulator, which later calls on the same instance keep mutating. No caller reuses an instance.
- State after an escaping exception is not modelled. That covers the partly filled accumulator and partly written snapshot a raise leaves behind.
- Module import side effects are left out: the top-level `get_exam_codes()` calls and the directory each instance reads at construction. Every instance is given the same directory.
- `Results.GetResult` models a fresh instance. A reused instance would also carry earlier details and results.
- `Codes.ExtractExamCodes`: its own contract states only when it raises. What the built directory holds is stated by `Codes.ExtractedShape`, `Codes.ExtractedBTech` and `Codes.ExtractedPharmacy`.
- `PyStr.ParseInt` models `int()` only on ASCII input. Unicode digits, underscores between digits, and non-ASCII whitespace are not modelled.
- `PyStr.ParseTwoChars` has the same ASCII-only scope. `Roll.Classify` reads the year through it; `Roll.ClassifyUsesInt` ties the two together.
- Dict key order in replies is left out. Subject dicts and Results' semester dict are Dafny maps, so the JSON key order is not modelled: subjects in the order their rows first appear, and semesters in task order. Which keys are present and what they hold is modelled.
- The module-global `results` of `executable/SemResult.py` is modelled as a fresh dict per call. Two overlapping `get_symbol` calls share that one global, because each awaits the network between its reset and its scraping, and can see each other's rows. The properties of `SemResult.GetSymbol` hold for calls that do not overlap.
- The FastAPI layer in `main.py` is not part of this model.

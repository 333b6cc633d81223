# job-listing in Dafny

A model of the job board's pure logic: a React client, a Flask API over one `job`
table, and a LinkedIn scraper that fills the table. The model covers the following
parts of that logic, using integers, strings and sequences:

- the home page's listing pipeline (record-to-card transform, salary value, sort
  orders, search suggestions, query resolution, fetch effect);
- the API's list, get, create, update and delete endpoints, with their status codes;
- the scraper's record normalisation and its two de-duplication loops;
- the state updates of the job form, the add-job page, the filter panel and the
  job list's delete.

Modules, one per file:

| module | file | models |
|---|---|---|
| `Text` | text.dfy | JS `trim`, `split`, `toLowerCase`, `includes`, decimal numerals, code-point string order |
| `Seqs` | seqs.dfy | subsequences and order-preserving filtering |
| `Dedup` | dedup.dfy | first-occurrence de-duplication by a key with a seen set |
| `Sorting` | sorting.dfy | a stable sort under a comparator, as `Array.prototype.sort` is |
| `Api` | api.dfy | the records the client and server exchange; the form fields |
| `Home` | home.dfy | `frontend/src/components/pages/Home.tsx` |
| `Like` | like.dfy | SQL `ILIKE` as the list endpoint uses it |
| `Backend` | backend.dfy | `backend/app.py` |
| `Scraper` | scraper.dfy | `backend/scraper.py` |
| `JobForm` | job_form.dfy | `frontend/src/components/jobs/JobForm.tsx` |
| `AddJob` | add_job.dfy | `frontend/src/components/jobs/AddJob.tsx` |
| `JobFilter` | job_filter.dfy | `frontend/src/components/jobs/JobFilter.tsx` |
| `JobList` | job_list.dfy | `frontend/src/components/jobs/JobList.tsx` |

Several inputs are parameters instead of being modelled:

- Wall-clock time and `posted_date` are integer milliseconds.
- The scraper's `datetime.utcnow()` reading for each card is part of that card's input, so every scraped record carries its own time.
- The home page's `new Date()` reading for each fetched record is an input too: a fetch takes one reading per record.
- The outcome of every HTTP request or callback is an `Outcome` (`Succeeded` or `Failed`).
- The text the scraper reads off a job card is a `Card` of strings.
- The user's answer to a confirmation dialog is a boolean.

The home page's transform is written out five times in `Home.tsx`, at lines 49-91,
144-175, 291-333, 439-470 and 566-597. It is modelled once, as `Home.Transform`.

## Model

| member | source | states |
|---|---|---|
| Text.Trim | frontend/src/components/pages/Home.tsx:51 | the result is a slice of the text with only white space cut from each end, and neither end is white space |
| Text.SplitJoin | frontend/src/components/pages/Home.tsx:51 | no piece of `split(',')` holds a comma, and joining the pieces with commas gives back the text |
| Text.SplitFirst | frontend/src/components/pages/Home.tsx:51-52 | the first piece is the text before the first comma, and there is more than one piece iff a comma occurs |
| Text.SplitLast | frontend/src/components/pages/Home.tsx:51-53 | the last piece is the text after the last comma |
| Sorting.Sort | frontend/src/components/pages/Home.tsx:366-409 | `sort` returns a permutation of its input: same length, same elements with the same multiplicities |
| Sorting.SortSorted | frontend/src/components/pages/Home.tsx:366-409 | under a total preorder, every pair of the sorted list is in comparator order |
| Sorting.SortedUnique | frontend/src/components/pages/Home.tsx:379-384 | two sorted arrangements of the same elements are equal when the comparator never ties distinct elements |
| Home.CityOf | frontend/src/components/pages/Home.tsx:51-52 | the city is the text before the first comma, trimmed |
| Home.CountryOf | frontend/src/components/pages/Home.tsx:51-53 | the country is the text after the last comma, trimmed, and empty when there is no comma |
| Home.AgoText | frontend/src/components/pages/Home.tsx:64-66 | the "Nh ago" / "Nd ago" text reads back as the count and unit it was built from |
| Home.PostedAgo | frontend/src/components/pages/Home.tsx:58-67 | under a day the text counts elapsed div 3600000 hours, otherwise elapsed div 86400000 days |
| Home.Tags | frontend/src/components/pages/Home.tsx:73 | tags are country then city with empty ones dropped: length, non-emptiness and order |
| Home.JobType | frontend/src/components/pages/Home.tsx:82 | the type is never empty, is the salary whenever that is non-empty, and is "Not specified" iff the salary is null, empty or that very text |
| Home.Category | frontend/src/components/pages/Home.tsx:85-86 | each of the three categories holds exactly when its case-sensitive keyword test does, Fellow first |
| Home.Transform | frontend/src/components/pages/Home.tsx:49-91 | no card iff the record's location or description is null (the `split` or `includes` call throws); otherwise the card keeps the record's id, title, company, location and posting time, takes its city and country from the location, and has the fixed experience level |
| Home.TransformAll | frontend/src/components/pages/Home.tsx:290-331 | `response.map` yields cards iff no record has a null location or description, and then one card per record, each the transform of the record at its position under that record's own clock reading |
| Home.AgeFollowsEachReading | frontend/src/components/pages/Home.tsx:296-308 | two records posted at the same moment and read either side of the hour show "0h ago" and "1h ago" |
| Home.TransformAge | frontend/src/components/pages/Home.tsx:55-70 | the "ago" text reads back as whole hours under a day and whole days otherwise; the card is new iff fewer than two whole days have elapsed, so every "h ago" card is new |
| Home.TransformLabels | frontend/src/components/pages/Home.tsx:73-86 | the tags are the country then the city, empty ones dropped; the type is the salary when that is non-empty and "Not specified" iff the salary is null, empty or says so; Fellow iff the description mentions it, else Associate iff it mentions that, else Analyst |
| Home.SalaryValue | frontend/src/components/pages/Home.tsx:388-392 | the value is 0 exactly when the text has no digit other than '0' |
| Home.SalaryGuardRedundant | frontend/src/components/pages/Home.tsx:389-391 | the "Not specified" test agrees with reading the digits, since that text has none |
| Home.SalaryOfNumeral | frontend/src/components/pages/Home.tsx:390-391 | a plain numeral is worth the number it writes |
| Home.SalaryRunsConcatenate | frontend/src/components/pages/Home.tsx:390-391 | the digit runs of a range are read as one number, both ends run together |
| Home.CompareIsTotalPreorder | frontend/src/components/pages/Home.tsx:366-409 | each of the six comparators is total and transitive, so the sort is well defined |
| Home.SortListings | frontend/src/components/pages/Home.tsx:357-415 | the sorted list is a permutation of the listings, and every pair is in the order the selected option promises |
| Home.SortedByComparator | frontend/src/components/pages/Home.tsx:366-409 | the stable sort under each comparator leaves every pair in that option's order |
| Home.CompanyZaReversesAz | frontend/src/components/pages/Home.tsx:379-384 | with distinct company names, Z to A is A to Z reversed |
| Home.KnownValues | frontend/src/components/pages/Home.tsx:336-337 | the suggestion lists are the listings' companies and locations, each kept at its first appearance and in that order; so they hold exactly those values, each once |
| Home.Distinct | frontend/src/components/pages/Home.tsx:336-337 | `Array.from(new Set(..))` is the list of first appearances, in order: the same members, without repeats |
| Home.Compare | frontend/src/components/pages/Home.tsx:366-409 | the comparator keeps `a` ahead of `b` (a result of at most 0) iff `a` comes first in the selected option's order |
| Home.FindIndex | frontend/src/components/pages/Home.tsx:262-267 | the index found is the first entry whose lower-cased text contains the term, or the length |
| Home.ResolveQuery | frontend/src/components/pages/Home.tsx:242-282 | filters win over the search text; otherwise the first matching company, else the first matching location, else a free-text search; at most one member set |
| Home.ApplyFetch | frontend/src/components/pages/Home.tsx:285-347 | a failed request, or a record with a null location or description, keeps the cards and suggestions and sets the load error; otherwise the cards are the transformed records in response order, each aged by its own clock reading, and the suggestions are rebuilt from them |
| Home.SearchPicksFirstListedCompany | frontend/src/components/pages/Home.tsx:258-267 | after a fetch, a search with no filters resolves to the company of the first listed card whose company contains the search text |
| Like.ContainsIgnoringCase | backend/app.py:72 | the substring test: true iff the term occurs at some position up to ASCII case |
| Like.LiteralMatch | backend/app.py:72 | a pattern without `%` or `_` matches exactly the strings equal to it up to case |
| Like.LiteralPrefixMatch | backend/app.py:72 | a wildcard-free pattern followed by `%` matches exactly the strings it begins |
| Like.LeadingPercent | backend/app.py:72 | a leading `%` lets the rest of the pattern match any suffix |
| Like.AgreeWithoutWildcards | backend/app.py:71-82 | for a term without `%` or `_`, the filter as written is the substring test |
| Like.UnderscoreMatchesAnyCharacter | backend/app.py:75-81 | the search "_" matches "Acme", which contains no underscore |
| Like.PercentMatchesEverything | backend/app.py:71-72 | the filter "%" matches every value, the empty one too |
| Backend.Find | backend/app.py:93 | the position found is the first row with the id, or the table length |
| Backend.GetJob | backend/app.py:91-94 | 404 iff no row has the id; otherwise 200 with a row of the table with that id |
| Backend.NextId | backend/app.py:112-113 | a new id is at least 1 and above every id in use |
| Backend.CreateJob | backend/app.py:96-115 | 400 iff the body is missing or title or company is falsy, with nothing inserted; otherwise 201 and one new row holding the body's fields, active, with a fresh id |
| Backend.CreateThenGet | backend/app.py:91-115 | the created job is fetched back by its id |
| Backend.UpdateChangesOnlyNamedMembers | backend/app.py:131-144 | after an update a column differs from the stored value only if the body names it; id and posting date never change |
| Backend.UpdateJob | backend/app.py:126-147 | 404 iff the id is missing; 500 for a missing body or a null title or company; otherwise only that row changes |
| Backend.UpdateWithoutChanges | backend/app.py:131-146 | a body with no keys leaves the table as it was |
| Backend.UpdateIdempotent | backend/app.py:131-146 | repeating an update changes nothing more |
| Backend.Without | backend/app.py:120-122 | the rows left are exactly those with another id, and one fewer when the id was there |
| Backend.WithoutOne | backend/app.py:120-122 | deleting keeps the ids distinct, removes exactly one row when the id is present, and leaves the table as it was when it is absent |
| Backend.DistinctIdsInSubsequence | backend/app.py:120-122 | the rows kept still have distinct ids |
| Backend.DeleteJob | backend/app.py:118-123 | 404 iff the id is missing; otherwise 200 with "Job N deleted" and the row removed |
| Backend.DeleteThenGet | backend/app.py:91-123 | after a delete, getting the id answers 404 |
| Backend.Matches | backend/app.py:71-82 | a row passes iff each supplied filter's `ilike(f'%{term}%')` accepts it, the search on title, description or company; for wildcard-free terms this is the case-insensitive substring test |
| Backend.Select | backend/app.py:70-82 | exactly the rows the `ilike` filters accept are kept, each as often as in the table |
| Backend.ListJobs | backend/app.py:60-87 | the result is every row the `ilike` filters accept, each as often as in the table, newest first |
| Backend.ListJobsIntended | backend/app.py:60-87 | the same list under the substring filter: every row containing each term, newest first |
| Backend.ListJobsAgree | backend/app.py:71-82 | when no filter holds `%` or `_`, the endpoint as written returns exactly the intended list, in the same order |
| Backend.UnderscoreSearchListsAcme | backend/app.py:75-81 | a search for "_" lists a job titled "Acme" at "Acme", which the intended filter leaves out |
| Backend.NewestFirst | backend/app.py:85 | ordering by posting time descending gives non-increasing times over the same rows |
| Backend.ListAll | backend/app.py:68-87 | with no parameters, every row is listed |
| Backend.FiltersNarrow | backend/app.py:71-72 | adding a company filter never adds rows |
| Scraper.Normalise | backend/scraper.py:266-290 | no record iff title or company is empty; otherwise the defaults for location, description, salary and active flag, posted at the card's own clock reading |
| Scraper.IdentifierCollides | backend/scraper.py:395 | two different jobs can share an identifier when a field contains a bar |
| Scraper.IdentifierInjective | backend/scraper.py:395 | when no title or company contains a bar, equal identifiers mean equal title, company and location |
| Scraper.ExtractedComplete | backend/scraper.py:391-393 | every record extracted from the cards has a title and a company |
| Dedup.DedupFromSpec | backend/scraper.py:395-405 | the records kept have distinct keys, none already seen, and are a subsequence; every key of the input is seen or kept, and each unseen key's first occurrence is kept |
| Dedup.DedupBy | backend/scraper.py:395-405 | the records kept from an empty seen set are the first occurrences of each key, in input order; so they have distinct keys, are a subsequence and cover every key |
| Dedup.DedupFromIsFirstOccurrences | backend/scraper.py:395-405 | the loop with a seen set keeps exactly the records that are the first of their key and whose key was not seen, in input order |
| Dedup.FirstsHit | backend/scraper.py:395-405 | the first input record passing a test, if it is the first of its key, is the first kept record passing that test |
| Scraper.ScrapeLinkedin | backend/scraper.py:388-406 | the jobs collected are the extracted records de-duplicated by identifier, with no repeated identifier; each term's kept plus skipped equals its extracted records; when the clock never goes back over the run, the jobs' posting times never decrease |
| Scraper.ExtractedInOrder | backend/scraper.py:280-290 | cards read in clock order yield records whose posting times never decrease |
| Scraper.AllExtractedFlat | backend/scraper.py:388-394 | extracting term by term is extracting from every term's cards in visiting order |
| Scraper.ScrapeTerm | backend/scraper.py:391-406 | one term's loop advances the de-duplication by that term's records |
| Scraper.ScrapeKeepsFirstOccurrences | backend/scraper.py:398-405 | the first record with each identifier is collected |
| Scraper.InsertedRowIsFound | backend/scraper.py:465-494 | the row inserted for a record is found by the duplicate query for that record afterwards, and inserting it under the next id keeps the table valid |
| Scraper.SaveFrom | backend/scraper.py:460-497 | added plus skipped equals the records; rows are only appended; ids stay distinct |
| Scraper.SaveDecision | backend/scraper.py:465-479 | a record is skipped when a row has its url or its title, company and location, or its identifier was seen; otherwise its row is appended next |
| Scraper.SaveAddsNoDuplicates | backend/scraper.py:460-479 | no inserted row duplicates an earlier row by the duplicate query's test |
| Scraper.ScrapeAndSave | backend/scraper.py:444-500 | an empty scrape adds nothing; the loop computes the insert loop's result |
| Scraper.Exists | backend/scraper.py:465-470 | the query finds a row iff the table holds the same job |
| Scraper.SameJob | backend/scraper.py:465-470 | the duplicate query's test on a row is the clash between that row and the row the record would insert |
| Scraper.SaveSkipsKnownJobs | backend/scraper.py:472-476 | records all already present or seen add nothing and are all counted as skipped |
| Text.TrimEmptyIffAllSpace | frontend/src/components/jobs/JobForm.tsx:33-39 | a trimmed text is empty iff the text is all white space |
| JobForm.Initial | frontend/src/components/jobs/JobForm.tsx:18-25 | a missing initial field is the empty string; no errors |
| JobForm.Validate | frontend/src/components/jobs/JobForm.tsx:30-43 | a title error iff the trimmed title is empty, a company error iff the trimmed company is empty, no other key |
| JobForm.ValidIff | frontend/src/components/jobs/JobForm.tsx:33-42 | the form is valid iff title and company are not all white space |
| JobForm.Change | frontend/src/components/jobs/JobForm.tsx:45-53 | only the named field changes; its error is no longer shown; other errors are untouched |
| JobForm.Submit | frontend/src/components/jobs/JobForm.tsx:55-72 | `onSubmit` is called iff the form is valid, with the form as it stands; a failure leaves exactly the submit error |
| JobForm.ChangeAfterFailedSubmit | frontend/src/components/jobs/JobForm.tsx:45-60 | editing the title after a failed validation hides its error and keeps the company's |
| AddJob.Initial | frontend/src/components/jobs/AddJob.tsx:14-21 | every field starts empty |
| AddJob.Change | frontend/src/components/jobs/AddJob.tsx:29-35 | exactly the named field changes |
| AddJob.Submit | frontend/src/components/jobs/AddJob.tsx:37-56 | no create call iff title or company is empty; otherwise the form is sent, and the page moves on iff the call succeeds |
| AddJob.BlankTitleContrast | frontend/src/components/jobs/AddJob.tsx:41 | a title of spaces is sent here but refused by the job form |
| JobFilter.Submit | frontend/src/components/jobs/JobFilter.tsx:13-22 | each query member is present iff its input is non-empty, and equals it |
| JobFilter.Reset | frontend/src/components/jobs/JobFilter.tsx:24-29 | all inputs are cleared and the empty query is emitted |
| JobFilter.ResetThenSubmit | frontend/src/components/jobs/JobFilter.tsx:13-29 | submitting the cleared panel emits what reset emitted |
| JobFilter.FiltersReachEndpoint | frontend/src/components/jobs/JobFilter.tsx:16-19 | the list endpoint filters on exactly the inputs filled in |
| JobList.DeleteJob | frontend/src/components/jobs/JobList.tsx:35-45 | a request is sent iff confirmed; on success no job with the id remains and the others stay in order; otherwise the list is unchanged |
| JobList.DeleteAbsent | frontend/src/components/jobs/JobList.tsx:39 | deleting an id not shown leaves the list unchanged |
| JobList.DeleteTwice | frontend/src/components/jobs/JobList.tsx:39 | a second delete of the same id changes nothing |

## Left out

- Home.ApplyFetch: on a failed request the component keeps the cards it already showed and sets the message; the model follows this code rather than a reading in which the previous list is discarded.
- Home.SalaryValue: `parseInt` loses precision beyond 2^53; the model reads the digits as an unbounded integer.
- Home.SalaryRunsConcatenate: the range example ("$70,000 - $90,000" is worth 7000090000) is stated for every pair of ends, not for the literal.
- Home.ResolveQuery: `toLowerCase` is modelled as ASCII case folding only, here and in Home.FindIndex.
- Backend.Matches: the database's case folding for `ilike` is modelled as ASCII only, here and in the Like module.
- Scraper.ScrapeLinkedin: the clock readings are inputs; that they never go back (a system clock can be set back) is a hypothesis of the ordering clause, not a fact of the model.
- Home.Compare: `localeCompare` is modelled as code-point order, not locale collation.
- Home.Transform: the `url` and `is_active` fields of a record are not read by the transform. Invalid dates (`NaN`) and date parsing are not modelled; times are integer milliseconds.
- Home.CompanyZaReversesAz: proved only for distinct company names, because the stable sort keeps ties in input order in both directions.
- Backend.ListJobs: the database's order among rows with equal posting times is not specified; the model keeps table order.
- Backend.CreateJob: non-object JSON bodies and non-string JSON values are not modelled. String length limits are not modelled either, since SQLite does not enforce them.
- Backend.UpdateJob: a missing body or a null title or company raises in the handler; the model answers 500 without a change, and leaves out session rollback. Non-object JSON bodies (a string, list or number, where `'title' in data` either raises or, for `[]`, finds nothing and answers 200 unchanged) and values of another JSON type (such as a string for the strict `Boolean` column `is_active`, refused at flush with a 500) are not modelled: the body is always an object with a string or boolean per member.
- The unused `parseSearchQuery` in Home.tsx is not modelled, since nothing calls it.
- `handleSearch`, the sidebar checkboxes, the debounce timer and the refresh counter of Home.tsx are React event and effect plumbing, and are not modelled.
- The loading and submitting flags, effect ordering and the stale-response race are not modelled, because the model has no concurrency.
- HTTP calls (`api.ts`, axios), Flask routing and the scheduler are left out as I/O. Every request is an `Outcome` parameter.
- `backend/main.py` is left out as I/O.
- The Selenium driver, page navigation, element lookup, user agents and sleeps are left out as I/O and randomness. The card text is an input.
- The scraper's exception handlers are not modelled.
- JobDetail, EditJob, CreateJob, App, Navbar and Footer are thin wrappers and are not modelled.

## Findings

| source | as written | input that shows it | evidently intended | confidence | as-written member | corrected member |
|---|---|---|---|---|---|---|
| backend/app.py:71-82 | the filters build `f'%{term}%'` from the raw parameter, so `%` and `_` in the user's text act as wildcards | search "_" lists a job whose only text is "Acme"; company "%" lists every job | a case-insensitive substring test of the text as typed | not executed | Backend.UnderscoreSearchListsAcme | Backend.ListJobsIntended |

# bs4_parser_pep: the status-reconciliation pass, in Dafny

This project models the part of the `bs4_parser_pep` scraper that carries real logic.

`pep()` walks the numerical PEP index. For every index cell whose string is a run of digits, it:

- derives the category key from the previous cell's text;
- opens the PEP's page;
- reads the status that follows the first `Status` term of the page's field list;
- tallies that status;
- checks it against `EXPECTED_STATUS`, logging an unknown key or a status mismatch.

Finally it folds the tally into a report. The report has a `('Status', 'Amount')` header, one `(status, count)` row per distinct status sorted by status, and a `('Total', total)` footer.

A secondary part is `latest_versions()`. It finds the first sidebar list whose text mentions `All versions`. It then turns every link of that list into a `(link, version, status)` row, reading version and status with the pattern `Python (?P<version>\d\.\d+) \((?P<status>.*)\)`.

Modules:

- `Wrappers`: `Option`.
- `Exceptions`:
  - the parser's errors (`ParserFindTagException`, `ParserFindUrlException`, and the `TypeError`/`KeyError` of a missing `<a>` or `href`);
  - `Run`, the outcome of a mode function: nothing (failed request), raised, or returned.
- `Text`: Python's `p in s`, its string order `<`, and ASCII decimal digits, with their properties.
- `Constants`: `EXPECTED_STATUS` and the facts about it.
- `Report`: the pure fold of the tally into the report. This covers the dict comprehension, `list.count`, `items()`, the stable `sort`, `sum` and the concatenation.
- `Pep`: the imperative pass.
  - `Pep.Pep` and `Pep.ScanPage` use the loops, `continue` and `break` of the source.
  - They are proved equal to the specification functions `ScanTerms`, `ScanRows` and `Reconcile`.
  - Lemmas state what those functions promise.
- `PepExample`: a two-PEP index (categories `A` and `Z`) worked through to the exact report and log.
- `Versions`:
  - the hand-written recogniser for the version pattern, proved sound, complete and leftmost;
  - the imperative `latest_versions()`, proved equal to `LatestVersionsRun`.

The outside world enters as parameters:

- A page that was fetched is `Some(page)`. A failed `get_response` is `None`.
- `urljoin(PEP_INDEX_URL, href)` and the per-URL fetch are the two functions of a `Pep.Web` value.
- A tag that `find_tag`/`find_siblings` cannot find becomes the constructor of the page datatype (`NoIndexSection`, `NoTableBody`, `NoFieldList`, `NoSidebar`) or a `None` sibling text, which leads to the matching error.

Two points of the code's behaviour that the model keeps:

- The status scan does not always stop at the first `Status` term. With an unknown category key, the `continue` at `src/main.py:129` skips the `break` at `src/main.py:137`, so the scan goes on. Later `Status` terms are tallied too, and each logs another unknown-key entry (`Pep.UnknownKeyScansEveryStatusTerm`).
- A page without the `rfc2822 field-list` `<dl>` makes `find_tag` raise, which ends the pass (`Pep.ScanRow`, error `FindTag("dl")`). A page with the list but no `Status` term adds nothing and logs nothing.

## Model

| member | source | states |
|---|---|---|
| Constants.ExpectedKeys | src/constants.py:9-18 | `EXPECTED_STATUS` has exactly the keys `A, D, F, P, R, S, W` and the empty key |
| Constants.KeysAreShort | src/constants.py:10-17 | every key is empty or one character long |
| Constants.ExpectationsNonEmpty | src/constants.py:10-17 | every expected-status list is non-empty |
| Constants.AcceptedUnderA | src/constants.py:10 | key `A` accepts exactly `Active` and `Accepted` |
| Constants.DefaultCategoryAcceptsDraftAndActive | src/constants.py:17 | the empty key accepts exactly `Draft` and `Active` |
| Constants.ActiveUnderTwoKeys | src/constants.py:10-17 | `Active` is accepted under exactly the keys `A` and the empty key |
| Constants.SingleStatusKeys | src/constants.py:11-16 | `D, F, P, R, S, W` each accept exactly one status, the one listed |
| Text.ContainsWitness | src/main.py:121 | where the substring test `'Status' in text` holds, an index exists at which the pattern occurs |
| Text.OccurrenceContained | src/main.py:121 | an occurrence at any index makes the substring test hold |
| Text.ContainsIffOccurs | src/main.py:58 | `p in s` holds if and only if `p` occurs in `s` at some index (both directions) |
| Text.ShorterDoesNotContain | src/main.py:121 | a text shorter than the pattern never contains it |
| Text.BelowIrreflexive | src/main.py:142 | the string order used by `sort` is irreflexive |
| Text.BelowTransitive | src/main.py:142 | the string order is transitive |
| Text.BelowTotal | src/main.py:142 | two different strings are ordered one way or the other |
| Text.BelowAsymmetric | src/main.py:142 | the string order is asymmetric |
| Report.FirstOccurrences | src/main.py:139-141 | the dict's keys: no label twice, and exactly the labels of the tally |
| Report.CountsOf | src/main.py:139-140 | one `(label, tally.count(label))` pair per label, in label order |
| Report.Insert | src/main.py:142 | inserting a row adds exactly that row (as a multiset) and its count to the sum |
| Report.SortByLabel | src/main.py:142 | the sort permutes its rows (same multiset) and keeps the sum of counts |
| Report.InsertAscending | src/main.py:142 | inserting a row with a fresh label into strictly ascending rows keeps them strictly ascending |
| Report.SortAscending | src/main.py:142 | rows with distinct labels come out of the sort strictly ascending by label |
| Report.CountsOfCons | src/main.py:139-140 | one more tally entry `x` raises the summed counts by the multiplicity of `x` among the labels |
| Report.DistinctCountOne | src/main.py:139-140 | a label of a duplicate-free key list occurs in it once |
| Report.CountsCoverTally | src/main.py:139-143 | counting each of a duplicate-free list of labels covering the tally sums to the tally's length |
| Report.CountedIsCountTable | src/main.py:139-141 | `status_counts.items()` holds exactly the pairs `(x, count of x)` for `x` in the tally, with distinct labels |
| Report.SummaryIsCountTable | src/main.py:139-142 | the body rows are strictly ascending by label, hold exactly the `(status, count)` pairs of the tally, and every count is positive |
| Report.TotalIsTallySize | src/main.py:143 | the Total equals the number of tallied statuses, and so does the sum of the body counts |
| Report.TableShape | src/main.py:144-145 | the table is the header, then one row per body pair in order, then `('Total', total)` |
| Report.ReportShape | src/main.py:139-145 | the report has the body's length plus two rows: header `('Status', 'Amount')`, the sorted body rows, footer `('Total', number of tallied statuses)` |
| Pep.CategoryKey | src/main.py:112 | the key is the previous cell's text with its first character removed; empty stays empty |
| Pep.PepRefs | src/main.py:110 | the selected cells are exactly those whose string matches `^\d+$`, and no more than the cells |
| Pep.PepRefsAppend | src/main.py:110 | the selection keeps document order and multiplicity: the cells picked from `a + b` are those from `a` followed by those from `b` |
| Pep.PepRefsSingle | src/main.py:110 | a single cell is picked once exactly when its string matches `^\d+$`, and otherwise not at all |
| Pep.Prepend | src/main.py:123-136 | appending an empty scan before a result leaves it unchanged |
| Pep.PrependPrepend | src/main.py:123-136 | appending in two steps is appending the concatenation |
| Pep.PrependThen | src/main.py:111-137 | appends made before a page carry over past the rest of the outer loop |
| Pep.Pep | src/main.py:101-151 | `pep()` returns exactly `Reconcile`: nothing when the index fetch fails, the raised error of a missing `section`, `tbody`, sibling, `href` or `dl`, or the report over the tally with the discrepancy log |
| Pep.ScanPage | src/main.py:119-137 | the inner loop over the `<dt>` terms appends to the tally and log exactly what `ScanTerms` specifies, or raises its error |
| Pep.StatusTerms | src/main.py:120-121 | the terms kept are exactly those whose text contains `Status` |
| Pep.StatusTermsAppend | src/main.py:120-121 | the `Status` terms keep page order and multiplicity: those of `a + b` are those of `a` followed by those of `b` |
| Pep.StatusTermsSingle | src/main.py:121 | a single term is kept once exactly when its text contains `Status` |
| Pep.StatusTermsFirst | src/main.py:120-121 | the first of the `Status` terms is the page's first term whose text contains `Status`; no earlier term does |
| Pep.SiblingTexts | src/main.py:122 | the next-sibling texts exist exactly when every term has a sibling, and then are those texts in order |
| Pep.UnknownKeyScansEveryStatusTerm | src/main.py:120-129 | with an unknown key the scan does not stop: every `Status` term's status is tallied, each with its own unknown-key entry naming the page URL, and no status is compared |
| Pep.KnownKeyStopsAtFirstStatus | src/main.py:120-137 | with a known key only the first `Status` term's status is tallied, and a mismatch listing URL, status and expected list is logged exactly when the status is not expected |
| Pep.PageDiscrepanciesAreTallied | src/main.py:122-136 | a page logs at most as many entries as it tallies; unknown-key entries only for an unknown key; every mismatch names a tallied, unexpected status |
| Pep.ScanRowsAppend | src/main.py:111-137 | the outer loop over `a + b` is the loop over `a` followed by the loop over `b` |
| Pep.FailedFetchAddsNothing | src/main.py:114-116 | a row whose page fails to load changes neither tally, nor log, nor raised error |
| Pep.DiscrepanciesAreTallied | src/main.py:111-137 | over the whole index the log is no longer than the tally, and every mismatch's status is tallied |
| Pep.ReportTotalCountsDiscrepantEntries | src/main.py:123-145 | the returned report is built from the whole tally; its Total row counts every tallied status, discrepant or not, and is at least the number of log entries |
| Pep.MissingTableBodyAbortsFirst | src/main.py:107 | a missing `tbody` raises before any PEP page is fetched, whatever the web returns |
| PepExample.ExampleRefs | src/main.py:110 | the title cell is skipped, the two number cells kept |
| PepExample.ExamplePage1 | src/main.py:120-137 | key `A` with status `Accepted` tallies it and logs nothing |
| PepExample.ExamplePage2 | src/main.py:120-129 | unknown key `Z` with status `Draft` tallies it and logs one unknown-key entry |
| PepExample.ExampleReport | src/main.py:139-145 | the tally `Accepted, Draft` gives `[(Status, Amount), (Accepted, 1), (Draft, 1), (Total, 2)]` |
| PepExample.UnknownKeyExample | src/main.py:101-151 | the whole pass on the two-PEP index returns that report and the single unknown-key entry for the second PEP |
| Versions.DigitsFrom | src/main.py:65 | greedy `\d+`: the run read is all digits and is followed by a non-digit or the end |
| Versions.LineEnd | src/main.py:65 | `.` stops at a newline: the span has no newline and ends at one or at the end |
| Versions.LastClose | src/main.py:65 | the greedy `.*\)` backs off to the last `)` of the line |
| Versions.DigitsFromExact | src/main.py:65 | a digit run ended by a non-digit is read whole |
| Versions.MatchAtSound | src/main.py:65-70 | a match yields a version of the form `D.D+`, a one-line status, and the pattern's text occurs there with those groups |
| Versions.MatchAtComplete | src/main.py:65-70 | wherever the pattern's text occurs, a match starts there with that version and a status extending the occurrence's |
| Versions.SearchFromLeftmost | src/main.py:68 | a successful `re.search` returns the match at the leftmost matching position |
| Versions.SearchFromFinds | src/main.py:68 | `re.search` succeeds whenever some position matches |
| Versions.VersionMatchIffOccurs | src/main.py:68-72 | the search succeeds exactly on texts containing the pattern's text for some valid version and one-line status, and its groups are such a pair |
| Versions.VersionMatchRoundTrip | src/main.py:65-70 | a link text made of `Python v (s)` alone gives back exactly `(v, s)` |
| Versions.UnmatchedTextKept | src/main.py:71-72 | a text without the pattern gives `(text, '')` |
| Versions.FirstAllVersions | src/main.py:57-62 | the index found is the first list whose text contains `All versions`; none when no list does |
| Versions.LinkRowsPerLink | src/main.py:66-75 | the rows exist exactly when every link has an `href`, and then there is one per link, in link order |
| Versions.ReadLinks | src/main.py:66-75 | the loop over the links builds exactly the rows `LinkRows` specifies, or stops at a link without `href` |
| Versions.LatestVersions | src/main.py:48-76 | `latest_versions()` returns exactly `LatestVersionsRun`: nothing on a failed fetch, the error of a missing sidebar, the error when no list mentions `All versions`, the error of a missing `href`, or the header and rows |
| Versions.NoVersionListIffRaised | src/main.py:57-62 | the `for`/`else` raises exactly when no list of the sidebar mentions `All versions` |
| Versions.LatestVersionsTable | src/main.py:64-76 | the returned table is the Russian header, then one row per link of the chosen list in link order, holding its `href` and the version and status read from its text |

## Left out

- HTTP and caching (`get_response`, `requests_cache`): a page is an input `Option`. A failed request is `None`. Logging of the failure is not modelled.
- `urljoin`: `Web.resolve`, an arbitrary function parameter.
- BeautifulSoup parsing, `find_all` descendant search and `find_tag`/`find_siblings`: the pages arrive already reduced to the cells, terms, lists and links the code reads. A tag that is not found is a constructor or a `None` text. Attribute filters such as `{'id': 'numerical-index'}` are part of that abstraction.
- A `<td>` whose `.string` is `None` (several children): the model gives every cell a string. Such a cell is never selected by the source, and here it can only be modelled as a cell whose string is not a digit run.
- `pep_ref.a['href']`: a missing `<a>` (`pep_ref.a` is `None`, so indexing it raises `TypeError`) and a missing `href` (`KeyError`) are one error, `MissingHref`.
- The text of the log messages (Russian f-strings) and their printing through `tqdm.write`: the log is the `Discrepancy` list in discovery order.
- `whats_new()` and `download()`: page scraping and file writes with no logic beyond plumbing.
- `main()`, argument parsing, logging setup, `tqdm` progress, `control_output`: CLI and output rendering.
- Versions.IsVersion: `\d` is modelled as the ASCII digits `0`–`9`. Python's `\d` on `str` also matches other Unicode decimal digits. The same holds for `Text.IsDigitRun` in `^\d+$`.
- General regular-expression semantics: only the two patterns the core uses are recognised by hand.
- Pep.ScanPage and Versions.ReadLinks: these helper methods hold the inner loop of `pep()` and the link loop of `latest_versions()`. The source writes those loops inline; the behaviour is the same.

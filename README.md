# Paper downloaders: a Dafny model

Three Python scripts gather paper metadata and then fetch the PDFs:

- `google_scholar_search.py` requests Google Scholar result pages, up to 100 of them, ten results a page. It stops at the first empty page. It reads title, link, authors and year from each result block, then sorts all records by year, with year-less records last.
- `sci_hub_downloader.py` groups those records by year into parallel lists of URLs, sanitised file names and metadata. It then visits the years in first-occurrence order and tries each paper once on Sci-Hub. A paper whose download button cannot be found or clicked, or whose downloaded file cannot be renamed, goes into a `not_found` ledger. This holds up to the first exception that leaves the loop: a failed page load, or a metadata list too short to record the failure. The ledger is written out on every exit path once the browser driver has started.
- `arxiv_downloader.py` groups arXiv ids by the month their number starts with. It visits the months in ascending order and runs `paper -d <month> <ids…>` for each.

The model is split into modules:

- `Wrappers` holds `Option` and `Result`.
- `Text` covers the Python string operations the scripts use: `str(int)`, `split`/`join` on one character, `strip`, `find`, and replacing one character with another.
- `Grouping` holds the generic "filter by key" and "keys in first-occurrence order" functions, with their partition lemmas.
- `Sorting` is a stable sort by an integer key, standing in for Python's `sorted(..., key=...)`.
- One module per script: `SciHub`, `Scholar` and `Arxiv`.

Where the scripts loop and update state, the model is a method with a loop. Each such method is proved against a specification function. Where the code only computes a value, the model is a function with lemmas.

The effects are handled as follows:

- The browser and the file system become parameters. Each is an oracle giving the outcome of one action: Sci-Hub's answer for item i of a directory, the result blocks of a page URL, whether `os.makedirs` succeeds.
- What a script does to the outside world is returned as data: the ledger that gets written, the URLs requested, the (directory, command) pairs run.

Two facts about the code shape the model:

- Each paper is attempted once; nothing is retried.
- The arXiv month key is the first 4 characters of the id, and the id is the text between the first and the second `:` of the index.

## Model

| member | source | states |
|---|---|---|
| SciHub.SanitizedName | sci_hub_downloader.py:30 | the file name has length `len(paper_name)+4` and ends in `.pdf`; each `/` becomes `-`, each space becomes `_`, every other character is kept; so it contains no `/` and no space |
| SciHub.YearKey | sci_hub_downloader.py:22 | `entry.get("year", "Unknown")`: the entry's year, or `"Unknown"` when it has none; EachRecordInOneBucket shows each record lands under this key |
| SciHub.ReadGoogleResults | sci_hub_downloader.py:11-40 | fails exactly when some entry has no `paper_name`, and reports the first such entry; otherwise the result is the grouping: years in first-occurrence order, and under each year the URLs, names and metadata of exactly that year's entries, in input order |
| SciHub.BucketsParallel | sci_hub_downloader.py:27-38 | in every year bucket, `urls`, `names` and `metadata` have equal length; their i-th elements come from the same entry; every metadata record's `year` is the bucket's key |
| SciHub.MetadataOf | sci_hub_downloader.py:33-38 | the metadata dict of an entry: its url, name, authors and year key; BucketsParallel and BucketsKeepOrder show each bucket holds exactly these records |
| SciHub.BucketsKeepOrder | sci_hub_downloader.py:21-38 | the t-th metadata record of a bucket is the record of the t-th input entry having that year |
| SciHub.EachRecordInOneBucket | sci_hub_downloader.py:21-38 | each entry's record is in the bucket of its own year (or `"Unknown"`) and in no other bucket |
| SciHub.GroupingIsPartition | sci_hub_downloader.py:21-33 | the bucket sizes, summed over the years, equal the number of entries |
| SciHub.YearsInFirstOccurrenceOrder | sci_hub_downloader.py:27-28 | if year A is listed before year B, some entry of year A comes before any entry of year B |
| SciHub.StepAt | sci_hub_downloader.py:92-113 | an item counts as missed only when `paper_metadata[i]` exists; a clicked button with no rename attempted always counts as saved |
| SciHub.RenameAttempted | sci_hub_downloader.py:98 | the guard `file_names and i < len(file_names)`: a rename is tried only for an index inside a non-empty name list; StepAt shows an item without one counts as saved once clicked |
| SciHub.StopIndex | sci_hub_downloader.py:87-113 | never past the number of items; its meaning, the first item that raises, is StopIndexMeaning |
| SciHub.StopIndexMeaning | sci_hub_downloader.py:87-113 | the loop runs until the first item that raises, and every earlier item completes; an item raises when `driver.get` fails (it sits outside the `try`) or when its failure handler raises (a short `paper_metadata`) |
| SciHub.MissedIndices | sci_hub_downloader.py:108-113 | lists, in increasing order, exactly the processed items that failed |
| SciHub.Misses | sci_hub_downloader.py:108-113 | the records the first n items append to `not_found`; MissesAreFailedItems, MissesBound and MissesFromMetadata state what they are |
| SciHub.MissesAreFailedItems | sci_hub_downloader.py:111 | the ledger entries of one call are `paper_metadata[i]` for the failed items i, one each, in processing order |
| SciHub.MissesBound | sci_hub_downloader.py:87-113 | one call adds at most `len(url_list)` entries, since nothing is retried |
| SciHub.MissesFromMetadata | sci_hub_downloader.py:111 | every entry a call adds comes from its `paper_metadata` |
| SciHub.FailureLedger.constructor | sci_hub_downloader.py:126 | `not_found` starts empty |
| SciHub.FailureLedger.Append | sci_hub_downloader.py:111 | `not_found.append(m)` adds exactly m at the end |
| SciHub.DownloadFromSciHub | sci_hub_downloader.py:76-115 | raises exactly when some item raises, either because `driver.get` fails outside the `try` or because its failure handler raises; the shared ledger grows by exactly the misses before that item, in order |
| SciHub.PathJoin | sci_hub_downloader.py:135 | `os.path.join` on POSIX ends with the part, and an absolute part replaces the base |
| SciHub.PathJoinMeaning | sci_hub_downloader.py:135 | for a relative part, the result is the base, then one `/` exactly when the base is non-empty and does not already end in `/`, then the part |
| SciHub.YearOutcome | sci_hub_downloader.py:135-146 | one year adds at most as many ledger entries as the year has URLs, all taken from that year's metadata |
| SciHub.Fold | sci_hub_downloader.py:128-146 | the year loop inside its `try`: each key's iteration appends its entries, and the first exception skips the remaining keys (RunYearsAfterAbort) |
| SciHub.RunYears | sci_hub_downloader.py:134-146 | the ledger and abort flag after the first y years in dict order; RunYearsStep, RunYearsDirFailed and RunYearsDownloaded give its step |
| SciHub.RunYearsStep | sci_hub_downloader.py:134-146 | while no exception has occurred, one more year appends that year's ledger entries and ends the loop when that year raised |
| SciHub.RunYearsDirFailed | sci_hub_downloader.py:135-136 | a failing `os.makedirs` ends the loop without touching the ledger |
| SciHub.RunYearsDownloaded | sci_hub_downloader.py:139-146 | after a successful `os.makedirs`, the year adds exactly what `download_from_scihub` appended and ends the loop exactly when that call raised |
| SciHub.DownloadYear | sci_hub_downloader.py:134-146 | one pass of the year loop leaves the ledger and the abort flag equal to the state after one more year of the run |
| SciHub.RunYearsAfterAbort | sci_hub_downloader.py:128-150 | once an exception leaves the year loop, no later year is processed |
| SciHub.RunYearsBound | sci_hub_downloader.py:134-146 | after y years, the ledger holds at most as many entries as those years have URLs |
| SciHub.GroupingIsTagged | sci_hub_downloader.py:33-38 | every record in a bucket carries that bucket's year |
| SciHub.OutcomeTagged | sci_hub_downloader.py:139-146 | what each year's iteration adds to the ledger carries that year |
| SciHub.RunYearsVisitedOnly | sci_hub_downloader.py:134-146 | after y years, every ledger entry belongs to one of those y years |
| SciHub.AbortKeepsProcessedOnly | sci_hub_downloader.py:128-153 | when the run aborts during year y, the ledger written in `finally` holds failures of years up to y only |
| SciHub.LedgerWithinBuckets | sci_hub_downloader.py:134-153 | after the whole run, the ledger holds at most as many entries as all year buckets have URLs together |
| SciHub.LedgerAtMostRecords | sci_hub_downloader.py:118-153 | the written ledger never has more entries than there were input records |
| SciHub.DownloadPapersByYear | sci_hub_downloader.py:118-157 | if the driver cannot start, nothing is written; if the home page fails, an empty ledger is written; otherwise the ledger of the year-by-year run, stopped at the first exception, is written |
| Scholar.Truthy | google_scholar_search.py:19-22 | Python truthiness of `start_year`/`end_year`: None and 0 are false; LowerYearParameter and UpperYearParameter show it decides whether `as_ylo`/`as_yhi` appear |
| Scholar.PageParams | google_scholar_search.py:15-22 | the query parameters in the order the URL lists them; UrlIsJoinedParams and UrlQueryParameters show the URL is them joined by `&` |
| Scholar.UrlIsJoinedParams | google_scholar_search.py:10-24 | the URL is the base, `?`, and the parameters `start`, `q`, `hl`, `as_sdt=0,5`, then the optional `as_ylo` and `as_yhi`, joined by `&` |
| Scholar.BuildScholarPageUrl | google_scholar_search.py:10-24 | `build_scholar_page_url`; UrlIsJoinedParams, UrlQueryParameters, LowerYearParameter and UpperYearParameter state its shape |
| Scholar.UrlQueryParameters | google_scholar_search.py:15-22 | when the quoted query has no `&`, splitting the query string at `&` gives back exactly that parameter list |
| Scholar.LowerYearParameter | google_scholar_search.py:19-20 | `as_ylo` is present iff `start_year` is truthy, and then it is the fifth parameter, carrying `str(start_year)` |
| Scholar.UpperYearParameter | google_scholar_search.py:21-22 | `as_yhi` is present iff `end_year` is truthy, and then it is the last parameter, carrying `str(end_year)` |
| Scholar.YearParameters | google_scholar_search.py:19-22 | `as_ylo` is present iff `start_year` is truthy and `as_yhi` iff `end_year` is truthy; each carries its value; when both are present, `as_ylo` comes first |
| Scholar.ParseYearVal | google_scholar_search.py:78-86 | a digit string yields its value; anything else yields 999999 |
| Scholar.ParseYearValRoundTrip | google_scholar_search.py:83-84 | parsing `str(n)` gives back n |
| Scholar.ParseYearValNotAvailable | google_scholar_search.py:85-86 | `"N/A"` parses to 999999 |
| Scholar.SearchYear | google_scholar_search.py:61 | `re.search` finds the leftmost position where a whole-word year 18xx, 19xx or 20xx matches, or reports that none exists |
| Scholar.YearIn | google_scholar_search.py:61-62 | the year is `"N/A"` exactly when nothing matches; otherwise it is a 4-digit string in 1800..2099 occurring at a match, and YearInLeftmost fixes that match as the leftmost one |
| Scholar.YearInLeftmost | google_scholar_search.py:61-62 | `match.group(0)` of `re.search`: when the first whole-word year starts at i, the year is the four characters at i |
| Scholar.SplitAuthorsLine | google_scholar_search.py:53-62 | the authors/year split of a `.gs_a` line; the year is `"N/A"` or a 4-digit year in 1800..2099 |
| Scholar.SplitAuthorsWithoutSeparator | google_scholar_search.py:55-62 | with no `" - "` in the stripped line, the authors are that whole line (free of `" - "`) and the year is `"N/A"` |
| Scholar.SplitAuthorsAtSeparator | google_scholar_search.py:55-62 | with the first `" - "` at i, the authors are the stripped text before it, contain no `" - "`, and a year found occurs after the separator |
| Scholar.AuthorsWithoutSeparator | google_scholar_search.py:55-62 | the authors never contain `" - "` |
| Scholar.ParseBlockFields | google_scholar_search.py:35-73 | title is the stripped title text or "No title found"; url is the title element's link or "No direct link found"; a block without authors gives "No authors found" and "N/A" |
| Scholar.ParseBlock | google_scholar_search.py:35-73 | one block's record, given the title element bound when its link is read; ParseBlockFields states its fields |
| Scholar.Parsed | google_scholar_search.py:35-73 | one record per block, each url taken from the block's own title |
| Scholar.ParseScholarResults | google_scholar_search.py:27-75 | the loop builds `Parsed(blocks)` (corrected: each block reads its own title element) |
| Scholar.LastTitleStep | google_scholar_search.py:42 | `title_elem` after block i is block i's title, or the earlier value when block i has none |
| Scholar.LastTitleMeaning | google_scholar_search.py:41-45 | the title element still bound is that of the latest block with a title, and there is none exactly when no block so far had a title |
| Scholar.ParsedAsWritten | google_scholar_search.py:35-73 | one record per block |
| Scholar.AsWrittenAt | google_scholar_search.py:35-51 | record i of the code as written reads block i with the title element last bound at or before block i |
| Scholar.AsWrittenOnUntitledBlocks | google_scholar_search.py:41-51 | on a block without a title, the code as written reads the link of the title element bound by an earlier block |
| Scholar.AsWrittenNext | google_scholar_search.py:35-73 | reading one more block with the title element bound so far extends the records by exactly that block's record |
| Scholar.AsWrittenAgreesOnTitledBlocks | google_scholar_search.py:41-51 | on a block that has a title, the code as written and the corrected model agree |
| Scholar.ParseScholarResultsAsWritten | google_scholar_search.py:27-75 | the loop as written, with `title_elem` carried across blocks, builds `ParsedAsWritten(blocks)` |
| Scholar.StaleTitleLink | google_scholar_search.py:42-51 | for a titled block followed by an untitled one, the code as written gives the second record the first block's link |
| Scholar.YearVal | google_scholar_search.py:131 | the sort key `parse_year_val(item.get("year", "N/A"))` of a record; YearValBelowSentinel bounds it |
| Scholar.YearValBelowSentinel | google_scholar_search.py:78-86 | a record's sort key is 999999 iff its year is "N/A", and lies in 1800..2099 otherwise |
| Scholar.SortByYear | google_scholar_search.py:131 | `sorted(all_results, key=parse_year_val(year))`; SortBySorted, SortByPermutes, SortIsStable and YearlessSortLast state what it promises |
| Sorting.InsertBy | google_scholar_search.py:131 | inserting one element adds exactly one; InsertBySorted, InsertByPermutes and InsertKeepsEqualKeysOrder state where it goes |
| Sorting.SortBy | google_scholar_search.py:131 | the sort keeps the length; SortBySorted, SortByPermutes and SortIsStable state that it is a stable sort |
| Sorting.InsertBySorted | google_scholar_search.py:131 | inserting into a sorted list keeps it sorted, and the new head is the inserted element or the old head |
| Sorting.InsertByPermutes | google_scholar_search.py:131 | inserting adds exactly that element: the multiset grows by it |
| Sorting.SortBySorted | google_scholar_search.py:131 | `sorted(..., key=...)`: the output is non-decreasing in the key |
| Sorting.SortByPermutes | google_scholar_search.py:131 | the output is a permutation of the input |
| Sorting.InsertKeepsEqualKeysOrder | google_scholar_search.py:131 | inserting x puts it before every element of equal key already there |
| Sorting.SortIsStable | google_scholar_search.py:131 | records with equal keys keep their input order |
| Scholar.YearlessSortLast | google_scholar_search.py:131 | after sorting, no dated record follows a year-less one |
| Scholar.FullPages | google_scholar_search.py:102-124 | counts the pages before the first empty one, never more than the pages allowed |
| Scholar.FullPagesMeaning | google_scholar_search.py:118-124 | every counted page is non-empty, and the page after them, if any, is empty |
| Scholar.FullPagesStep | google_scholar_search.py:118-126 | while every page so far had results, one more page counts exactly when it has results |
| Scholar.FullPagesNext | google_scholar_search.py:108-124 | the records of the page requested with `start = 10*n` decide whether page n + 1 counts, and an empty one fixes the count at n |
| Scholar.FullPagesStable | google_scholar_search.py:122-124 | after the first empty page, later pages change nothing |
| Scholar.PageUrl | google_scholar_search.py:108-113 | the URL of the k-th request, built with `start = 10*(k-1)` and the default language (RequestedStart) |
| Scholar.PageResults | google_scholar_search.py:115-118 | the records parsed from the page the k-th URL returns |
| Scholar.Collected | google_scholar_search.py:118-126 | the records of pages 1..n in page order, what `all_results.extend` accumulates (CollectedNext) |
| Scholar.RequestedUrls | google_scholar_search.py:108-115 | one URL per request |
| Scholar.RequestedUrlsStep | google_scholar_search.py:103-115 | one more request appends the URL of the next page |
| Scholar.RequestedNext | google_scholar_search.py:108-115 | requesting the URL built with `start = 10*n` extends the requests so far by page n + 1 |
| Scholar.CollectedNext | google_scholar_search.py:108-126 | the records parsed from the URL with `start = 10*n` extend the collected records by page n + 1 |
| Scholar.PageUrlNext | google_scholar_search.py:108-113 | the URL built with `start = 10*n` is the URL of page n + 1 |
| Scholar.CollectedStep | google_scholar_search.py:126 | collecting one more page appends exactly that page's records |
| Scholar.RequestedUrlsAt | google_scholar_search.py:108-113 | the k-th request (from 0) is page k + 1 |
| Scholar.RequestedStart | google_scholar_search.py:108-113 | the k-th request (from 0) is the page URL with `start = 10*k` |
| Scholar.ScrapeGoogleScholar100Pages | google_scholar_search.py:89-141 | requests are made until the first empty page, and at most 100; the k-th request has `start = 10*(k-1)`; the result is the stable year sort of the non-empty pages' records, in page order, each page read by the corrected parser |
| Scholar.CollectedYears | google_scholar_search.py:61-62 | every collected record's year is "N/A" or a 4-digit year in 1800..2099 |
| Text.NatToDecimal | google_scholar_search.py:17 | `str(n)` for n >= 0: non-empty digits worth n; NatToDecimalMeaning adds that there is no leading zero |
| Text.NatToDecimalMeaning | google_scholar_search.py:17 | `str(n)`: non-empty decimal digits whose value is n, with no leading zero (a string starting with `0` is `"0"` itself) |
| Text.IntToDecimal | google_scholar_search.py:17 | `str(i)`: non-empty, digits with at most a leading `-`, the numeral of i when i >= 0; IntToDecimalMeaning pins the negative case |
| Text.IntToDecimalMeaning | google_scholar_search.py:17 | `str(i)` starts with `-` exactly when i is negative, and the rest is the numeral of the absolute value of i: its digits, with no leading zero |
| Text.SplitWithoutSeparator | arxiv_downloader.py:13 | `split` of a string without the separator gives the string alone |
| Text.SplitAtSeparator | arxiv_downloader.py:13 | `split` cuts at the first separator and continues on the rest |
| Text.Split | arxiv_downloader.py:13 | `str.split` on one character gives at least one piece; SplitWithoutSeparator, SplitAtSeparator and SplitJoin state which |
| Text.Strip | google_scholar_search.py:55 | `str.strip()`: no whitespace at either end; StripSlice shows exactly the leading and trailing whitespace is removed |
| Text.StripSlice | google_scholar_search.py:55 | `str.strip()` gives the slice of the string left after removing its leading and its trailing whitespace: everything outside the slice is whitespace, and the slice neither starts nor ends with whitespace |
| Text.StripIdempotent | google_scholar_search.py:58 | stripping twice is stripping once |
| Text.Find | google_scholar_search.py:57 | `str.find` gives the leftmost occurrence, or reports that there is none |
| Text.BeforeFirstWithout | google_scholar_search.py:57-58 | the text before the first occurrence of a separator does not contain it |
| Text.ReplaceChar | sci_hub_downloader.py:30 | `str.replace` of one character replaces exactly its occurrences |
| Text.SplitHasSecond | arxiv_downloader.py:13 | `split(":")` has a second piece iff the string contains `:` |
| Text.SplitJoin | arxiv_downloader.py:23 | splitting a `' '.join` of pieces without spaces gives back the pieces |
| Text.Join | arxiv_downloader.py:23 | `' '.join(parts)`; SplitJoin shows splitting it gives the parts back |
| Grouping.FilterMembership | sci_hub_downloader.py:27-38 | an item is in the group of key k iff it is in the input and has key k |
| Grouping.FilterPositions | sci_hub_downloader.py:27-38 | the group of key k is the input items at the positions having key k, in input order |
| Grouping.PositionsAscending | sci_hub_downloader.py:27-38 | those positions are strictly increasing |
| Grouping.PositionsComplete | sci_hub_downloader.py:27-38 | every position having key k is among them |
| Grouping.KeysInOrder | sci_hub_downloader.py:27-28 | the keys are distinct, every item's key is among them, and each key is some item's key |
| Grouping.KeysFirstOccurrence | sci_hub_downloader.py:27-28 | a key listed earlier first occurs earlier in the input |
| Grouping.GroupsPartition | arxiv_downloader.py:11-17 | grouping by a key loses and duplicates nothing |
| Arxiv.LexLess | arxiv_downloader.py:19 | Python's `<` on strings: code-point lexicographic order; LexLessTransitive and LexLessTotal show it is a strict total order |
| Arxiv.LexLessTransitive | arxiv_downloader.py:19 | Python's string `<` is transitive |
| Arxiv.LexLessTotal | arxiv_downloader.py:19 | of two different strings, one is smaller |
| Arxiv.SortKeys | arxiv_downloader.py:19 | `sorted` of the distinct month keys is strictly ascending and holds exactly those keys |
| Arxiv.IdOf | arxiv_downloader.py:13 | the id is the second `:`-piece of the index and contains no `:` |
| Arxiv.MonthKey | arxiv_downloader.py:13 | the month key is a prefix of the id, 4 characters long or the whole id when shorter |
| Arxiv.Ids | arxiv_downloader.py:11-17 | one id per entry, in input order |
| Arxiv.GroupByMonth | arxiv_downloader.py:11-17 | fails exactly when some entry lacks an index (KeyError) or has no `:` (IndexError), and reports the first such entry and which error; otherwise builds `month_indices`, each month holding that month's ids in input order |
| Arxiv.BucketIdsStartWithMonth | arxiv_downloader.py:13-17 | every id under month k begins with k, and no month's list is empty |
| Arxiv.EachIdInOneBucket | arxiv_downloader.py:15-17 | each id is stored under its own month and under no other |
| Arxiv.BucketKeepsOrder | arxiv_downloader.py:15-17 | within a month, the t-th id is the t-th id of that month in the input |
| Arxiv.MonthGroupingIsPartition | arxiv_downloader.py:11-17 | the month lists, over all months, hold exactly as many ids as there were entries |
| Arxiv.Command | arxiv_downloader.py:23 | `paper -d <month> <ids joined by spaces>`; CommandWords shows it splits back into its words |
| Arxiv.CommandWords | arxiv_downloader.py:23 | with no spaces inside the month or the ids, the command splits into `paper`, `-d`, the month and then the ids |
| Arxiv.RunMonths | arxiv_downloader.py:19-28 | one (directory, command) per month, in sorted month order; the directory is the month and the command is `paper -d <month> <ids joined by spaces>` |
| Arxiv.ArxivDownloader | arxiv_downloader.py:11-28 | either stops at the first bad entry before any command runs, or runs one command per month, months ascending, each with that month's ids in input order |
| Arxiv.SortedMonthsAreMonths | arxiv_downloader.py:19 | the months visited are strictly ascending and are exactly the months of the ids |

## Left out

- Selenium is not modelled. This covers `init_driver`, its anti-detection script, page loads and element lookups. The result blocks of a page and Sci-Hub's answer for an item are oracle parameters instead.
- `time.sleep`, `print`, and the `input()` pause for the captcha are not modelled.
- Reading and writing JSON files is not modelled. The model starts from the parsed records and returns the ledger that would be written.
- Inputs whose JSON values have other types are not modelled: non-string years, `null` fields, numbers.
- The rename of the newest downloaded file is not modelled (`os.listdir`, `os.path.getctime`, `os.rename`). Whether the rename succeeds is part of the Sci-Hub oracle's answer.
- `os.makedirs` is a success/failure oracle in `download_papers_by_year`. In `arxiv_downloader.py` the directory shows up only as the batch's directory name.
- RunMonths: does not model a failing `os.makedirs` in `arxiv_downloader.py`. An index such as `"arXiv:"` gives the month `""`; `os.makedirs('')` raises at arxiv_downloader.py:21 and ends the script, while the model still yields a batch for that month.
- The `paper` subprocess is not run. The model returns the commands, and `shell=True` quoting is not modelled.
- `urllib.parse.quote` stays an uninterpreted function parameter.
- ParseYearVal: reads only ASCII digit strings. Python's `int()` also accepts surrounding whitespace, a sign, underscores and non-ASCII digits. Such strings map to 999999 here.
- SearchYear: `\b` and `\d` are taken as ASCII. Python's default Unicode regex also treats non-ASCII letters and digits as word characters and digits.
- ParseBlockFields: a link element whose `href` is missing (Python `None`) is not modelled. Every link found carries a string.
- ScrapeGoogleScholar100Pages: does not model a failure of `webdriver.Chrome()` or exceptions from the page loads. The method covers the loop and the sort once the driver is up.
- ScrapeGoogleScholar100Pages: parses each page with the corrected parser (`Parsed`), not the code as written. On a page where an untitled block follows a titled one, the program gives the untitled record the earlier block's link, while the model gives "No direct link found". The two agree on pages where every block has a title (AsWrittenAgreesOnTitledBlocks); see Findings.
- `arxiv_search.py` is not part of this model. It is scraping and pagination glue around loading, appending and dumping `results.json`.
- The `__main__` blocks of the scripts are not modelled.

## Findings

| source | as written | input that shows it | evidently intended | confidence | as-written member | corrected member |
|---|---|---|---|---|---|---|
| google_scholar_search.py:42-51 | when a result block has no `.gs_rt` title, the `except` sets the title text, but `title_elem` still holds the previous block's element; the link lookup then reads the previous paper's link | two blocks: the first titled with link `https://a.example`, the second untitled; the second record gets url `https://a.example` | a block without a title gets "No direct link found" | not executed | Scholar.ParseScholarResultsAsWritten, Scholar.StaleTitleLink | Scholar.ParseScholarResults |

# Security-feed backend: a verified model of its data core

The backend serves security feeds over HTTP:
- rekt-database incidents;
- data-leak reports;
- security news;
- phishing domains;
- CVE records by year;
- Web3 framework releases.

Scheduled jobs refresh the files behind these feeds. This project models the
parts of the backend that decide what each feed holds and what a request
returns. Those parts are:

- **Environment switches.** `env_bool` reads a switch from the environment.
- **Rekt incidents.** `filter_record` keeps fourteen fields of a record, unwraps the scam type and drops honeypots. The rekt refresh then sorts the kept records, newest date first.
- **Leak reports.** The leaks refresh removes `_pl` fields and sanitises descriptions.
- **News.** The news refresh drops items dated more than 24 hours in the future.
- **Phishing search.** `search_domain` compares domains without regard to case.
- **CVE filter.** `_filter_cve_items` drops rejected, unrated and unscored CVEs and sorts the rest by publication date.
- **CVE year cache.** In low-memory mode, `load_cve_year_data` keeps at most two years of CVEs in a first-in-first-out cache.
- **CVE refresh.** `refresh_cve_data` works in both the in-memory and the low-memory mode.
- **CVE pages.** `get_cves_data` pages the CVEs of one year or of all years, with its 400, 404, 500 and 503 answers.
- **Release digest.** The Web3 release generator classifies each release as other, pre-release, security, major, minor or patch, and builds the digest of all releases.
- **Countdown text.** The update scheduler writes its countdown as `HH:MM:SS`.
- **Clone directory.** The GitHub downloader derives a clone directory name from a repository URL.

Modules:

| module | file | concerns |
|---|---|---|
| `Wrappers` | wrappers.dfy | `Option`, `Result`, HTTP error codes |
| `Text` | text.dfy | ASCII `lower`, `strip`, `in`, `endswith`, `replace`, `split` |
| `Values` | values.dfy | decoded JSON values, Python truthiness, `dict.get` |
| `Sorting` | sorting.dfy | `list.sort(key=…, reverse=True)` on string keys: a stable insertion sort |
| `Paging` | paging.dfy | ceiling division, Python slices, concatenation of lists, page windows |
| `Cve` | cve.dfy | the CVE filter, the year cache, the CVE refresh and `get_cves_data` |
| `Feeds` | feeds.dfy | `env_bool`, the rekt, leaks and news refreshes, `search_domain` |
| `Releases` | releases.dfy | `get_release_type`, `process_release_files` |
| `Clock` | clock.dfy | `format_time` |
| `RepoNames` | reponames.dfy | `get_dirname` and the repository name as in the source, plus corrected versions |

Form of the model:
- Pure computations are functions with lemmas about them.
- Loops in the source are methods with loop invariants. Each method is proved equal to a specification function.
- The module-level caches the source mutates are classes with fields:
  - `Feeds.FeedCache` for the rekt, leaks and news caches;
  - `Cve.CveService` for `cve_cache`, `cve_year_cache` and `cve_year_cache_order`.
- Each file the code reads is passed in already decoded, as a `Values.Json` value.
- A directory listing is a sequence of `(stem, content)` pairs.
- A raised exception is a `Result` error or an `Option` `None`.

## Model

| member | source | states |
|---|---|---|
| Feeds.EnvBoolReading | backend/api.py:24-28 | An unset variable gives the default. A value padded with whitespace reads as true exactly when its trimmed, lower-cased text is `1`, `true`, `yes` or `on`. Case does not matter. |
| Feeds.EnvBoolExamples | backend/api.py:24-28 | `" On "` reads as true. An empty value reads as false even when the default is true. |
| Feeds.StripLower | backend/api.py:28 | `strip()` and `lower()` commute, so the order in which `env_bool` applies them does not matter. |
| Text.StripShape | backend/api.py:28 | `strip()` leaves no whitespace at either end, and the input is the result with whitespace added on both sides. |
| Text.StripOfPadded | backend/api.py:28 | Stripping whitespace padding gives back the trimmed text inside it. |
| Text.StripIdempotent | backend/api.py:28 | Stripping twice is stripping once. |
| Feeds.FilterRecordShape | backend/api.py:315-346 | A record is dropped exactly when it is not a dict or its scam type is `honeypot` (ignoring case and surrounding space). Otherwise the kept record has exactly the fourteen fields: each is copied with `get`, except `scam_type`, which is unwrapped from `{"type": …}`. |
| Feeds.WrapScamTypeRoundTrip | backend/api.py:318-323 | The filter accepts both shapes and reads back what the rekt puller writes (a `{"type": classification}` object): the classification, or `None` when the classification was falsy. |
| Feeds.KeptRecordsMembers | backend/api.py:431-436 | The kept records are exactly the filtered forms of the records that pass the filter. |
| Feeds.RektSpecContents | backend/api.py:407-442 | The refreshed rekt data holds exactly the filtered records. It is a permutation of them, newest date first, with records of equal date in file order and records without a date last. |
| Feeds.RektSpecFails | backend/api.py:416-439 | The refresh stores nothing exactly when the content is not a non-empty object with an `items` or `data` list, or when the sort meets a non-string date among two or more records. |
| Sorting.SortDescOrdered | backend/api.py:348-353 | The sort puts keys in descending string order and is a permutation of its input. |
| Sorting.SortDescStable | backend/api.py:439 | Records with the same key keep their input order, as Python's stable sort with `reverse=True` does. |
| Sorting.EmptyKeysLast | backend/api.py:348-353 | In the sorted list, a record whose `sort_key` is `""` (no date) is followed only by such records. |
| Feeds.FeedCache.RefreshRekt | backend/api.py:407-448 | The cache is replaced by the refreshed records, the file time and their count, or left as it was when the refresh returns early or raises. |
| Feeds.FilterRecords | backend/api.py:431-436 | The filter loop returns the kept records in file order. |
| Feeds.CleanLeakShape | backend/api.py:488-498 | A cleaned leak has no key ending in `_pl`, keeps every other key, and keeps its value unless the key is `description` or `references`. A description present becomes the sanitiser's `text`. `references` is set to the sanitiser's list only when that list is non-empty; with an empty list, only the description changes. A leak without a description is the record minus its `_pl` keys. |
| Feeds.CleanLeaksPointwise | backend/api.py:486-500 | The cleaned list has one entry per item, each the cleaned form of that item. |
| Feeds.CleanLeaksFails | backend/api.py:486-500 | The leaks refresh fails exactly when some item is not a dict or its sanitiser raises. |
| Feeds.CleanLeakItems | backend/api.py:486-500 | The cleaning loop computes the cleaned list, or the failure. |
| Feeds.FeedCache.RefreshLeaks | backend/api.py:473-509 | The cache is replaced by the cleaned list, or left as it was on an empty file or a failure. |
| Feeds.NewsKeptContents | backend/api.py:530-536 | An item is kept exactly when it is not dated more than 24 hours past now. Kept and dropped counts add up to the input length. Nothing is dropped exactly when the list is unchanged. |
| Feeds.NewsKeepsUndated | backend/api.py:532 | An item that is not a dict, or whose `pubDate` does not parse, is always kept. |
| Feeds.DropFutureNews | backend/api.py:526-536 | The loop returns the kept items and the number dropped. |
| Feeds.FeedCache.RefreshNews | backend/api.py:511-553 | The cache is replaced by the kept items, or left unchanged when the file is empty or not a list (or a dict with a `data` list). |
| Feeds.AnyMatchMeaning | backend/api.py:862 | The scan answers true exactly when some entry matches ignoring case and every entry before it is a string. It answers false exactly when all entries are strings and none matches. Otherwise it raises. |
| Feeds.SearchIgnoresCase | backend/api.py:855-868 | The search gives the same answer for a domain and its lower-case form. |
| Cve.RetainedMembers | backend/api.py:675-682 | An item is retained exactly when it is a dict that is neither rejected, nor of severity `brak`/`none`, nor unscored without a severity. |
| Cve.FilteredCveContents | backend/api.py:670-685 | The filtered list is a permutation of the retained items, sorted by `publishedDate` descending, stable among equal dates. A single object is read as a one-element list. |
| Cve.FilteredCveFails | backend/api.py:670-685 | The filter raises exactly when some item is not a dict, or two or more retained items include one whose `publishedDate` is not a string. |
| Cve.FilterCveItems | backend/api.py:670-685 | The filter loop and sort compute the filtered list, or the failure. |
| Cve.LoadStepKeepsInv | backend/api.py:100-103 | A load keeps the cache's keys equal to its order list, with no repeats and at most `MAX_CVE_YEARS_IN_MEMORY` = 2 years. |
| Cve.LoadStepResult | backend/api.py:688-703 | A hit returns the cached list and changes nothing, not even the order. A miss returns the filtered file. A successful miss caches it: with room, the map gains the year and the year is appended to the order; on a full cache, the oldest year is also removed. An error changes nothing. |
| Cve.LoadStepEvictsOldest | backend/api.py:698-701 | Loading a third year evicts the earliest-inserted year and keeps the other. |
| Cve.FifoNotLru | backend/api.py:688-703 | Concrete run: re-reading 2023 does not refresh its place, so loading 2025 next evicts 2023. |
| Cve.LoadStepCoherent | backend/api.py:688-703 | If every cached list equals what the filter makes of its file, a load returns exactly the uncached result and keeps that property. |
| Cve.LoadAllKeepsInv | backend/api.py:948-949 | Loading every year in turn keeps the cache invariant. |
| Cve.LoadAllCoherent | backend/api.py:948-949 | Loading every year through a coherent cache gives the same lists as reading each file directly. |
| Cve.CveService.LoadYear | backend/api.py:688-703 | The method performs exactly one cache step on the fields and keeps the invariant. |
| Cve.InMemoryStoreShape | backend/api.py:605-650 | The in-memory store is non-empty, holds only non-empty years, newest year first. |
| Cve.CollectYearsNonEmpty | backend/api.py:632-638 | Only years with retained items are collected. |
| Cve.CollectYearData | backend/api.py:607-638 | The per-file loop collects the non-empty filtered years, or fails as the filter does. |
| Cve.CveService.Refresh | backend/api.py:586-658 | An empty directory changes nothing. Low-memory mode keeps only the descending year list and clears the year cache. In-memory mode stores the years newest first; it changes nothing when no year is non-empty or a file makes the filter raise. |
| Cve.GetCvesRejectsBadParameters | backend/api.py:895-903 | Once data is loaded, a page below 1 or a size outside 1..1000 is answered 400 and changes nothing. |
| Cve.YearResponsePaging | backend/api.py:921-938 | A year's page: 404 exactly for an empty year, 400 exactly past the last page. Otherwise the records run from `(page-1)*size` to `min(page*size, total)`: between 1 and `size` records, and the page count is the ceiling of total/size. |
| Cve.YearPagesCoverYear | backend/api.py:921-938 | Reading pages 1 to `total_pages` of a year in turn gives back the whole year. |
| Cve.PageYear | backend/api.py:921-938 | The year-page code computes the year response. |
| Paging.PagesCoverAll | backend/api.py:925-934 | The page windows `1..ceil(n/size)` concatenate to the whole list. |
| Paging.PageWindowShape | backend/api.py:930-932 | A page within the page count is the slice from `(page-1)*size` to `min(page*size, n)`, holding between 1 and `size` records. |
| Paging.CeilDivIsCeiling | backend/api.py:925 | `(n + size - 1) // size` is the ceiling of n/size, and is 0 exactly for n = 0. |
| Cve.LowMemoryAllYears | backend/api.py:941-968 | With a coherent cache, the low-memory all-years page is computed from the uncached year lists. It publishes the descending year list and leaves the cache coherent. |
| Cve.LowMemoryResponseShape | backend/api.py:941-968 | The page counts every year's records, and its data is the window at `(page-1)*size` of the years' lists concatenated: at most `size` records. |
| Paging.SkipTakeFull | backend/api.py:952-953 | Once the page is full, later years add nothing to it. |
| Paging.SkipTakeSkips | backend/api.py:955-957 | A year no longer than what is still to be skipped is skipped whole. |
| Paging.SkipTakeTakes | backend/api.py:959-962 | Otherwise the page takes that year's records after the skip, up to what the page can still hold, and the result is the next part of the window. |
| Cve.SkipTake | backend/api.py:952-962 | One skip/take step extends the window of the concatenation by the next year. |
| Cve.CveService.WalkYears | backend/api.py:946-962 | The loop over the years leaves the cache as loading every year in turn does. It returns the total record count and the window `[offset, offset+size)` of the concatenated years, or the first error. |
| Cve.CveService.PageAllYears | backend/api.py:941-968 | The low-memory all-years branch equals its specification: new year list, new cache, and the response. |
| Cve.EmptyDataContrast | backend/api.py:964-975 | With no records, the low-memory path answers page 1 with zero pages, while the in-memory path answers 400. |
| Cve.PageInMemory | backend/api.py:969-983 | The in-memory all-years code computes the page of the years' lists concatenated. |
| Cve.CveService.GetCves | backend/api.py:888-993 | The request handler equals its specification. It answers 503 before any data is loaded, then applies the parameter checks, the year path in each mode, and the all-years path in each mode. The state changes only as the low-memory loads and the year listing change it. |
| Releases.LabelsDistinct | backend/generate_web3_releases.py:13-32 | The six release types have six distinct labels. |
| Releases.ClassifyReleaseMeaning | backend/generate_web3_releases.py:13-32 | A tag whose first dotted part (after the leading `v`s) is not all digits is `other`. Otherwise a tag mentioning alpha/beta/rc/dev is `pre-release`. Otherwise the lower-cased notes decide, each stated as an iff: `security`, `major`, `minor` or `patch`, in that priority. An empty or missing body of any kind gives `patch`. Only a truthy body that is not a string raises. |
| Releases.ClassifyIgnoresNoteCase | backend/generate_web3_releases.py:24 | Release notes are compared without regard to case. |
| Releases.TransformKeep | backend/generate_web3_releases.py:55-78 | A kept release is a non-draft entry with a truthy `tag_name`. Its name is the `name` when that is truthy, and the tag otherwise. Its notes are the first 500 characters (or list entries) of `body`, or `""` when the body is falsy. Its type is what `get_release_type` says of the tag and body, and its framework is the file stem. Author, dates, URL and flags are copied with their defaults. |
| Releases.TransformSkipsUntagged | backend/generate_web3_releases.py:56-57 | An entry without a truthy `tag_name` is skipped. |
| Releases.ScanFileSound | backend/generate_web3_releases.py:54-78 | Every release a file contributes comes from one of its entries. |
| Releases.ScanFileComplete | backend/generate_web3_releases.py:54-78 | When no entry raises, the file is processed in full and every kept entry is in the result. |
| Releases.ScanFileStops | backend/generate_web3_releases.py:82-84 | After an entry raises, the rest of the file is not processed; what was appended before stays. |
| Releases.ProcessFile | backend/generate_web3_releases.py:55-78 | The per-file loop appends exactly the file's contribution. |
| Releases.DigestContents | backend/generate_web3_releases.py:86-98 | The digest's releases are a stable permutation of all files' contributions, newest `created_at` first. `total_releases` is their number. The framework set is exactly the frameworks that occur. Every release is the non-draft transform of an entry of the file it names. |
| Releases.ProcessReleaseFiles | backend/generate_web3_releases.py:34-103 | The file loop and sort compute the digest, or nothing when the sort raises. |
| Clock.FormatTimeFields | backend/update_all_data.py:25-30 | The hours are floored, minutes and seconds lie in 0..59, and `hours*3600 + minutes*60 + seconds` is the input. |
| Clock.FormatTimeRoundTrip | backend/update_all_data.py:25-30 | Reading the text back as `H:MM:SS` gives the input, negative inputs included. |
| Clock.FormatTimeWidth | backend/update_all_data.py:25-30 | Under a hundred hours the text is eight characters, with colons at positions 2 and 5. |
| Clock.FormatTimeExamples | backend/update_all_data.py:25-30 | 7200 seconds is `02:00:00`; a hundred hours is `100:00:00`. |
| RepoNames.CloneDirNameAsWrittenShape | backend/github_downloader.py:8-20 | As written, the directory is one path segment with no upper-case letters, no longer than the URL's last segment. |
| RepoNames.GetDirnameAsWrittenPlain | backend/github_downloader.py:11 | A name that contains no `.git` is only lower-cased. |
| RepoNames.GithubPagesNameMangled | backend/github_downloader.py:11-20 | As written, `https://github.com/a/a.github.io` has the repository name `ahub.io` and is cloned into the directory `ahub.io`. |
| RepoNames.UpperGitSuffixAsWritten | backend/github_downloader.py:11-20 | As written, `.GIT` survives the case-sensitive name extraction, and `get_dirname` removes it after lower-casing: `https://x/Repo.GIT` is cloned into `repo`. |
| RepoNames.StripGitSuffixMeaning | backend/github_downloader.py:10 | The corrected name drops only a trailing `.git`; putting it back gives the original. |
| RepoNames.CloneDirNameShape | backend/github_downloader.py:8-20 | The corrected directory is one path segment with no upper-case letters. |
| RepoNames.CloneDirNameMeaning | backend/github_downloader.py:8-20 | The corrected directory is the URL's last segment, lower-cased, with only trailing `.git` parts removed. A segment that does not end in `.git` is only lower-cased. |
| RepoNames.CloneDirNameExamples | backend/github_downloader.py:17 | Corrected, `a.github.io` keeps its name, and `Repo.git` becomes `repo`. |

## Left out

- File reading and JSON decoding. Every refresh and load is given the decoded content. A directory listing is a sequence of `(stem, content)` pairs. Unreadable or malformed files, and the `last_file` and `last_updated` fields, are not modelled. File modification times are an input string.
- `sync_cve_year_file` and everything else that calls the network, and the current year it is called for. The current time is an integer parameter of the news refresh.
- Logging, the FastAPI routing and the background-task scheduling. Refreshes and requests are sequential calls; concurrent refreshes are not modelled.
- `sanitize_description` (HTML parsing) and `parse_news_datetime` (date parsing) are parameters of the leaks and news refreshes. The model assumes the sanitiser raises for a non-string description.
- Feeds.EnvBool, Text.Lower, Text.Strip: `lower()` is modelled for ASCII, and whitespace as ASCII plus Latin-1 spaces. Other Unicode case mappings and spaces are not modelled.
- Releases.ClassifyRelease: `isdigit()` is modelled for ASCII digits only.
- Sorting.SortDesc: the sort treats two or more keys that are not all strings as the `TypeError` Python raises. Keys that Python would sort though they are not strings, such as all numbers, all booleans or all lists, count as a failure too.
- Dict key order is not modelled: cleaned leaks and filtered records are maps.
- The web3 releases file's `frameworks` list is modelled as a set; its order is not fixed in the source either.
- Two CVE files with the same stem cannot occur in one directory. The model takes the first with `FileFor` and does not address duplicates.
- `get_cve_files` looks up a year with `glob(f"{year}.json")` (backend/api.py:253), so a year such as `202*` matches files by pattern and is cached under the key `202*`. `FileFor` matches the stem exactly, and such a year gets 404 in the model.
- Cve.CveService.GetCves: the year cache returns a stale list when a file changes after it was cached. The lemmas about coherence assume the cache matches the files.
- EOL, phishing, ransomware and other feeds outside the modelled refreshes are not part of this model, nor are the data pullers except the `scam_type` wrapping at rekt_db_pull.py:115.
- `clone_github_repo` beyond the directory name (`os.makedirs`, `git clone`, return codes) is not modelled.

## Findings

| source | as written | input that shows it | evidently intended | confidence | as-written member | corrected member |
|---|---|---|---|---|---|---|
| backend/github_downloader.py:17 (also :11) | `repo_url.split('/')[-1].replace('.git', '')` removes every `.git` in the name, and `get_dirname` does it again | `https://github.com/a/a.github.io` gives `ahub.io` | remove only the trailing `.git` suffix ("remove .git if present"), keeping `a.github.io` | high; not executed | RepoNames.GithubPagesNameMangled | RepoNames.CloneDirNameMeaning |

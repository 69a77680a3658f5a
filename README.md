# pyshowcase crawler core in Dafny

This project models the core of `data.py` in pyshowcase, a small crawler for a
PyPI "simple" index. It covers three pieces:

- **`PackageCrawler`** fetches the anchors of the index root. It pairs each
  anchor's label with an absolute URL, built by `_add_base_url`: the index
  URL with `rstrip('/simple/')` applied, followed by the anchor's `href`.
- **`Package`** fetches the anchors of one package's page. It sorts them
  stably by file name, using Python's code-point order on `str`. It takes the
  last one as the latest version.
- **`extract_metadata`** picks a `pkginfo` reader by the suffix of the
  downloaded path. `.tar.gz` gives `SDist`, `.whl` gives `Wheel`, and any
  other suffix leaves `dist` unassigned, so the call fails.

The model is organised as follows:

- An anchor is a `Links.Link(text, href)` value.
- Python's `str.rstrip(chars)` is `PyStrings.RStrip`. `IsRStripOf`
  characterises it: the result is what is left after cutting the whole
  trailing run of characters from `chars`, that is, the longest prefix of
  the string that is empty or ends in a character outside `chars`.
- Python's `<=` on `str` is `StrOrder.Le`. It compares at the first position
  where the strings differ, or puts the shorter string first when one is a
  prefix of the other.
- `list.sort(key=...)` is specified by `VersionSort.SortByText`, a stable
  insertion sort. `VersionSort.SortInPlace` sorts an `array` in place and is
  proved to produce exactly that sequence.
- `Packages.Package` is a class whose fields mirror the Python attributes.
  `Package.Create` plays the part of `Package.__init__`. The links the
  network would return and the temporary directory are its parameters. A
  Python exception becomes an `Err` of `Archive.PackageError`.

## Model

| member | source | states |
|---|---|---|
| PyStrings.RStrip | data.py:29 | Returns the prefix of `s` that is left after cutting trailing characters belonging to `chars`. Every cut character is in `chars`, and the result is empty or ends in a character outside `chars` (the `rstrip` semantics). |
| PyStrings.RStripUnique | data.py:29 | Any string meeting that characterisation equals `RStrip`, so the characterisation pins the result down exactly. |
| PyStrings.RStripIdempotent | data.py:29 | Stripping a second time changes nothing. |
| PyStrings.RStripAppend | data.py:29 | Appending characters from the set does not change the strip. |
| PyStrings.RemoveSuffix | data.py:29 | Removes `suffix` once when `s` ends with it, and otherwise returns `s` unchanged. This is the intended reading of the strip. |
| PyStrings.RemoveSuffixOfAppend | data.py:29 | `host + suffix` ends with `suffix`, and removing the suffix gives back `host`. |
| PyStrings.EndsWith | data.py:119-121 | Python's `s.endswith(suffix)`: it holds exactly when `s` is some string followed by `suffix`. |
| PyStrings.EndsWithAfterSlash | data.py:114-121 | When a prefix is empty or ends in `/` and the suffix contains no `/`, the prefix does not change whether the string ends with that suffix. |
| Crawler.AddBaseUrl | data.py:28-29 | The URL ends in `href`. What precedes `href` is `repoUrl` with its trailing run of the characters of "/simple/" stripped off. |
| Crawler.JoinBaseUrl | data.py:28-29 | The corrected join also ends in `href`. What precedes it is `repoUrl` minus one "/simple/" suffix when there is one, and the whole `repoUrl` otherwise. |
| Crawler.AddBaseUrlStripsHostTail | data.py:28-29 | With `repoUrl = host + "/simple/"`, the as-written join also strips the host's own trailing characters that occur in "/simple/". |
| Crawler.JoinBaseUrlKeepsHost | data.py:28-29 | With `repoUrl = host + "/simple/"`, the corrected join gives `host + href`. |
| Crawler.JoinsAgreeIffCleanHost | data.py:28-29 | The two joins agree exactly when the host is empty or its last character is not in "/simple/", in both directions. |
| Crawler.PypiBase | data.py:15-29 | For the default index `https://pypi.org/simple/`, the strip gives `https://pypi.org`. |
| Crawler.ExampleComBase | data.py:29 | `https://example.com/simple/` strips to `https://example.co`. |
| Crawler.ExampleComAsWritten | data.py:28-29 | The as-written join on that index points at host `example.co`. |
| Crawler.ExampleComCorrected | data.py:28-29 | The corrected join on that index keeps `example.com`. |
| Crawler.MapLinks | data.py:61 | One entry per anchor, in document order. Entry `i` holds label `i` and the joined `href` `i`. |
| Crawler.Listing | data.py:58-61 | The cold-start listing: entry `i` is anchor `i`'s label with `RStrip(repoUrl, "/simple/") + href`. Its length equals the number of anchors. |
| Crawler.CorrectedListing | data.py:58-61 | The same listing built with the corrected join. |
| Crawler.ColdStartListing | data.py:58-61 | Two anchors under the default index give the two expected absolute URLs. |
| StrOrder.CommonPrefix | data.py:105 | The length of the common prefix of two strings, bounded by both lengths. |
| StrOrder.CommonPrefixAgrees | data.py:105 | Both strings agree up to that length. At that position one of them has ended or they differ. |
| StrOrder.CommonPrefixUnique | data.py:105 | Any length with those two properties is the common prefix. |
| StrOrder.CommonPrefixSymmetric | data.py:105 | The common prefix does not depend on argument order. |
| StrOrder.Le | data.py:105 | Python's `a <= b` on `str`, the comparison the sort key uses. Every prefix of `b`, `b` itself included, is at most `b`. |
| StrOrder.LeIsCodePointOrder | data.py:105 | `Le(a, b)` holds exactly when `a` is a prefix of `b`, or when, at the first position where they differ, the code point of `a` is smaller. Both directions are proved. |
| StrOrder.LeAtFirstDifference | data.py:105 | When two strings first differ at position `k`, `Le` is decided by comparing the code points at `k`. |
| StrOrder.LeReflexive | data.py:105 | Python's order on `str` is reflexive. |
| StrOrder.LeAntisymmetric | data.py:105 | Python's order on `str` is antisymmetric. |
| StrOrder.LeTotal | data.py:105 | Python's order on `str` is total. |
| StrOrder.LeTransitive | data.py:105 | Python's order on `str` is transitive. Together with the three lemmas above, it is a total order, which a sort key needs. |
| StrOrder.TextualNotSemantic | data.py:105 | `"pkg-1.10.tar.gz"` sorts before `"pkg-1.9.tar.gz"`, so file names are not compared as versions. |
| VersionSort.Insert | data.py:105 | Inserting one link adds exactly one element. |
| VersionSort.SortByText | data.py:105 | Sorting keeps the length. |
| VersionSort.InsertPermutes | data.py:105 | Insertion adds exactly the inserted link to the multiset. |
| VersionSort.SortByTextPermutes | data.py:105 | The sorted list is a permutation of the fetched one. |
| VersionSort.InsertSorted | data.py:105 | Inserting into a sorted list keeps it sorted by file name. |
| VersionSort.SortByTextSorted | data.py:105 | The result is sorted by file name. |
| VersionSort.WithTextAppend | data.py:105 | The links with a given file name, taken from a concatenation, are those of each part in turn. |
| VersionSort.WithTextSingle | data.py:105 | A single link contributes itself exactly when its file name is the one asked for. |
| VersionSort.InsertWithText | data.py:105 | Insertion puts the new link after the links with equal file names that are already there. |
| VersionSort.SortByTextStable | data.py:105 | Links with equal file names keep their fetched order (stability). |
| VersionSort.LastOfRun | data.py:105-106 | The last link with a given file name is at an index after which no link has that name. |
| VersionSort.SortedSameRunsEqual | data.py:105 | Two sorted lists with the same equal-name runs are equal. |
| VersionSort.StableSortIsUnique | data.py:105 | Every stable sort of the list is `SortByText`, so the model does not depend on the sorting algorithm. |
| VersionSort.InsertAt | data.py:105 | Insertion places the link just after the last entry it does not precede. |
| VersionSort.InsertionPoint | data.py:105 | Finds that position. The entry just before it is at most the link, and every entry from it on is greater. When the list is sorted, as the prefix being grown always is, every entry before the position is at most the link. |
| VersionSort.ShiftRight | data.py:105 | Moves `a[j..i)` one place right and leaves the rest of the array alone. |
| VersionSort.InsertStep | data.py:105 | Grows the sorted prefix by one. The new prefix is `Insert` of the old prefix and `a[i]`, and the tail is unchanged. |
| VersionSort.SortInPlace | data.py:105 | Sorts the array in place. The result equals `SortByText` of the old contents, is sorted, is a permutation, and is stable. |
| Archive.KindOf | data.py:119-122 | `SDist` exactly when the path ends in `.tar.gz`, `Wheel` exactly when it ends in `.whl`, and `Unsupported` exactly when neither holds. |
| Archive.JoinPath | data.py:114 | Models `os.path.join` for two parts. The file name ends the path and stands at its start or right after a `/`. An absolute name replaces the directory. |
| Archive.KindOfJoin | data.py:114-122 | The suffix test on the joined path gives the same answer as on the file name alone. |
| Archive.ExtractMetadata | data.py:109-125 | `Ok` exactly when the file name ends in `.tar.gz` or `.whl`, with that reader on the joined path. Otherwise it is the unbound-`dist` error for that path. |
| Archive.DispatchExamples | data.py:119-123 | `.tar.gz` gives `SDist`, `.whl` gives `Wheel`, and `.zip` fails. |
| Packages.Latest | data.py:105-106 | `None`, where Python raises `IndexError`, exactly when no links were fetched. |
| Packages.LatestIsFetched | data.py:104-106 | The latest version is one of the fetched links. |
| Packages.LatestIsGreatest | data.py:105-106 | Its file name is at least every fetched file name. |
| Packages.LatestIsLastOfTies | data.py:105-106 | Among links sharing the greatest file name, it is the one fetched last. |
| Packages.TextualLatest | data.py:105-106 | Between `pkg-1.9.tar.gz` and `pkg-1.10.tar.gz`, `pkg-1.9.tar.gz` is chosen. |
| Packages.SortedCopy | data.py:104-105 | A fresh array holding `SortByText` of the fetched links. |
| Packages.Package.constructor | data.py:101-107 | Stores the name, index URL, sorted versions, latest version and metadata. |
| Packages.Package.Create | data.py:101-107 | Fails with `IndexError` when nothing was fetched. Otherwise it succeeds exactly when the latest file name ends in `.tar.gz` or `.whl`, and the failure is the unbound-`dist` error on the joined path. On success the fields hold the arguments, `SortByText` of the fetched links, `Latest` and the matching reader. |

## Left out

- HTTP requests made with `requests.get` (data.py:85, 112) and the body of `get_links` (data.py:68-97) are left out. The anchors they produce are parameters (`links`, `fetched`).
- HTML parsing by BeautifulSoup is left out, and each anchor is given as a label and an `href`.
- An anchor without a label gives `None` in Python. The model always has a string label.
- The `packages.json` cache (data.py:51-54, 62-64) and the JSON file it writes are left out. Only the cold-start listing is modelled.
- Logging is left out. At data.py:56, `self.logger` does not exist, so the cold start raises `AttributeError`. The model describes what the listing would be without that line.
- At data.py:61, `link.string` and `link['href']` are applied to the `(label, href)` tuples that `get_links` returns at line 97, and this raises in Python. The model implements the intended pairing of each label with its joined `href`.
- The temporary directory and the download with its file write (data.py:110-117) are left out. The directory name is the `tmpdir` parameter.
- Parsing by `pkginfo` is left out. The `Metadata` value records which reader and which path would be used.
- The module-level `Package("pandas")` call at data.py:128 is left out.
- `PackageCrawler.__init__` (data.py:15-26) only stores the URL and calls `_get_packages`. `Crawler.Listing` models that call and takes the URL as its parameter.
- Python's own sort algorithm (timsort) is replaced by a stable insertion sort. `VersionSort.StableSortIsUnique` shows that every stable sort gives the same result.
- Archive.JoinPath: models `os.path.join` with exactly two arguments, as at data.py:114, on POSIX paths only.

## Findings

| source | as written | input that shows it | evidently intended | confidence | as-written member | corrected member |
|---|---|---|---|---|---|---|
| data.py:29 | `rstrip('/simple/')` strips any trailing run of the characters `/`, `s`, `i`, `m`, `p`, `l` and `e` | index URL `https://example.com/simple/` with href `/simple/pkg-a/` gives `https://example.co/simple/pkg-a/` | remove the suffix "/simple/" once, giving `https://example.com/simple/pkg-a/` | high, not executed | Crawler.ExampleComAsWritten | Crawler.JoinBaseUrlKeepsHost |

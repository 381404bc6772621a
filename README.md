# Document search engine — Dafny model

This project models the search engine of a digital library of archived
documents (lib/search-engine.ts). The catalog is a nested index. It maps each
domain (the site a document was archived from) to its document keys
(file names), and each key to a document record. `searchDocuments` takes a
query and optional filters and scans the index domain by domain and key by key.
It keeps every document that passes four AND-combined filters:

- the text filter: the key or the description contains the query, ignoring case;
- the tag filter: the tag is one of the document's tags;
- the year filter: the date contains the year string;
- the region filter: the region equals the parameter, ignoring case.

A domain is scanned only when the domain parameter is absent or empty, or when
the parameter includes the domain's name. Each kept document is projected into
a result record. Its URL is `https://` + domain + `/` + the key without its
file extension, and a missing link becomes `"unknown"`. The scan stops once 600
results have accumulated.

Files:

- `strings.dfy`, module `Strings`: the JavaScript string operations the engine
  uses. `Lower` is `toLowerCase` on ASCII letters. `Contains` is `includes`,
  and it is proved equal to "occurs at some index". `EqualsIgnoreCase` is the
  region comparison.
- `search_engine.dfy`, module `SearchEngine`: the types `Document`,
  `SearchParams` and `SearchResult`, plus the following.
  - `StripFileExtension`: the regular expression `/\.[^/.]+$/` as a predicate
    `ExtensionAt`, and a backwards scan that finds its match.
  - The filter predicates.
  - `ToResult`: the projection of a kept document.
  - `Filtered`: the specification, meaning every document of the catalog, in
    domain-then-key order, that the filters keep.
  - `SearchDocuments`: the imperative nested scan, with early return at the
    cap. It is proved to return exactly the projections of the first
    `min(600, |Filtered|)` filtered documents.

The catalog is a parameter, a sequence of `DomainIndex(name, entries)`. Each
entry is an `Entry(key, doc)`. The order of the sequences is the iteration
order of the source's `for...in` loops. An optional parameter or a nullable
link is an `Option<string>`. The source tests these with JavaScript
truthiness, so `None` and `Some("")` both mean "not given" (`Given`).

The domain test at lib/search-engine.ts:55 is `param.includes(domainName)`,
not the reverse: `"a.org,b.org"` scans `b.org`, and `"lib"` does not scan
`mylibrary.org` (`DomainFilterDirection`). The extension removed by
`stripFileExtension` is not simply everything from the last `.`: at least one
character must follow the dot, and none of those characters may be `.` or `/`.

## Model

| member | source | states |
|---|---|---|
| `Strings.LowerChar` | lib/search-engine.ts:70 | a capital `A`–`Z` becomes its own lower-case letter (same offset from `a` as from `A`); every other character is unchanged; the result is never an ASCII capital |
| `Strings.LowerCharEqIff` | lib/search-engine.ts:74 | two characters lower to the same character iff they are equal or are the upper- and lower-case forms of one ASCII letter |
| `Strings.Lower` | lib/search-engine.ts:70-71 | `toLowerCase` keeps the length and lowers each position independently |
| `Strings.EqualsIgnoreCaseIff` | lib/search-engine.ts:74 | `a.toLowerCase() === b.toLowerCase()` holds iff the strings have equal length and at every position the characters are equal or the two cases of one ASCII letter |
| `Strings.EqualsIgnoreCaseSameLength` | lib/search-engine.ts:74 | case-insensitive equality never holds between strings of different lengths |
| `Strings.ContainsIff` | lib/search-engine.ts:55 | `s.includes(t)` holds iff `t` occurs in `s` at some index (both directions) |
| `Strings.ContainsNoLonger` | lib/search-engine.ts:55 | a string includes only strings no longer than itself |
| `SearchEngine.ExtensionStart` | lib/search-engine.ts:45 | the backwards scan returns an index exactly where `/\.[^/.]+$/` matches, and returns none only when it matches nowhere |
| `SearchEngine.ExtensionAtUnique` | lib/search-engine.ts:45 | the regular expression matches in at most one place |
| `SearchEngine.StripFileExtensionSpec` | lib/search-engine.ts:44-46 | the result is always a prefix of the name; it is the name cut at the match when the regular expression matches, and the name unchanged otherwise |
| `SearchEngine.StripKeepsNamesWithoutExtension` | lib/search-engine.ts:45 | `"file."` and `"a.b/c"` are returned unchanged |
| `SearchEngine.StripRemovesLastExtensionOnly` | lib/search-engine.ts:45 | `"archive.tar.gz"` becomes `"archive.tar"` |
| `SearchEngine.ResultShape` | lib/search-engine.ts:76-88 | the URL starts with `https://` + domain + `/` and continues with a prefix of the key, namely the key cut at the extension or the whole key; the link is never empty, is the document's own when truthy and `"unknown"` otherwise; all other display fields are copied unchanged |
| `SearchEngine.ExtensionScenario` | lib/search-engine.ts:76-78 | key `"report.pdf"` in `lib.org` without a link gives `https://lib.org/report` and `"unknown"` |
| `SearchEngine.SelectAppend` | lib/search-engine.ts:53-62 | filtering distributes over concatenation: no reordering, no ranking |
| `SearchEngine.SelectMembership` | lib/search-engine.ts:68-75 | a document is selected iff it is in the input and kept |
| `SearchEngine.AllHitsMembership` | lib/search-engine.ts:53-65 | the domain-then-key enumeration holds exactly the documents stored in the catalog |
| `SearchEngine.ScannedPrefix` | lib/search-engine.ts:53-62 | what the scan has kept at any point is a prefix of the full filtered sequence |
| `SearchEngine.SkippedDomain` | lib/search-engine.ts:55-57 | a skipped domain adds nothing to what the scan keeps |
| `SearchEngine.CapReached` | lib/search-engine.ts:61-63 | when the early return fires, the results are the first 600 filtered documents and there are at least 600 of them |
| `SearchEngine.ScanComplete` | lib/search-engine.ts:53-93 | when the scan runs to the end, the results are all the filtered documents |
| `SearchEngine.SearchDocuments` | lib/search-engine.ts:48-94 | at most 600 results; exactly `min(600, n)` of the `n` filtered documents; result `k` is the projection of filtered document `k`, in domain-then-key order |
| `SearchEngine.FilteredMembership` | lib/search-engine.ts:53-75 | a document is filtered iff it is stored in the catalog, its domain is scanned, and the text, tag, year and region filters all hold |
| `SearchEngine.SkippedDomainContributesNothing` | lib/search-engine.ts:55-57 | no document of a domain the domain parameter does not include is kept |
| `SearchEngine.NoDomainScansAll` | lib/search-engine.ts:55 | an absent or empty domain parameter scans every domain |
| `SearchEngine.UnfilteredKeepsAll` | lib/search-engine.ts:53-75 | with an empty query and no filter, every document is kept, in catalog order |
| `SearchEngine.TextMatchIff` | lib/search-engine.ts:69-71 | the text filter holds iff the lowered query occurs in the lowered key or the lowered description; the empty-query shortcut changes nothing |
| `SearchEngine.RegionMatchIsExact` | lib/search-engine.ts:74 | the region filter is equality, not a substring test: a region of another length never matches |
| `SearchEngine.RegionScenario` | lib/search-engine.ts:74 | region `"Asia"` matches a document from `"asia"` but not one from `"Asian"` |
| `SearchEngine.DomainFilterDirection` | lib/search-engine.ts:55 | the parameter must include the domain name: `"a.org,b.org"` scans `b.org`; `"lib"` does not scan `mylibrary.org` |

## Left out

- Loading the catalog from the static JSON file (lib/search-engine.ts:1, 51) is file I/O. The catalog is a parameter of `SearchDocuments` instead.
- The JavaScript `for...in` enumeration order is not modelled. For example, integer-like keys come first. Iteration order is the order of the catalog's sequences.
- Strings.Lower: lowers only the ASCII letters `A`–`Z`. Full Unicode `toLowerCase` is not modelled, including multi-character results and context-dependent mappings such as the final sigma.
- Strings are sequences of Unicode scalar values, not UTF-16 code units. This matters only for characters outside the Basic Multilingual Plane.
- `size` is an unbounded integer. JavaScript numbers are floating point, but the engine only copies this field.
- Aliasing is not modelled: the result shares the document's `tags` array in the source, while here it holds an equal value.
- Documents whose fields are missing or of the wrong type are not modelled. Every document here has every field. On such a document the source throws a `TypeError` (say, on `undefined.toLowerCase()`).
- The model does not require keys to be unique within a domain, or domain names to be unique. A JavaScript object guarantees both, but no property here needs that guarantee.
- The HTTP route (app/api/search/route.ts) is not modelled. It maps query parameters to search parameters and serialises the results.
- The tool route (app/[transport]/route.ts) is not modelled. This includes its pagination of the results (offset/limit slicing and page metadata, lines 50-77). Both are adapter code outside the search engine.
- The scripts under scripts/ are network clients that print to the console. They are not part of this model.

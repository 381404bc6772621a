/** The document search engine of lib/search-engine.ts: the catalog and result
    types, `stripFileExtension`, the four AND-combined document predicates, the
    domain filter, the projection of a kept document into a result, and
    `searchDocuments`, a nested scan that stops at 600 results.

    The catalog (a JSON object from domain to key to document) is a sequence of
    domains, each a sequence of entries, so that the iteration order of the
    source's `for...in` loops is the order of the sequences. */
module SearchEngine {
  import opened Strings

  datatype Option<T> = None | Some(value: T)

  /** A catalog document. `docType` is the source's `type`, `archivedDate` its
      `'archived date'`; `link` may be null. */
  datatype Document = Document(
    docType: string,
    format: string,
    size: int,
    md5: string,
    link: Option<string>,
    description: string,
    archivedDate: string,
    author: string,
    date: string,
    region: string,
    tags: seq<string>)

  /** One key of a domain together with its document. */
  datatype Entry = Entry(key: string, doc: Document)

  /** One domain of the catalog, its entries in iteration order. */
  datatype DomainIndex = DomainIndex(name: string, entries: seq<Entry>)

  /** The search index, domains in iteration order. */
  type Catalog = seq<DomainIndex>

  /** The search parameters; an absent optional filter is `None`. */
  datatype SearchParams = SearchParams(
    query: string,
    domain: Option<string>,
    tag: Option<string>,
    year: Option<string>,
    region: Option<string>)

  /** The display projection of a kept document. */
  datatype SearchResult = SearchResult(
    url: string,
    description: string,
    tags: seq<string>,
    docType: string,
    author: string,
    date: string,
    region: string,
    format: string,
    size: int,
    link: string)

  /** A document met during the scan, with the domain and key it was found under. */
  datatype Hit = Hit(domain: string, key: string, doc: Document)

  /** The cap on the number of results (`MAX_RESULTS`). */
  const MaxResults: nat := 600

  function Min(a: int, b: int): int {
    if a <= b then a else b
  }

  /** JavaScript truthiness of an optional string: present and not empty. */
  predicate Given(o: Option<string>) {
    o.Some? && o.value != ""
  }

  // ---------------------------------------------------------------------------
  // stripFileExtension: filename.replace(/\.[^/.]+$/, '')
  // ---------------------------------------------------------------------------

  /** The regular expression /\.[^/.]+$/ matches `s` from index `i`: a `.` there,
      followed by at least one character, none of which is `.` or `/`, up to the
      end of the string. */
  predicate ExtensionAt(s: string, i: int) {
    0 <= i < |s| - 1 && s[i] == '.' &&
    forall k :: i < k < |s| ==> s[k] != '.' && s[k] != '/'
  }

  /** Looks for the start of the match, scanning backwards from index `j`; the
      characters from `j` on are already known to be neither `.` nor `/`. */
  function ExtensionStart(s: string, j: nat): (r: Option<nat>)
    requires j <= |s|
    requires forall k :: j <= k < |s| ==> s[k] != '.' && s[k] != '/'
    ensures r.Some? ==> ExtensionAt(s, r.value)
    ensures r.None? ==> forall i :: !ExtensionAt(s, i)
    decreases j
  {
    if j == 0 then None
    else if s[j - 1] == '.' then (if j == |s| then None else Some(j - 1))
    else if s[j - 1] == '/' then None
    else ExtensionStart(s, j - 1)
  }

  /** The regular expression matches in at most one place. */
  lemma ExtensionAtUnique(s: string, i: int, i': int)
    requires ExtensionAt(s, i) && ExtensionAt(s, i')
    ensures i == i'
  {
  }

  /** `stripFileExtension`. */
  function StripFileExtension(filename: string): string {
    match ExtensionStart(filename, |filename|)
    case Some(i) => filename[..i]
    case None => filename
  }

  /** The trailing extension is removed when the regular expression matches, and
      the name is returned unchanged otherwise; either way the result is a prefix
      of the name. */
  lemma StripFileExtensionSpec(filename: string)
    ensures StripFileExtension(filename) <= filename
    ensures forall i :: ExtensionAt(filename, i) ==> StripFileExtension(filename) == filename[..i]
    ensures (forall i :: !ExtensionAt(filename, i)) ==> StripFileExtension(filename) == filename
  {
    match ExtensionStart(filename, |filename|)
    case Some(i) =>
      forall i' | ExtensionAt(filename, i') ensures i' == i {
        ExtensionAtUnique(filename, i, i');
      }
    case None =>
  }

  // ---------------------------------------------------------------------------
  // The filter predicates
  // ---------------------------------------------------------------------------

  /** The domain check at the head of the outer loop: with a domain parameter
      given, a domain is scanned only when the parameter includes its name. */
  predicate DomainScanned(p: SearchParams, name: string) {
    !Given(p.domain) || Contains(p.domain.value, name)
  }

  /** Search term match on the key or the description, case-insensitively. */
  predicate TextMatch(query: string, key: string, description: string) {
    query == "" ||
    Contains(Lower(key), Lower(query)) ||
    Contains(Lower(description), Lower(query))
  }

  /** Tag match: exact membership. */
  predicate TagMatch(tag: Option<string>, doc: Document) {
    !Given(tag) || tag.value in doc.tags
  }

  /** Year match: the date includes the year string. */
  predicate YearMatch(year: Option<string>, doc: Document) {
    !Given(year) || Contains(doc.date, year.value)
  }

  /** Region match: case-insensitive equality. */
  predicate RegionMatch(region: Option<string>, doc: Document) {
    !Given(region) || EqualsIgnoreCase(doc.region, region.value)
  }

  /** The condition of the `if` inside the inner loop: all four filters hold. */
  predicate Matches(p: SearchParams, key: string, doc: Document) {
    TextMatch(p.query, key, doc.description) &&
    TagMatch(p.tag, doc) &&
    YearMatch(p.year, doc) &&
    RegionMatch(p.region, doc)
  }

  /** A document met during the scan ends up in the results (cap aside) when its
      domain is scanned and it matches. */
  predicate Keeps(p: SearchParams, h: Hit) {
    DomainScanned(p, h.domain) && Matches(p, h.key, h.doc)
  }

  // ---------------------------------------------------------------------------
  // Result projection
  // ---------------------------------------------------------------------------

  /** The result record pushed for a kept document. */
  function ToResult(h: Hit): SearchResult {
    var link := if Given(h.doc.link) then h.doc.link.value else "unknown";
    SearchResult("https://" + h.domain + "/" + StripFileExtension(h.key),
                 h.doc.description, h.doc.tags, h.doc.docType, h.doc.author,
                 h.doc.date, h.doc.region, h.doc.format, h.doc.size, link)
  }

  /** The URL is the scheme, the domain and a slash, followed by the key with its
      extension (if the regular expression matches) removed; the link is never
      empty, being the document's own when it has one and "unknown" otherwise; the
      display fields are copied unchanged. */
  lemma ResultShape(h: Hit)
    ensures "https://" + h.domain + "/" <= ToResult(h).url
    ensures ToResult(h).url[|"https://" + h.domain + "/"|..] <= h.key
    ensures forall i :: ExtensionAt(h.key, i) ==>
              ToResult(h).url == "https://" + h.domain + "/" + h.key[..i]
    ensures (forall i :: !ExtensionAt(h.key, i)) ==>
              ToResult(h).url == "https://" + h.domain + "/" + h.key
    ensures ToResult(h).link != ""
    ensures Given(h.doc.link) ==> ToResult(h).link == h.doc.link.value
    ensures !Given(h.doc.link) ==> ToResult(h).link == "unknown"
    ensures ToResult(h).description == h.doc.description && ToResult(h).tags == h.doc.tags
    ensures ToResult(h).docType == h.doc.docType && ToResult(h).author == h.doc.author
    ensures ToResult(h).date == h.doc.date && ToResult(h).region == h.doc.region
    ensures ToResult(h).format == h.doc.format && ToResult(h).size == h.doc.size
  {
    var prefix := "https://" + h.domain + "/";
    StripFileExtensionSpec(h.key);
    assert ToResult(h).url[|prefix|..] == StripFileExtension(h.key);
  }

  // ---------------------------------------------------------------------------
  // The specification of the scan
  // ---------------------------------------------------------------------------

  /** The entries of one domain as hits, in key order. */
  function DomainHits(d: DomainIndex): (hs: seq<Hit>)
    ensures |hs| == |d.entries|
    ensures forall j :: 0 <= j < |hs| ==>
              hs[j] == Hit(d.name, d.entries[j].key, d.entries[j].doc)
  {
    seq(|d.entries|, j requires 0 <= j < |d.entries| =>
      Hit(d.name, d.entries[j].key, d.entries[j].doc))
  }

  /** Every document of the catalog, in domain-then-key order. */
  function AllHits(c: Catalog): seq<Hit>
  {
    if c == [] then [] else AllHits(c[..|c| - 1]) + DomainHits(c[|c| - 1])
  }

  /** The hits of `hs` that `p` keeps, in their order. */
  function Select(p: SearchParams, hs: seq<Hit>): seq<Hit>
  {
    if hs == [] then []
    else Select(p, hs[..|hs| - 1]) + (if Keeps(p, hs[|hs| - 1]) then [hs[|hs| - 1]] else [])
  }

  /** All the documents the search keeps, before the cap, in scan order. */
  function Filtered(p: SearchParams, c: Catalog): seq<Hit> {
    Select(p, AllHits(c))
  }

  /** The document at key position `j` of domain position `i`. */
  function HitAt(c: Catalog, i: nat, j: nat): Hit
    requires i < |c| && j < |c[i].entries|
  {
    Hit(c[i].name, c[i].entries[j].key, c[i].entries[j].doc)
  }

  /** `h` is the document stored in `c` under some domain and key. */
  ghost predicate InCatalog(c: Catalog, h: Hit) {
    exists i: nat, j: nat :: i < |c| && j < |c[i].entries| && h == HitAt(c, i, j)
  }

  lemma {:induction false} SelectSnoc(p: SearchParams, hs: seq<Hit>, h: Hit)
    ensures Select(p, hs + [h]) == Select(p, hs) + (if Keeps(p, h) then [h] else [])
  {
    assert (hs + [h])[..|hs|] == hs;
  }

  /** Selecting distributes over concatenation: the filter never reorders. */
  lemma {:induction false} SelectAppend(p: SearchParams, a: seq<Hit>, b: seq<Hit>)
    ensures Select(p, a + b) == Select(p, a) + Select(p, b)
    decreases |b|
  {
    if b == [] {
      assert a + b == a;
    } else {
      var b' := b[..|b| - 1];
      var h := b[|b| - 1];
      assert a + b == (a + b') + [h];
      assert b == b' + [h];
      SelectSnoc(p, a + b', h);
      SelectSnoc(p, b', h);
      SelectAppend(p, a, b');
    }
  }

  /** A hit is selected exactly when it is in the input and kept. */
  lemma {:induction false} SelectMembership(p: SearchParams, hs: seq<Hit>, h: Hit)
    ensures h in Select(p, hs) <==> h in hs && Keeps(p, h)
    decreases |hs|
  {
    if hs != [] {
      var hs' := hs[..|hs| - 1];
      assert hs == hs' + [hs[|hs| - 1]];
      SelectMembership(p, hs', h);
    }
  }

  /** Selecting keeps everything when every hit is kept. */
  lemma {:induction false} SelectAll(p: SearchParams, hs: seq<Hit>)
    requires forall k :: 0 <= k < |hs| ==> Keeps(p, hs[k])
    ensures Select(p, hs) == hs
    decreases |hs|
  {
    if hs != [] {
      var hs' := hs[..|hs| - 1];
      assert hs == hs' + [hs[|hs| - 1]];
      SelectAll(p, hs');
    }
  }

  /** Selecting keeps nothing when no hit is kept. */
  lemma {:induction false} SelectNone(p: SearchParams, hs: seq<Hit>)
    requires forall k :: 0 <= k < |hs| ==> !Keeps(p, hs[k])
    ensures Select(p, hs) == []
    decreases |hs|
  {
    if hs != [] {
      SelectNone(p, hs[..|hs| - 1]);
    }
  }

  lemma {:induction false} AllHitsSnoc(c: Catalog, i: nat)
    requires i < |c|
    ensures AllHits(c[..i + 1]) == AllHits(c[..i]) + DomainHits(c[i])
  {
    assert c[..i + 1][..i] == c[..i];
  }

  /** Flattening the catalog distributes over concatenation of catalogs. */
  lemma {:induction false} AllHitsAppend(a: Catalog, b: Catalog)
    ensures AllHits(a + b) == AllHits(a) + AllHits(b)
    decreases |b|
  {
    if b == [] {
      assert a + b == a;
    } else {
      var b' := b[..|b| - 1];
      var d := b[|b| - 1];
      assert (a + b)[..|a + b| - 1] == a + b';
      assert (a + b)[|a + b| - 1] == d;
      calc {
        AllHits(a + b);
        AllHits(a + b') + DomainHits(d);
        { AllHitsAppend(a, b'); }
        AllHits(a) + AllHits(b') + DomainHits(d);
        AllHits(a) + AllHits(b);
      }
    }
  }

  /** Every document stored in the catalog is among its flattened hits. */
  lemma {:induction false} HitAtInAllHits(c: Catalog, i: nat, j: nat)
    requires i < |c| && j < |c[i].entries|
    ensures HitAt(c, i, j) in AllHits(c)
    decreases |c|
  {
    var n := |c| - 1;
    if i < n {
      HitAtInAllHits(c[..n], i, j);
    } else {
      assert DomainHits(c[n])[j] == HitAt(c, i, j);
    }
  }

  /** Every flattened hit is a document stored in the catalog. */
  lemma {:induction false} AllHitsInCatalog(c: Catalog, h: Hit)
    requires h in AllHits(c)
    ensures InCatalog(c, h)
    decreases |c|
  {
    var n := |c| - 1;
    if h in AllHits(c[..n]) {
      AllHitsInCatalog(c[..n], h);
      var i: nat, j: nat :| i < n && j < |c[..n][i].entries| && h == HitAt(c[..n], i, j);
      assert h == HitAt(c, i, j);
    } else {
      var j :| 0 <= j < |DomainHits(c[n])| && DomainHits(c[n])[j] == h;
      assert h == HitAt(c, n, j);
    }
  }

  /** The flattened catalog holds exactly the documents stored in the catalog. */
  lemma AllHitsMembership(c: Catalog, h: Hit)
    ensures h in AllHits(c) <==> InCatalog(c, h)
  {
    if h in AllHits(c) {
      AllHitsInCatalog(c, h);
    }
    if InCatalog(c, h) {
      var i: nat, j: nat :| i < |c| && j < |c[i].entries| && h == HitAt(c, i, j);
      HitAtInAllHits(c, i, j);
    }
  }

  /** The documents the scan has met once it is at key position `j` of domain
      position `i`: all of domains `0..i-1` and the first `j` keys of domain `i`. */
  function Scanned(c: Catalog, i: nat, j: nat): seq<Hit>
    requires i < |c| && j <= |c[i].entries|
  {
    AllHits(c[..i]) + DomainHits(c[i])[..j]
  }

  /** Entering a domain: nothing of it has been met yet. */
  lemma ScannedStart(c: Catalog, i: nat)
    requires i < |c|
    ensures Scanned(c, i, 0) == AllHits(c[..i])
  {
    assert DomainHits(c[i])[..0] == [];
  }

  /** Leaving a domain: all of it has been met. */
  lemma ScannedEnd(c: Catalog, i: nat)
    requires i < |c|
    ensures Scanned(c, i, |c[i].entries|) == AllHits(c[..i + 1])
  {
    assert DomainHits(c[i])[..|c[i].entries|] == DomainHits(c[i]);
    AllHitsSnoc(c, i);
  }

  /** One key of a scanned domain: its document is kept exactly when it matches. */
  lemma ScannedStep(p: SearchParams, c: Catalog, i: nat, j: nat)
    requires i < |c| && j < |c[i].entries| && DomainScanned(p, c[i].name)
    ensures Select(p, Scanned(c, i, j + 1)) ==
              Select(p, Scanned(c, i, j)) +
              (if Matches(p, c[i].entries[j].key, c[i].entries[j].doc) then [HitAt(c, i, j)] else [])
  {
    var h := HitAt(c, i, j);
    assert DomainHits(c[i])[..j + 1] == DomainHits(c[i])[..j] + [h];
    assert Scanned(c, i, j + 1) == Scanned(c, i, j) + [h];
    SelectSnoc(p, Scanned(c, i, j), h);
  }

  /** A skipped domain adds nothing to the selection. */
  lemma SkippedDomain(p: SearchParams, c: Catalog, i: nat)
    requires i < |c| && !DomainScanned(p, c[i].name)
    ensures Select(p, AllHits(c[..i + 1])) == Select(p, AllHits(c[..i]))
  {
    AllHitsSnoc(c, i);
    SelectNone(p, DomainHits(c[i]));
    SelectAppend(p, AllHits(c[..i]), DomainHits(c[i]));
  }

  /** What the scan has kept so far is a prefix of the full filtered sequence. */
  lemma ScannedPrefix(p: SearchParams, c: Catalog, i: nat, j: nat)
    requires i < |c| && j <= |c[i].entries|
    ensures Select(p, Scanned(c, i, j)) <= Filtered(p, c)
  {
    var front := Scanned(c, i, j);
    var back := DomainHits(c[i])[j..] + AllHits(c[i + 1..]);
    calc {
      AllHits(c);
      { assert c == c[..i + 1] + c[i + 1..]; AllHitsAppend(c[..i + 1], c[i + 1..]); }
      AllHits(c[..i + 1]) + AllHits(c[i + 1..]);
      { AllHitsSnoc(c, i); }
      AllHits(c[..i]) + DomainHits(c[i]) + AllHits(c[i + 1..]);
      { assert DomainHits(c[i]) == DomainHits(c[i])[..j] + DomainHits(c[i])[j..]; }
      front + back;
    }
    SelectAppend(p, front, back);
  }

  // ---------------------------------------------------------------------------
  // searchDocuments
  // ---------------------------------------------------------------------------

  /** The scan stops at the cap: what it kept is then the first 600 of the
      filtered documents. */
  lemma CapReached(p: SearchParams, c: Catalog, i: nat, j: nat, hits: seq<Hit>)
    requires i < |c| && j <= |c[i].entries|
    requires hits == Select(p, Scanned(c, i, j)) && |hits| == MaxResults
    ensures |hits| == Min(|Filtered(p, c)|, MaxResults)
    ensures hits == Filtered(p, c)[..|hits|]
  {
    ScannedPrefix(p, c, i, j);
  }

  /** The scan runs to the end: what it kept is all of the filtered documents. */
  lemma ScanComplete(p: SearchParams, c: Catalog, hits: seq<Hit>)
    requires hits == Select(p, AllHits(c[..|c|])) && |hits| <= MaxResults
    ensures |hits| == Min(|Filtered(p, c)|, MaxResults)
    ensures hits == Filtered(p, c)[..|hits|]
  {
    assert c[..|c|] == c;
  }

  /** `results` holds the projections of `hits`, in order. */
  predicate Projects(results: seq<SearchResult>, hits: seq<Hit>) {
    |results| == |hits| && forall k :: 0 <= k < |hits| ==> results[k] == ToResult(hits[k])
  }

  /** `searchDocuments`, with the catalog passed in. The results are the first
      `min(600, n)` of the `n` documents the filters keep, in domain-then-key
      order, each projected by `ToResult`. */
  method SearchDocuments(p: SearchParams, c: Catalog) returns (results: seq<SearchResult>)
    ensures |results| <= MaxResults
    ensures |results| == Min(|Filtered(p, c)|, MaxResults)
    ensures forall k :: 0 <= k < |results| ==> results[k] == ToResult(Filtered(p, c)[k])
  {
    results := [];
    ghost var hits: seq<Hit> := [];
    var i := 0;
    while i < |c|
      invariant 0 <= i <= |c|
      invariant hits == Select(p, AllHits(c[..i]))
      invariant |hits| <= MaxResults
      invariant Projects(results, hits)
    {
      var d := c[i];
      if Given(p.domain) && !Contains(p.domain.value, d.name) {
        SkippedDomain(p, c, i);
        i := i + 1;
        continue;
      }
      var j := 0;
      ScannedStart(c, i);
      while j < |d.entries|
        invariant 0 <= j <= |d.entries|
        invariant hits == Select(p, Scanned(c, i, j))
        invariant |hits| <= MaxResults
        invariant Projects(results, hits)
      {
        if |results| >= MaxResults {
          CapReached(p, c, i, j, hits);
          return;
        }
        var e := d.entries[j];
        ScannedStep(p, c, i, j);
        if Matches(p, e.key, e.doc) {
          results := results + [ToResult(Hit(d.name, e.key, e.doc))];
          hits := hits + [HitAt(c, i, j)];
        }
        j := j + 1;
      }
      ScannedEnd(c, i);
      i := i + 1;
    }
    ScanComplete(p, c, hits);
  }

  // ---------------------------------------------------------------------------
  // Properties of the specification
  // ---------------------------------------------------------------------------

  /** A document is among the filtered documents exactly when it is stored in the
      catalog, its domain is scanned, and the text, tag, year and region filters
      all hold of it. */
  lemma FilteredMembership(p: SearchParams, c: Catalog, h: Hit)
    ensures h in Filtered(p, c) <==>
              InCatalog(c, h) && DomainScanned(p, h.domain) &&
              TextMatch(p.query, h.key, h.doc.description) && TagMatch(p.tag, h.doc) &&
              YearMatch(p.year, h.doc) && RegionMatch(p.region, h.doc)
  {
    SelectMembership(p, AllHits(c), h);
    AllHitsMembership(c, h);
  }

  /** A skipped domain contributes nothing: no document found under a domain
      name the domain parameter does not include is kept. */
  lemma SkippedDomainContributesNothing(p: SearchParams, c: Catalog, h: Hit)
    requires Given(p.domain) && !Contains(p.domain.value, h.domain)
    ensures h !in Filtered(p, c)
  {
    SelectMembership(p, AllHits(c), h);
  }

  /** With no domain parameter every domain is scanned. */
  lemma NoDomainScansAll(p: SearchParams, name: string)
    requires p.domain == None || p.domain == Some("")
    ensures DomainScanned(p, name)
  {
  }

  /** With an empty query and no filter, every document of the catalog is kept,
      in domain-then-key order. */
  lemma UnfilteredKeepsAll(p: SearchParams, c: Catalog)
    requires p.query == "" && !Given(p.domain) && !Given(p.tag) && !Given(p.year) && !Given(p.region)
    ensures Filtered(p, c) == AllHits(c)
  {
    SelectAll(p, AllHits(c));
  }

  /** The `query === ''` shortcut changes nothing: the text filter is exactly
      "the lowered key or the lowered description includes the lowered query". */
  lemma TextMatchIff(query: string, key: string, description: string)
    ensures TextMatch(query, key, description) <==>
              (exists i: nat :: OccursAt(Lower(key), Lower(query), i)) ||
              (exists i: nat :: OccursAt(Lower(description), Lower(query), i))
  {
    ContainsIff(Lower(key), Lower(query));
    ContainsIff(Lower(description), Lower(query));
    if query == "" {
      assert Lower(query) == "";
      assert Lower(key)[0..0] == Lower(query);
      assert OccursAt(Lower(key), Lower(query), 0);
    } else {
      assert TextMatch(query, key, description) ==
        (Contains(Lower(key), Lower(query)) || Contains(Lower(description), Lower(query)));
    }
  }

  /** The region filter is equality, not a substring test: a region of another
      length never matches. */
  lemma RegionMatchIsExact(region: string, doc: Document)
    requires region != "" && |doc.region| != |region|
    ensures !RegionMatch(Some(region), doc)
  {
    if EqualsIgnoreCase(doc.region, region) {
      EqualsIgnoreCaseSameLength(doc.region, region);
    }
  }

  /** The domain parameter must include the domain name, not the other way round:
      "a.org,b.org" scans "b.org", while "lib" does not scan "mylibrary.org". */
  lemma DomainFilterDirection(p: SearchParams, q: SearchParams)
    requires p.domain == Some("a.org,b.org") && q.domain == Some("lib")
    ensures DomainScanned(p, "b.org")
    ensures !DomainScanned(q, "mylibrary.org")
  {
    assert OccursAt("a.org,b.org", "b.org", 6);
    ContainsIff("a.org,b.org", "b.org");
    if Contains("lib", "mylibrary.org") {
      ContainsNoLonger("lib", "mylibrary.org");
    }
  }

  /** Region "Asia" matches a document from "asia" but not one from "Asian". */
  lemma RegionScenario(asia: Document, asian: Document)
    requires asia.region == "asia" && asian.region == "Asian"
    ensures RegionMatch(Some("Asia"), asia)
    ensures !RegionMatch(Some("Asia"), asian)
  {
    EqualsIgnoreCaseIff("asia", "Asia");
    RegionMatchIsExact("Asia", asian);
  }

  /** "report.pdf" in domain "lib.org" with no link gives the URL
      "https://lib.org/report" and the link "unknown". */
  lemma ExtensionScenario(doc: Document)
    requires doc.link == None
    ensures ToResult(Hit("lib.org", "report.pdf", doc)).url == "https://lib.org/report"
    ensures ToResult(Hit("lib.org", "report.pdf", doc)).link == "unknown"
  {
    assert ExtensionAt("report.pdf", 6);
    assert "report.pdf"[..6] == "report";
    ResultShape(Hit("lib.org", "report.pdf", doc));
  }

  /** Names without a removable extension are kept whole: a trailing dot, or a
      dot before a slash. */
  lemma StripKeepsNamesWithoutExtension()
    ensures StripFileExtension("file.") == "file."
    ensures StripFileExtension("a.b/c") == "a.b/c"
  {
    assert "file."[4] == '.';
    assert "a.b/c"[3] == '/';
    StripFileExtensionSpec("file.");
    StripFileExtensionSpec("a.b/c");
  }

  /** Only the last extension goes: "archive.tar.gz" becomes "archive.tar". */
  lemma StripRemovesLastExtensionOnly()
    ensures StripFileExtension("archive.tar.gz") == "archive.tar"
  {
    assert ExtensionAt("archive.tar.gz", 11);
    assert "archive.tar.gz"[..11] == "archive.tar";
    StripFileExtensionSpec("archive.tar.gz");
  }
}

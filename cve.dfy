/**
 * The CVE feed of the API (backend/api.py): the filter that drops rejected
 * and unscored entries and orders the rest newest first, the two-entry
 * per-year cache used in low-memory mode, the CVE cache refresh, and the
 * paging of `GET /get-cves`.
 *
 * The CVE directory is a list of files `<stem>.json` with their decoded
 * content; reading and decoding them is not modelled.
 */
module Cve {
  import opened Wrappers
  import opened Values
  import Text
  import Sorting
  import Paging

  const MAX_CVE_YEARS_IN_MEMORY: nat := 2

  datatype CveFile = CveFile(stem: string, content: Json)

  // ---------------------------------------------------------------------
  // _filter_cve_items

  /** A file holding a single object is read as a one-element list. */
  function AsList(data: Json): seq<Json> {
    if data.JArr? then data.items else [data]
  }

  predicate IsBrakOrNone(v: Json) {
    v == JStr("brak") || v == JStr("none")
  }

  /** The description is a string mentioning "Rejected reason". */
  predicate Rejected(m: map<string, Json>) {
    "description" in m && m["description"].JStr? && Text.Contains(m["description"].s, "Rejected reason")
  }

  /** `severity` or `severity_en` is "brak" or "none". */
  predicate NoSeverity(m: map<string, Json>) {
    IsBrakOrNone(Get(m, "severity")) || IsBrakOrNone(Get(m, "severity_en"))
  }

  /** `score` is None and `severity` is falsy. */
  predicate Unscored(m: map<string, Json>) {
    Get(m, "score") == JNull && !Truthy(Get(m, "severity"))
  }

  predicate Excluded(m: map<string, Json>) {
    Rejected(m) || NoSeverity(m) || Unscored(m)
  }

  predicate Kept(item: Json) {
    item.JObj? && !Excluded(item.fields)
  }

  /** The kept items, in input order. */
  function Retained(items: seq<Json>): seq<Json>
    decreases |items|
  {
    if |items| == 0 then []
    else
      var last := items[|items| - 1];
      Retained(items[..|items| - 1]) + (if Kept(last) then [last] else [])
  }

  /** Every item is a dict; anything else makes the filter raise. */
  predicate AllObjects(items: seq<Json>) {
    forall i :: 0 <= i < |items| ==> items[i].JObj?
  }

  /** `x.get("publishedDate", "")` */
  function Published(item: Json): Json {
    if item.JObj? then GetOr(item.fields, "publishedDate", JStr("")) else JNull
  }

  predicate PublishedIsStr(item: Json) {
    Published(item).JStr?
  }

  function PublishedKey(item: Json): string {
    StrOr(Published(item), "")
  }

  /**
   * What `_filter_cve_items` returns, or None where it raises: for an item
   * that is not a dict, or for publication dates the sort cannot compare.
   */
  function FilteredCve(data: Json): Option<seq<Json>> {
    var items := AsList(data);
    if !AllObjects(items) then None
    else
      var kept := Retained(items);
      if Sorting.Comparable(kept, PublishedIsStr) then Some(Sorting.SortDesc(kept, PublishedKey))
      else None
  }

  lemma {:induction false} RetainedMembers(items: seq<Json>)
    ensures forall x :: x in Retained(items) <==> x in items && Kept(x)
    decreases |items|
  {
    if |items| > 0 {
      var p := items[..|items| - 1];
      RetainedMembers(p);
      assert items == p + [items[|items| - 1]];
    }
  }

  /**
   * The filter keeps exactly the items no exclusion rule matches, orders
   * them by publication date newest first, and keeps the input order of
   * items published at the same date.
   */
  lemma FilteredCveContents(data: Json)
    requires FilteredCve(data).Some?
    ensures forall x :: x in FilteredCve(data).value <==> x in AsList(data) && Kept(x)
    ensures multiset(FilteredCve(data).value) == multiset(Retained(AsList(data)))
    ensures Sorting.SortedDesc(FilteredCve(data).value, PublishedKey)
    ensures forall k :: Sorting.WithKey(FilteredCve(data).value, PublishedKey, k)
                     == Sorting.WithKey(Retained(AsList(data)), PublishedKey, k)
  {
    var kept := Retained(AsList(data));
    RetainedMembers(AsList(data));
    Sorting.SortDescOrdered(kept, PublishedKey);
    forall k ensures Sorting.WithKey(FilteredCve(data).value, PublishedKey, k) == Sorting.WithKey(kept, PublishedKey, k) {
      Sorting.SortDescStable(kept, PublishedKey, k);
    }
    forall x ensures x in FilteredCve(data).value <==> x in kept {
      assert x in FilteredCve(data).value <==> x in multiset(FilteredCve(data).value);
    }
  }

  /** The filter fails only on a non-dict item or on dates it cannot compare. */
  lemma FilteredCveFails(data: Json)
    ensures FilteredCve(data).None? <==>
      (exists i :: 0 <= i < |AsList(data)| && !AsList(data)[i].JObj?) ||
      (|Retained(AsList(data))| >= 2 &&
       exists x :: x in Retained(AsList(data)) && !PublishedIsStr(x))
  {
    var kept := Retained(AsList(data));
    if AllObjects(AsList(data)) && !Sorting.Comparable(kept, PublishedIsStr) {
      var i :| 0 <= i < |kept| && !PublishedIsStr(kept[i]);
      assert kept[i] in kept;
    }
  }

  /** `_filter_cve_items(data)` */
  method FilterCveItems(data: Json) returns (r: Option<seq<Json>>)
    ensures r == FilteredCve(data)
  {
    var items := AsList(data);
    var filtered: seq<Json> := [];
    var i := 0;
    while i < |items|
      invariant 0 <= i <= |items|
      invariant AllObjects(items[..i])
      invariant filtered == Retained(items[..i])
    {
      var item := items[i];
      assert items[..i + 1][..i] == items[..i];
      if !item.JObj? {
        assert !AllObjects(items) by {
          assert !items[i].JObj?;
        }
        return None;
      }
      if !Excluded(item.fields) {
        filtered := filtered + [item];
      }
      i := i + 1;
    }
    assert items[..|items|] == items;
    if !Sorting.Comparable(filtered, PublishedIsStr) {
      return None;
    }
    r := Some(Sorting.SortDesc(filtered, PublishedKey));
  }

  // ---------------------------------------------------------------------
  // load_cve_year_data: the bounded per-year cache

  /** `cve_year_cache` and `cve_year_cache_order`. */
  datatype YearCache = YearCache(entries: map<string, seq<Json>>, order: seq<string>)

  predicate NoDuplicates(s: seq<string>) {
    forall i, j :: 0 <= i < j < |s| ==> s[i] != s[j]
  }

  /**
   * The cache holds at most two years, and its keys are exactly the years
   * of the insertion-order list, which has no repeats.
   */
  predicate CacheInv(c: YearCache) {
    && c.entries.Keys == (set y | y in c.order)
    && NoDuplicates(c.order)
    && |c.order| <= MAX_CVE_YEARS_IN_MEMORY
  }

  /** `get_cve_files(year=year)[0]`, read: the file named `<year>.json`. */
  function FileFor(dir: seq<CveFile>, year: string): Option<Json>
    decreases |dir|
  {
    if |dir| == 0 then None
    else if dir[0].stem == year then Some(dir[0].content)
    else FileFor(dir[1..], year)
  }

  /** A year read from disk, bypassing the cache. */
  function LoadUncached(dir: seq<CveFile>, year: string): Result<seq<Json>, HttpError> {
    match FileFor(dir, year)
    case None => Err(NotFound)
    case Some(raw) =>
      match FilteredCve(raw)
      case None => Err(ServerError)
      case Some(d) => Ok(d)
  }

  /** `load_cve_year_data(year)`: the new cache and the result. */
  function LoadStep(c: YearCache, dir: seq<CveFile>, year: string): (YearCache, Result<seq<Json>, HttpError>)
  {
    if year in c.entries then (c, Ok(c.entries[year]))
    else
      match LoadUncached(dir, year)
      case Err(e) => (c, Err(e))
      case Ok(d) =>
        var entries, order := c.entries[year := d], c.order + [year];
        if |order| > MAX_CVE_YEARS_IN_MEMORY then (YearCache(entries - {order[0]}, order[1..]), Ok(d))
        else (YearCache(entries, order), Ok(d))
  }

  /** Every cached list is what the filter makes of the year's file now. */
  predicate Coherent(c: YearCache, dir: seq<CveFile>) {
    forall y :: y in c.entries ==> LoadUncached(dir, y) == Ok(c.entries[y])
  }

  /** Loading keeps the cache bounded and its keys equal to the order list. */
  lemma LoadStepKeepsInv(c: YearCache, dir: seq<CveFile>, year: string)
    requires CacheInv(c)
    ensures CacheInv(LoadStep(c, dir, year).0)
  {
    if year !in c.entries && LoadUncached(dir, year).Ok? {
      var d := LoadUncached(dir, year).value;
      var entries, order := c.entries[year := d], c.order + [year];
      assert year !in c.order;
      AppendFresh(c.order, year);
      assert entries.Keys == (set y | y in order);
      if |order| > MAX_CVE_YEARS_IN_MEMORY {
        DropFirst(order);
        assert LoadStep(c, dir, year).0 == YearCache(entries - {order[0]}, order[1..]);
      } else {
        assert LoadStep(c, dir, year).0 == YearCache(entries, order);
      }
    }
  }

  /** Appending a year not yet listed keeps the list free of repeats and adds the year to its set. */
  lemma AppendFresh(order: seq<string>, year: string)
    requires NoDuplicates(order) && year !in order
    ensures NoDuplicates(order + [year])
    ensures (set y | y in order + [year]) == (set y | y in order) + {year}
  {
    var o := order + [year];
    forall i, j | 0 <= i < j < |o| ensures o[i] != o[j] {
      if j == |order| {
        assert o[i] == order[i];
        assert order[i] in order;
      } else {
        assert o[i] == order[i] && o[j] == order[j];
      }
    }
  }

  /** Dropping the oldest year of a list without repeats removes exactly that year. */
  lemma DropFirst(order: seq<string>)
    requires NoDuplicates(order) && |order| > 0
    ensures NoDuplicates(order[1..])
    ensures (set y | y in order[1..]) == (set y | y in order) - {order[0]}
  {
    var rest := order[1..];
    assert order == [order[0]] + rest;
    forall i | 0 <= i < |rest| ensures rest[i] != order[0] {
      assert rest[i] == order[i + 1];
    }
    forall i, j | 0 <= i < j < |rest| ensures rest[i] != rest[j] {
      assert rest[i] == order[i + 1] && rest[j] == order[j + 1];
    }
  }

  /**
   * A successful load leaves the year cached with the list it returned; a
   * hit returns the cached list and leaves the cache, including its order,
   * as it was; a miss returns the filtered file and, when it succeeds,
   * appends the year, evicting the oldest year only when the cache is
   * full; an error leaves the cache as it was.
   */
  lemma LoadStepResult(c: YearCache, dir: seq<CveFile>, year: string)
    requires CacheInv(c)
    ensures var (c', r) := LoadStep(c, dir, year);
      && (r.Ok? ==> year in c'.entries && c'.entries[year] == r.value)
      && (year in c.entries ==> c' == c && r == Ok(c.entries[year]))
      && (year !in c.entries ==> r == LoadUncached(dir, year))
      && (year !in c.entries && r.Ok? && |c.order| < MAX_CVE_YEARS_IN_MEMORY ==>
            c' == YearCache(c.entries[year := r.value], c.order + [year]))
      && (year !in c.entries && r.Ok? && |c.order| >= MAX_CVE_YEARS_IN_MEMORY ==>
            c' == YearCache(c.entries[year := r.value] - {c.order[0]}, c.order[1..] + [year]))
      && (r.Err? ==> c' == c && r == LoadUncached(dir, year))
  {
    if year !in c.entries && LoadUncached(dir, year).Ok? {
      assert year !in c.order;
      if |c.order| + 1 > MAX_CVE_YEARS_IN_MEMORY {
        assert |c.order| > 0;
        assert (c.order + [year])[0] == c.order[0] != year;
      }
    }
  }

  /**
   * Eviction is first-in first-out: a miss on a full cache appends the year
   * and drops the year inserted earliest, however recently it was read.
   */
  lemma LoadStepEvictsOldest(c: YearCache, dir: seq<CveFile>, year: string)
    requires CacheInv(c) && |c.order| == MAX_CVE_YEARS_IN_MEMORY
    requires year !in c.entries && LoadUncached(dir, year).Ok?
    ensures LoadStep(c, dir, year).0.order == c.order[1..] + [year]
    ensures c.order[0] !in LoadStep(c, dir, year).0.entries
    ensures forall y :: y in c.entries && y != c.order[0] ==> y in LoadStep(c, dir, year).0.entries
  {
    assert (c.order + [year])[1..] == c.order[1..] + [year];
    assert c.order[0] in c.order;
    LoadStepKeepsInv(c, dir, year);
    assert c.order[0] != year;
  }

  /** Reading "2023" again before loading "2025" does not save it from eviction. */
  lemma FifoNotLru(dir: seq<CveFile>)
    requires dir == [CveFile("2023", JArr([])), CveFile("2024", JArr([])), CveFile("2025", JArr([]))]
    ensures var c1 := LoadStep(YearCache(map[], []), dir, "2023").0;
      var c2 := LoadStep(c1, dir, "2024").0;
      var c3 := LoadStep(c2, dir, "2023").0;
      var c4 := LoadStep(c3, dir, "2025").0;
      c3 == c2 && c4.order == ["2024", "2025"] && "2023" !in c4.entries
  {
    assert Retained([]) == [];
    var c1 := LoadStep(YearCache(map[], []), dir, "2023").0;
    assert c1 == YearCache(map["2023" := []], ["2023"]);
    assert FilteredCve(JArr([])) == Some([]);
    assert "2023" != "2024" by { assert "2023"[3] != "2024"[3]; }
    assert "2023" != "2025" by { assert "2023"[3] != "2025"[3]; }
    assert "2024" != "2025" by { assert "2024"[3] != "2025"[3]; }
    assert FileFor(dir[1..], "2024") == Some(JArr([]));
    assert FileFor(dir, "2024") == Some(JArr([]));
    assert LoadUncached(dir, "2024") == Ok([]);
    var c2 := LoadStep(c1, dir, "2024").0;
    assert c2.order == ["2023", "2024"];
    assert FileFor(dir[2..], "2025") == Some(JArr([]));
    assert FileFor(dir[1..], "2025") == Some(JArr([])) by { assert dir[1..][1..] == dir[2..]; }
    assert LoadUncached(dir, "2025") == Ok([]);
    var c4 := LoadStep(c2, dir, "2025").0;
    assert ["2023", "2024", "2025"][1..] == ["2024", "2025"];
  }

  /** On a coherent cache a load returns what is on disk and keeps the cache coherent. */
  lemma LoadStepCoherent(c: YearCache, dir: seq<CveFile>, year: string)
    requires Coherent(c, dir)
    ensures LoadStep(c, dir, year).1 == LoadUncached(dir, year)
    ensures Coherent(LoadStep(c, dir, year).0, dir)
  {
  }

  /** Loading a list of years through the cache, stopping at the first error. */
  function LoadAll(c: YearCache, dir: seq<CveFile>, years: seq<string>): (YearCache, Result<seq<seq<Json>>, HttpError>)
    decreases |years|
  {
    if |years| == 0 then (c, Ok([]))
    else
      var before := LoadAll(c, dir, years[..|years| - 1]);
      if before.1.Err? then before
      else
        var step := LoadStep(before.0, dir, years[|years| - 1]);
        match step.1
        case Err(e) => (step.0, Err(e))
        case Ok(d) => (step.0, Ok(before.1.value + [d]))
  }

  /** The same years read from disk. */
  function LoadAllUncached(dir: seq<CveFile>, years: seq<string>): Result<seq<seq<Json>>, HttpError>
    decreases |years|
  {
    if |years| == 0 then Ok([])
    else
      match LoadAllUncached(dir, years[..|years| - 1])
      case Err(e) => Err(e)
      case Ok(ls) =>
        match LoadUncached(dir, years[|years| - 1])
        case Err(e) => Err(e)
        case Ok(d) => Ok(ls + [d])
  }

  /** One more successful load extends the loaded lists by one. */
  lemma LoadAllStep(c: YearCache, dir: seq<CveFile>, years: seq<string>, i: nat,
                    before: YearCache, loaded: seq<seq<Json>>, after: YearCache, d: seq<Json>)
    requires i < |years|
    requires LoadAll(c, dir, years[..i]) == (before, Ok(loaded))
    requires LoadStep(before, dir, years[i]) == (after, Ok(d))
    ensures LoadAll(c, dir, years[..i + 1]) == (after, Ok(loaded + [d]))
    ensures Paging.Flatten(loaded + [d]) == Paging.Flatten(loaded) + d
  {
    assert years[..i + 1][..i] == years[..i];
    assert (loaded + [d])[..|loaded|] == loaded;
  }

  /** A failed load ends the walk with that error. */
  lemma LoadAllStepErr(c: YearCache, dir: seq<CveFile>, years: seq<string>, i: nat,
                       before: YearCache, loaded: seq<seq<Json>>)
    requires i < |years|
    requires LoadAll(c, dir, years[..i]) == (before, Ok(loaded))
    requires LoadStep(before, dir, years[i]).1.Err?
    ensures LoadAll(c, dir, years[..i + 1])
         == (LoadStep(before, dir, years[i]).0, Err(LoadStep(before, dir, years[i]).1.error))
  {
    assert years[..i + 1][..i] == years[..i];
  }

  /** Once a load fails, the later years are not loaded. */
  lemma {:induction false} LoadAllErrStays(c: YearCache, dir: seq<CveFile>, years: seq<string>, n: nat)
    requires n <= |years| && LoadAll(c, dir, years[..n]).1.Err?
    ensures LoadAll(c, dir, years) == LoadAll(c, dir, years[..n])
    decreases |years| - n
  {
    if n < |years| {
      assert years[..n + 1][..n] == years[..n];
      LoadAllErrStays(c, dir, years, n + 1);
    } else {
      assert years[..n] == years;
    }
  }

  lemma {:induction false} LoadAllKeepsInv(c: YearCache, dir: seq<CveFile>, years: seq<string>)
    requires CacheInv(c)
    ensures CacheInv(LoadAll(c, dir, years).0)
    decreases |years|
  {
    if |years| > 0 {
      LoadAllKeepsInv(c, dir, years[..|years| - 1]);
      var before := LoadAll(c, dir, years[..|years| - 1]);
      if before.1.Ok? {
        LoadStepKeepsInv(before.0, dir, years[|years| - 1]);
      }
    }
  }

  /** On a coherent cache, loading through the cache gives what is on disk. */
  lemma {:induction false} LoadAllCoherent(c: YearCache, dir: seq<CveFile>, years: seq<string>)
    requires Coherent(c, dir)
    ensures LoadAll(c, dir, years).1 == LoadAllUncached(dir, years)
    ensures Coherent(LoadAll(c, dir, years).0, dir)
    decreases |years|
  {
    if |years| > 0 {
      LoadAllCoherent(c, dir, years[..|years| - 1]);
      var before := LoadAll(c, dir, years[..|years| - 1]);
      if before.1.Ok? {
        LoadStepCoherent(before.0, dir, years[|years| - 1]);
      }
    }
  }

  // ---------------------------------------------------------------------
  // refresh_cve_data and the CVE cache

  /** One year of the in-memory CVE cache. */
  datatype YearData = YearData(year: string, items: seq<Json>)

  function YearOf(y: YearData): string { y.year }

  function Itself(s: string): string { s }

  function Stems(dir: seq<CveFile>): seq<string> {
    seq(|dir|, i requires 0 <= i < |dir| => dir[i].stem)
  }

  /** `sorted([f.stem for f in cve_files], reverse=True)` */
  function YearsDesc(dir: seq<CveFile>): seq<string> {
    Sorting.SortDesc(Stems(dir), Itself)
  }

  function YearsOf(ys: seq<YearData>): seq<string> {
    seq(|ys|, i requires 0 <= i < |ys| => ys[i].year)
  }

  /** The non-empty filtered years, in directory order; None when a file makes the filter raise. */
  function CollectYears(dir: seq<CveFile>): Option<seq<YearData>>
    decreases |dir|
  {
    if |dir| == 0 then Some([])
    else
      match CollectYears(dir[..|dir| - 1])
      case None => None
      case Some(ys) =>
        var f := dir[|dir| - 1];
        match FilteredCve(f.content)
        case None => None
        case Some(d) => Some(if |d| > 0 then ys + [YearData(f.stem, d)] else ys)
  }

  /** The in-memory CVE data built by a refresh, newest year first; None leaves the cache as it was. */
  function InMemoryStore(dir: seq<CveFile>): Option<seq<YearData>> {
    match CollectYears(dir)
    case None => None
    case Some(ys) => if |ys| == 0 then None else Some(Sorting.SortDesc(ys, YearOf))
  }

  /** The parts of `cve_cache`, `cve_year_cache` and `cve_year_cache_order` the paging reads. */
  datatype CveState = CveState(store: Option<seq<YearData>>, availableYears: Option<seq<string>>, cache: YearCache)

  /** `refresh_cve_data()` */
  function RefreshSpec(lowMemory: bool, st: CveState, dir: seq<CveFile>): CveState {
    if |dir| == 0 then st
    else if lowMemory then CveState(None, Some(YearsDesc(dir)), YearCache(map[], []))
    else
      match InMemoryStore(dir)
      case None => st
      case Some(ys) => st.(store := Some(ys), availableYears := Some(YearsOf(ys)))
  }

  /**
   * The in-memory store holds only non-empty years, newest first, and its
   * year list is the one published as `available_years`.
   */
  lemma InMemoryStoreShape(dir: seq<CveFile>)
    requires InMemoryStore(dir).Some?
    ensures |InMemoryStore(dir).value| > 0
    ensures forall i :: 0 <= i < |InMemoryStore(dir).value| ==> |InMemoryStore(dir).value[i].items| > 0
    ensures Sorting.SortedDesc(InMemoryStore(dir).value, YearOf)
  {
    var ys := CollectYears(dir).value;
    CollectYearsNonEmpty(dir);
    Sorting.SortDescOrdered(ys, YearOf);
    var s := InMemoryStore(dir).value;
    forall i | 0 <= i < |s| ensures |s[i].items| > 0 {
      assert s[i] in multiset(ys);
    }
  }

  lemma {:induction false} CollectYearsNonEmpty(dir: seq<CveFile>)
    requires CollectYears(dir).Some?
    ensures forall y :: y in CollectYears(dir).value ==> |y.items| > 0
    decreases |dir|
  {
    if |dir| > 0 {
      CollectYearsNonEmpty(dir[..|dir| - 1]);
    }
  }

  // ---------------------------------------------------------------------
  // get_cves_data

  datatype CvePage =
    | YearPage(year: string, totalRecords: nat, totalPages: nat, currentPage: nat, pageSize: nat, data: seq<Json>)
    | AllYearsPage(totalRecords: nat, totalPages: nat, currentPage: nat, pageSize: nat,
                   availableYears: Option<seq<string>>, data: seq<Json>)

  /** The page of one year's list. */
  function YearResponse(year: string, yearData: seq<Json>, page: nat, size: nat): Result<CvePage, HttpError>
    requires page >= 1 && size >= 1
  {
    if |yearData| == 0 then Err(NotFound)
    else
      var totalPages := Paging.CeilDiv(|yearData|, size);
      if page > totalPages then Err(BadRequest)
      else Ok(YearPage(year, |yearData|, totalPages, page, size, Paging.PageWindow(yearData, page, size)))
  }

  /** The all-years page in low-memory mode, from the per-year lists. */
  function LowMemoryResponse(lists: seq<seq<Json>>, years: seq<string>, page: nat, size: nat): Result<CvePage, HttpError>
    requires page >= 1 && size >= 1
  {
    var flat := Paging.Flatten(lists);
    var offset := (page - 1) * size;
    var totalPages := if |flat| > 0 then Paging.CeilDiv(|flat|, size) else 0;
    if page > Max(totalPages, 1) then Err(BadRequest)
    else Ok(AllYearsPage(|flat|, totalPages, page, size, Some(years), Paging.PySlice(flat, offset, offset + size)))
  }

  /** The all-years page in in-memory mode. */
  function InMemoryResponse(ys: seq<YearData>, availableYears: Option<seq<string>>, page: nat, size: nat): Result<CvePage, HttpError>
    requires page >= 1 && size >= 1
  {
    var all := Paging.Flatten(seq(|ys|, i requires 0 <= i < |ys| => ys[i].items));
    var totalPages := Paging.CeilDiv(|all|, size);
    if page > totalPages then Err(BadRequest)
    else Ok(AllYearsPage(|all|, totalPages, page, size, availableYears, Paging.PageWindow(all, page, size)))
  }

  /** `year in cve_cache["data"]` and its list. */
  function StoreLookup(ys: seq<YearData>, year: string): Option<seq<Json>>
    decreases |ys|
  {
    if |ys| == 0 then None
    else if ys[0].year == year then Some(ys[0].items)
    else StoreLookup(ys[1..], year)
  }

  /** The all-years branch in low-memory mode: list the years, load each through the cache, page. */
  function AllYearsLowMemory(st: CveState, dir: seq<CveFile>, page: nat, size: nat): (CveState, Result<CvePage, HttpError>)
    requires page >= 1 && size >= 1
  {
    if |dir| == 0 then (st, Err(NotFound))
    else
      var years := YearsDesc(dir);
      var loaded := LoadAll(st.cache, dir, years);
      var st' := st.(availableYears := Some(years), cache := loaded.0);
      match loaded.1
      case Err(e) => (st', Err(e))
      case Ok(lists) => (st', LowMemoryResponse(lists, years, page, size))
  }

  lemma AllYearsLowMemoryUnfold(st: CveState, dir: seq<CveFile>, page: nat, size: nat)
    requires page >= 1 && size >= 1 && |dir| > 0
    ensures var loaded := LoadAll(st.cache, dir, YearsDesc(dir));
      AllYearsLowMemory(st, dir, page, size)
      == (st.(availableYears := Some(YearsDesc(dir)), cache := loaded.0),
          if loaded.1.Err? then Err(loaded.1.error) else LowMemoryResponse(loaded.1.value, YearsDesc(dir), page, size))
  {
  }

  /**
   * `get_cves_data(year, page, page_size)`: the new state and the response.
   * A year given as "" is treated like no year, as `if year:` does.
   */
  function GetCvesSpec(lowMemory: bool, st: CveState, dir: seq<CveFile>, year: Option<string>, page: int, size: int)
    : (CveState, Result<CvePage, HttpError>)
  {
    if st.availableYears.None? && st.store.None? then (st, Err(Unavailable))
    else if page < 1 || size < 1 || size > 1000 then (st, Err(BadRequest))
    else if year.Some? && |year.value| > 0 then
      var y := year.value;
      if lowMemory then
        if FileFor(dir, y).None? then (st, Err(NotFound))
        else
          var step := LoadStep(st.cache, dir, y);
          match step.1
          case Err(e) => (st.(cache := step.0), Err(e))
          case Ok(d) => (st.(cache := step.0), YearResponse(y, d, page, size))
      else
        match st.store
        case None => (st, Err(ServerError))
        case Some(ys) =>
          match StoreLookup(ys, y)
          case None => (st, Err(NotFound))
          case Some(d) => (st, YearResponse(y, d, page, size))
    else if lowMemory then AllYearsLowMemory(st, dir, page, size)
    else
      match st.store
      case None => (st, Err(ServerError))
      case Some(ys) => (st, InMemoryResponse(ys, st.availableYears, page, size))
  }

  /** Parameters are checked before anything is read. */
  lemma GetCvesRejectsBadParameters(lowMemory: bool, st: CveState, dir: seq<CveFile>, year: Option<string>, page: int, size: int)
    requires st.availableYears.Some? || st.store.Some?
    requires page < 1 || size < 1 || size > 1000
    ensures GetCvesSpec(lowMemory, st, dir, year, page, size) == (st, Err(BadRequest))
  {
  }

  /**
   * A year's page: 404 for an empty year, 400 past the last page, and
   * otherwise records `(page-1)*size` up to `min(page*size, total)`, where
   * the page count is the ceiling of total / size.
   */
  lemma YearResponsePaging(year: string, yearData: seq<Json>, page: nat, size: nat)
    requires page >= 1 && size >= 1
    ensures YearResponse(year, yearData, page, size) == Err(NotFound) <==> |yearData| == 0
    ensures YearResponse(year, yearData, page, size) == Err(BadRequest) <==>
      |yearData| > 0 && page > Paging.CeilDiv(|yearData|, size)
    ensures YearResponse(year, yearData, page, size).Ok? ==>
      var p := YearResponse(year, yearData, page, size).value;
      && p.totalRecords == |yearData|
      && (p.totalPages - 1) * size < |yearData| <= p.totalPages * size
      && (page - 1) * size < |yearData|
      && p.data == yearData[(page - 1) * size .. Min(page * size, |yearData|)]
      && 0 < |p.data| <= size
  {
    if |yearData| > 0 {
      Paging.CeilDivIsCeiling(|yearData|, size);
      if page <= Paging.CeilDiv(|yearData|, size) {
        Paging.PageWindowShape(yearData, page, size);
      }
    }
  }

  /** Reading every page of a year in turn returns the whole year. */
  lemma YearPagesCoverYear(year: string, yearData: seq<Json>, size: nat)
    requires size >= 1 && |yearData| > 0
    ensures var n := Paging.CeilDiv(|yearData|, size);
      Paging.Flatten(seq(n, i requires 0 <= i < n => YearResponse(year, yearData, i + 1, size).value.data)) == yearData
  {
    var n := Paging.CeilDiv(|yearData|, size);
    Paging.CeilDivIsCeiling(|yearData|, size);
    var pages := seq(n, i requires 0 <= i < n => YearResponse(year, yearData, i + 1, size).value.data);
    assert pages == Paging.Pages(yearData, size, n);
    Paging.PagesCoverAll(yearData, size);
  }

  /**
   * With a cache that agrees with the files, the low-memory all-years page
   * is the window at offset `(page-1)*size` of the years' filtered lists
   * concatenated newest year first, holds at most `size` records, and
   * counts the records of all years.
   */
  lemma LowMemoryAllYears(st: CveState, dir: seq<CveFile>, page: nat, size: nat)
    requires page >= 1 && size >= 1 && |dir| > 0
    requires Coherent(st.cache, dir)
    ensures Coherent(AllYearsLowMemory(st, dir, page, size).0.cache, dir)
    ensures AllYearsLowMemory(st, dir, page, size).0.availableYears == Some(YearsDesc(dir))
    ensures LoadAllUncached(dir, YearsDesc(dir)).Err? ==>
      AllYearsLowMemory(st, dir, page, size).1 == Err(LoadAllUncached(dir, YearsDesc(dir)).error)
    ensures LoadAllUncached(dir, YearsDesc(dir)).Ok? ==>
      AllYearsLowMemory(st, dir, page, size).1 == LowMemoryResponse(LoadAllUncached(dir, YearsDesc(dir)).value, YearsDesc(dir), page, size)
  {
    LoadAllCoherent(st.cache, dir, YearsDesc(dir));
  }

  /**
   * The all-years page in low-memory mode is the window at offset
   * `(page-1)*size` of the per-year lists concatenated in order, holds at
   * most `size` records, and counts the records of every year.
   */
  lemma LowMemoryResponseShape(lists: seq<seq<Json>>, years: seq<string>, page: nat, size: nat)
    requires page >= 1 && size >= 1
    requires LowMemoryResponse(lists, years, page, size).Ok?
    ensures LowMemoryResponse(lists, years, page, size).value.totalRecords == Paging.TotalLength(lists)
    ensures LowMemoryResponse(lists, years, page, size).value.data
         == Paging.PySlice(Paging.Flatten(lists), (page - 1) * size, (page - 1) * size + size)
    ensures |LowMemoryResponse(lists, years, page, size).value.data| <= size
    ensures LowMemoryResponse(lists, years, page, size).value.availableYears == Some(years)
  {
    var flat := Paging.Flatten(lists);
    var off := (page - 1) * size;
    var totalPages := if |flat| > 0 then Paging.CeilDiv(|flat|, size) else 0;
    var window := Paging.PySlice(flat, off, off + size);
    assert LowMemoryResponse(lists, years, page, size)
        == Ok(AllYearsPage(|flat|, totalPages, page, size, Some(years), window));
    Paging.FlattenLength(lists);
    assert |window| <= size by {
      var a, b := Min(off, |flat|), Min(off + size, |flat|);
      assert a <= b ==> b - a <= size;
    }
  }

  /**
   * An empty data set: the low-memory all-years path answers page 1 with
   * zero pages, while the in-memory path answers 400 for every page.
   */
  lemma EmptyDataContrast(years: seq<string>, ys: seq<YearData>, avail: Option<seq<string>>, page: nat, size: nat)
    requires page >= 1 && size >= 1
    requires forall i :: 0 <= i < |ys| ==> ys[i].items == []
    ensures LowMemoryResponse(seq(|years|, i => []), years, 1, size).Ok?
    ensures LowMemoryResponse(seq(|years|, i => []), years, 1, size).value.totalPages == 0
    ensures InMemoryResponse(ys, avail, page, size) == Err(BadRequest)
  {
    FlattenEmpty(seq(|years|, i => []));
    FlattenEmpty(seq(|ys|, i requires 0 <= i < |ys| => ys[i].items));
  }

  lemma {:induction false} FlattenEmpty(lists: seq<seq<Json>>)
    requires forall i :: 0 <= i < |lists| ==> lists[i] == []
    ensures Paging.Flatten(lists) == []
    decreases |lists|
  {
    if |lists| > 0 {
      FlattenEmpty(lists[..|lists| - 1]);
    }
  }

  /** The per-file loop of `refresh_cve_data` in in-memory mode. */
  method CollectYearData(dir: seq<CveFile>) returns (r: Option<seq<YearData>>)
    ensures r == CollectYears(dir)
  {
    var collected: seq<YearData> := [];
    var i := 0;
    while i < |dir|
      invariant 0 <= i <= |dir|
      invariant CollectYears(dir[..i]) == Some(collected)
    {
      assert dir[..i + 1][..i] == dir[..i];
      var filtered := FilterCveItems(dir[i].content);
      if filtered.None? {
        assert CollectYears(dir[..i + 1]) == None;
        CollectNoneStaysNone(dir, i + 1);
        return None;
      }
      if |filtered.value| > 0 {
        collected := collected + [YearData(dir[i].stem, filtered.value)];
      }
      i := i + 1;
    }
    assert dir[..|dir|] == dir;
    r := Some(collected);
  }

  /**
   * One year of the low-memory all-years walk: `paginated` is the window
   * `[offset, offset + pageSize)` of the years walked so far (`flat`), and
   * `remainingSkip` is how much of the offset they did not cover; after the
   * step both describe `flat + yearData`.
   */
  method SkipTake(paginated: seq<Json>, remainingSkip: nat, yearData: seq<Json>, pageSize: nat,
                  ghost flat: seq<Json>, ghost offset: nat)
    returns (paginated': seq<Json>, remainingSkip': nat)
    requires pageSize > 0
    requires paginated == Paging.PySlice(flat, offset, offset + pageSize)
    requires remainingSkip == if offset >= |flat| then offset - |flat| else 0
    ensures paginated' == Paging.PySlice(flat + yearData, offset, offset + pageSize)
    ensures remainingSkip' == if offset >= |flat + yearData| then offset - |flat + yearData| else 0
  {
    var yearLen := |yearData|;
    if |paginated| >= pageSize {
      Paging.SkipTakeFull(flat, yearData, offset, pageSize, paginated, remainingSkip);
      return paginated, remainingSkip;
    }
    if remainingSkip >= yearLen {
      Paging.SkipTakeSkips(flat, yearData, offset, pageSize, paginated, remainingSkip);
      return paginated, remainingSkip - yearLen;
    }
    Paging.SkipTakeTakes(flat, yearData, offset, pageSize, paginated, remainingSkip);
    var start := remainingSkip;
    var take := Min(pageSize - |paginated|, yearLen - start);
    paginated' := paginated + yearData[start..start + take];
    remainingSkip' := 0;
  }

  class CveService {
    /** `LOW_MEMORY_MODE` */
    const lowMemory: bool
    /** `cve_cache["data"]` */
    var store: Option<seq<YearData>>
    /** `cve_cache["available_years"]` */
    var availableYears: Option<seq<string>>
    var yearCache: map<string, seq<Json>>
    var yearOrder: seq<string>

    function Cache(): YearCache
      reads this
    {
      YearCache(yearCache, yearOrder)
    }

    function State(): CveState
      reads this
    {
      CveState(store, availableYears, Cache())
    }

    predicate Valid()
      reads this
    {
      CacheInv(Cache()) && (lowMemory ==> store.None?)
    }

    constructor(lowMemory: bool)
      ensures Valid() && this.lowMemory == lowMemory
      ensures State() == CveState(None, None, YearCache(map[], []))
    {
      this.lowMemory := lowMemory;
      store, availableYears := None, None;
      yearCache, yearOrder := map[], [];
    }

    /** `load_cve_year_data(year)` */
    method LoadYear(year: string, dir: seq<CveFile>) returns (r: Result<seq<Json>, HttpError>)
      requires Valid()
      modifies this
      ensures Valid()
      ensures (Cache(), r) == LoadStep(old(Cache()), dir, year)
      ensures store == old(store) && availableYears == old(availableYears)
    {
      LoadStepKeepsInv(Cache(), dir, year);
      if year in yearCache {
        return Ok(yearCache[year]);
      }
      var raw := FileFor(dir, year);
      if raw.None? {
        return Err(NotFound);
      }
      var filtered := FilterCveItems(raw.value);
      if filtered.None? {
        return Err(ServerError);
      }
      var yearData := filtered.value;
      yearCache := yearCache[year := yearData];
      yearOrder := yearOrder + [year];
      if |yearOrder| > MAX_CVE_YEARS_IN_MEMORY {
        var evicted := yearOrder[0];
        yearOrder := yearOrder[1..];
        yearCache := yearCache - {evicted};
      }
      r := Ok(yearData);
    }

    /** `refresh_cve_data()` */
    method Refresh(dir: seq<CveFile>)
      requires Valid()
      modifies this
      ensures Valid()
      ensures State() == RefreshSpec(lowMemory, old(State()), dir)
    {
      if |dir| == 0 {
        return;
      }
      if lowMemory {
        store := None;
        availableYears := Some(YearsDesc(dir));
        yearCache, yearOrder := map[], [];
        assert (set y | y in yearOrder) == {};
        return;
      }
      var collected := CollectYearData(dir);
      if collected.None? || |collected.value| == 0 {
        return;
      }
      var sorted := Sorting.SortDesc(collected.value, YearOf);
      store := Some(sorted);
      availableYears := Some(YearsOf(sorted));
    }

    /**
     * The loop over the years in low-memory mode: every year is loaded
     * through the cache, its length counted, and the records of the window
     * `[offset, offset + pageSize)` collected.
     */
    method WalkYears(dir: seq<CveFile>, years: seq<string>, offset: nat, pageSize: nat)
      returns (r: Result<(nat, seq<Json>), HttpError>)
      requires Valid() && pageSize >= 1
      modifies this
      ensures Valid() && store == old(store) && availableYears == old(availableYears)
      ensures Cache() == LoadAll(old(Cache()), dir, years).0
      ensures LoadAll(old(Cache()), dir, years).1.Err? ==> r == Err(LoadAll(old(Cache()), dir, years).1.error)
      ensures LoadAll(old(Cache()), dir, years).1.Ok? ==>
        var flat := Paging.Flatten(LoadAll(old(Cache()), dir, years).1.value);
        r == Ok((|flat|, Paging.PySlice(flat, offset, offset + pageSize)))
    {
      var remainingSkip: nat := offset;
      var paginated: seq<Json> := [];
      var totalRecords: nat := 0;
      ghost var loaded: seq<seq<Json>> := [];
      var i := 0;
      while i < |years|
        invariant 0 <= i <= |years|
        invariant Valid() && store == old(store) && availableYears == old(availableYears)
        invariant LoadAll(old(Cache()), dir, years[..i]) == (Cache(), Ok(loaded))
        invariant totalRecords == |Paging.Flatten(loaded)|
        invariant paginated == Paging.PySlice(Paging.Flatten(loaded), offset, offset + pageSize)
        invariant remainingSkip == if offset >= totalRecords then offset - totalRecords else 0
      {
        ghost var before := Cache();
        var yearResult := LoadYear(years[i], dir);
        if yearResult.Err? {
          LoadAllStepErr(old(Cache()), dir, years, i, before, loaded);
          LoadAllErrStays(old(Cache()), dir, years, i + 1);
          return Err(yearResult.error);
        }
        var yearData := yearResult.value;
        LoadAllStep(old(Cache()), dir, years, i, before, loaded, Cache(), yearData);
        paginated, remainingSkip := SkipTake(paginated, remainingSkip, yearData, pageSize, Paging.Flatten(loaded), offset);
        totalRecords := totalRecords + |yearData|;
        loaded := loaded + [yearData];
        i := i + 1;
      }
      assert years[..|years|] == years;
      r := Ok((totalRecords, paginated));
    }

    /** The all-years branch of `get_cves_data` in low-memory mode. */
    method PageAllYears(dir: seq<CveFile>, page: nat, pageSize: nat) returns (r: Result<CvePage, HttpError>)
      requires Valid() && page >= 1 && pageSize >= 1
      modifies this
      ensures Valid()
      ensures (State(), r) == AllYearsLowMemory(old(State()), dir, page, pageSize)
    {
      if |dir| == 0 {
        return Err(NotFound);
      }
      var years := YearsDesc(dir);
      availableYears := Some(years);
      var offset: nat := (page - 1) * pageSize;
      ghost var st0 := old(State());
      var walked := WalkYears(dir, years, offset, pageSize);
      AllYearsLowMemoryUnfold(st0, dir, page, pageSize);
      ghost var loaded := LoadAll(st0.cache, dir, years);
      assert State() == st0.(availableYears := Some(years), cache := loaded.0);
      if walked.Err? {
        assert loaded.1.Err?;
        return Err(walked.error);
      }
      ghost var flat := Paging.Flatten(loaded.1.value);
      assert walked.value == (|flat|, Paging.PySlice(flat, offset, offset + pageSize));
      var (totalRecords, paginated) := walked.value;
      var totalPages := if totalRecords > 0 then Paging.CeilDiv(totalRecords, pageSize) else 0;
      if page > Max(totalPages, 1) {
        assert LowMemoryResponse(loaded.1.value, years, page, pageSize) == Err(BadRequest);
        return Err(BadRequest);
      }
      r := Ok(AllYearsPage(totalRecords, totalPages, page, pageSize, Some(years), paginated));
      assert r == LowMemoryResponse(loaded.1.value, years, page, pageSize);
    }

    /** `get_cves_data(year, page, page_size)` */
    method GetCves(dir: seq<CveFile>, year: Option<string>, page: int, pageSize: int) returns (r: Result<CvePage, HttpError>)
      requires Valid()
      modifies this
      ensures Valid()
      ensures (State(), r) == GetCvesSpec(lowMemory, old(State()), dir, year, page, pageSize)
    {
      if availableYears.None? && store.None? {
        return Err(Unavailable);
      }
      if page < 1 {
        return Err(BadRequest);
      }
      if pageSize < 1 || pageSize > 1000 {
        return Err(BadRequest);
      }
      if year.Some? && |year.value| > 0 {
        var y := year.value;
        var yearData: seq<Json>;
        if lowMemory {
          if FileFor(dir, y).None? {
            return Err(NotFound);
          }
          var loaded := LoadYear(y, dir);
          if loaded.Err? {
            return Err(loaded.error);
          }
          yearData := loaded.value;
        } else {
          if store.None? {
            return Err(ServerError);
          }
          var found := StoreLookup(store.value, y);
          if found.None? {
            return Err(NotFound);
          }
          yearData := found.value;
        }
        r := PageYear(y, yearData, page, pageSize);
        return;
      }
      if lowMemory {
        r := PageAllYears(dir, page, pageSize);
        return;
      }
      if store.None? {
        return Err(ServerError);
      }
      r := PageInMemory(store.value, availableYears, page, pageSize);
    }
  }

  /** One year's page of `get_cves_data`, from that year's list. */
  method PageYear(y: string, yearData: seq<Json>, page: int, pageSize: int) returns (r: Result<CvePage, HttpError>)
    requires page >= 1 && pageSize >= 1
    ensures r == YearResponse(y, yearData, page, pageSize)
  {
    if |yearData| == 0 {
      return Err(NotFound);
    }
    var totalRecords := |yearData|;
    var totalPages := (totalRecords + pageSize - 1) / pageSize;
    if page > totalPages {
      return Err(BadRequest);
    }
    var startIdx := (page - 1) * pageSize;
    var endIdx := Min(startIdx + pageSize, totalRecords);
    r := Ok(YearPage(y, totalRecords, totalPages, page, pageSize, Paging.PySlice(yearData, startIdx, endIdx)));
  }

  /** The all-years page of `get_cves_data` in in-memory mode. */
  method PageInMemory(ys: seq<YearData>, availableYears: Option<seq<string>>, page: int, pageSize: int) returns (r: Result<CvePage, HttpError>)
    requires page >= 1 && pageSize >= 1
    ensures r == InMemoryResponse(ys, availableYears, page, pageSize)
  {
    var allData := Paging.Flatten(seq(|ys|, i requires 0 <= i < |ys| => ys[i].items));
    var totalRecords := |allData|;
    var totalPages := (totalRecords + pageSize - 1) / pageSize;
    if page > totalPages {
      return Err(BadRequest);
    }
    var startIdx := (page - 1) * pageSize;
    var endIdx := Min(startIdx + pageSize, totalRecords);
    r := Ok(AllYearsPage(totalRecords, totalPages, page, pageSize, availableYears, Paging.PySlice(allData, startIdx, endIdx)));
  }

  lemma {:induction false} CollectNoneStaysNone(dir: seq<CveFile>, n: nat)
    requires n <= |dir| && CollectYears(dir[..n]) == None
    ensures CollectYears(dir) == None
    decreases |dir| - n
  {
    if n < |dir| {
      assert dir[..n + 1][..n] == dir[..n];
      CollectNoneStaysNone(dir, n + 1);
    } else {
      assert dir[..n] == dir;
    }
  }
}

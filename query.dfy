/**
 * The query pipeline: `filter_events_by_time`, the sort and limit of `parse_jumplists` with its
 * choice between the cache and a fresh parse, and `search_jumplists`.
 *
 * Time stamps are compared as Python compares `datetime` values: a naive value and an aware one
 * cannot be ordered (`TypeError`), and two values of the same kind compare by `Rank`. String
 * sorts use Python's `str` order (`LexLt`); `reverse=True` is the stable sort under the flipped
 * order (`Desc`).
 */
module Query {
  import opened Wrappers
  import opened Text
  import opened Sorting
  import opened Timestamps
  import opened Events
  import opened Paths
  import opened Normalizer
  import opened Cache

  // ---- filter_events_by_time ----

  /** A bound that is given (truthy) but that `fromisoformat` refuses: the filter raises. */
  predicate BoundFails(b: Option<string>) {
    Truthy(b) && ParseIso(b.value).None?
  }

  /** The parsed bound, `None` when the bound is not given. */
  function Bound(b: Option<string>): Option<IsoTime> {
    if Truthy(b) then ParseIso(b.value) else None
  }

  /** Python's `a < b` on datetimes: `None` (a `TypeError`) when one is naive and the other aware. */
  function Before(a: IsoTime, b: IsoTime): (r: Option<bool>)
    ensures r.None? <==> a.aware != b.aware
    ensures r == Some(true) ==> Rank(a.dt) < Rank(b.dt)
  {
    if a.aware != b.aware then None else Some(Rank(a.dt) < Rank(b.dt))
  }

  /**
   * An event time stamp the filter keeps: it parses, it is not before `lo` and not after `hi`;
   * a time stamp that does not parse, or that cannot be compared with a bound, raises inside
   * the `try` and is skipped.
   */
  predicate InWindow(ts: string, lo: Option<IsoTime>, hi: Option<IsoTime>) {
    match ParseIso(ts)
    case None => false
    case Some(t) =>
      (lo.None? || Before(t, lo.value) == Some(false)) && (hi.None? || Before(hi.value, t) == Some(false))
  }

  /** The events of `events` inside the window, in their order. */
  function Window(events: seq<JumpListEvent>, lo: Option<IsoTime>, hi: Option<IsoTime>): (r: seq<JumpListEvent>)
    ensures |r| <= |events|
  {
    if events == [] then []
    else
      var init := Window(events[..|events| - 1], lo, hi);
      var e := events[|events| - 1];
      if InWindow(e.timestampUtc, lo, hi) then init + [e] else init
  }

  /**
   * `filter_events_by_time(events, time_from, time_to)`: the input itself when neither bound is
   * given; an error when a given bound does not parse; else the events inside the window.
   */
  function FilterByTime(events: seq<JumpListEvent>, timeFrom: Option<string>, timeTo: Option<string>)
    : (r: Result<seq<JumpListEvent>>)
    ensures !Truthy(timeFrom) && !Truthy(timeTo) ==> r == Ok(events)
    ensures r.Err? <==> BoundFails(timeFrom) || BoundFails(timeTo)
  {
    if !Truthy(timeFrom) && !Truthy(timeTo) then Ok(events)
    else if BoundFails(timeFrom) then Err("Invalid isoformat string: " + timeFrom.value)
    else if BoundFails(timeTo) then Err("Invalid isoformat string: " + timeTo.value)
    else Ok(Window(events, Bound(timeFrom), Bound(timeTo)))
  }

  /** `filter_events_by_time`: the early return, the parse of each given bound, then the loop. */
  method FilterEventsByTime(events: seq<JumpListEvent>, timeFrom: Option<string>, timeTo: Option<string>)
    returns (r: Result<seq<JumpListEvent>>)
    ensures r == FilterByTime(events, timeFrom, timeTo)
  {
    if !Truthy(timeFrom) && !Truthy(timeTo) {
      return Ok(events);
    }
    if BoundFails(timeFrom) {
      return Err("Invalid isoformat string: " + timeFrom.value);
    }
    if BoundFails(timeTo) {
      return Err("Invalid isoformat string: " + timeTo.value);
    }
    var filtered := FilterWindow(events, Bound(timeFrom), Bound(timeTo));
    return Ok(filtered);
  }

  /** The `for` loop of `filter_events_by_time`, once both bounds have parsed. */
  method FilterWindow(events: seq<JumpListEvent>, lo: Option<IsoTime>, hi: Option<IsoTime>)
    returns (filtered: seq<JumpListEvent>)
    ensures filtered == Window(events, lo, hi)
  {
    filtered := [];
    var i := 0;
    while i < |events|
      invariant 0 <= i <= |events|
      invariant filtered == Window(events[..i], lo, hi)
    {
      WindowStep(events, i, lo, hi);
      var keep := KeepsEvent(events[i].timestampUtc, lo, hi);
      if keep {
        filtered := filtered + [events[i]];
      }
      i := i + 1;
    }
    assert events[..i] == events;
  }

  /**
   * The body of the filter's `try`: parse the event's time stamp and compare it with the bounds;
   * a parse failure or an incomparable pair raises and the event is skipped.
   */
  method KeepsEvent(ts: string, lo: Option<IsoTime>, hi: Option<IsoTime>) returns (keep: bool)
    ensures keep <==> InWindow(ts, lo, hi)
  {
    var parsed := ParseIso(ts);
    keep := false;
    if parsed.Some? {
      var t := parsed.value;
      var early := if lo.Some? then Before(t, lo.value) else Some(false);
      var late := if hi.Some? then Before(hi.value, t) else Some(false);
      keep := early == Some(false) && late == Some(false);
    }
  }

  /** One more event either joins the window's result or is skipped. */
  lemma WindowStep(events: seq<JumpListEvent>, i: nat, lo: Option<IsoTime>, hi: Option<IsoTime>)
    requires i < |events|
    ensures Window(events[..i + 1], lo, hi)
            == Window(events[..i], lo, hi) + (if InWindow(events[i].timestampUtc, lo, hi) then [events[i]] else [])
  {
    assert events[..i + 1][..i] == events[..i];
  }

  /** The window is applied event by event: it distributes over concatenation. */
  lemma {:induction false} WindowAppend(a: seq<JumpListEvent>, b: seq<JumpListEvent>, lo: Option<IsoTime>,
                                        hi: Option<IsoTime>)
    ensures Window(a + b, lo, hi) == Window(a, lo, hi) + Window(b, lo, hi)
  {
    if b == [] {
      assert a + b == a;
    } else {
      var b0 := b[..|b| - 1];
      assert (a + b)[..|a + b| - 1] == a + b0;
      WindowAppend(a, b0, lo, hi);
    }
  }

  /** An event is in the window's result exactly when it is in the input and inside the window. */
  lemma {:induction false} WindowMembers(events: seq<JumpListEvent>, lo: Option<IsoTime>, hi: Option<IsoTime>,
                                         e: JumpListEvent)
    ensures e in Window(events, lo, hi) <==> e in events && InWindow(e.timestampUtc, lo, hi)
  {
    if events != [] {
      var init := events[..|events| - 1];
      WindowMembers(init, lo, hi, e);
      assert events == init + [events[|events| - 1]];
    }
  }

  /** The result keeps each event inside the window as often as the input holds it, and no other. */
  lemma {:induction false} WindowCounts(events: seq<JumpListEvent>, lo: Option<IsoTime>, hi: Option<IsoTime>,
                                        e: JumpListEvent)
    ensures multiset(Window(events, lo, hi))[e] == if InWindow(e.timestampUtc, lo, hi) then multiset(events)[e] else 0
  {
    if events != [] {
      var init := events[..|events| - 1];
      WindowCounts(init, lo, hi, e);
      assert events == init + [events[|events| - 1]];
    }
  }

  /**
   * Both bounds are inclusive: with aware bounds, an event stamped in the canonical UTC form is
   * kept exactly when its time lies between them, the end points included.
   */
  lemma InWindowOfCanonical(dt: DateTime, from: DateTime, to: DateTime)
    requires ValidDateTime(dt)
    ensures InWindow(Render(dt), Some(IsoTime(from, true)), Some(IsoTime(to, true)))
            <==> Rank(from) <= Rank(dt) <= Rank(to)
  {
    ParseIsoOfRender(dt);
  }

  /** A naive bound (no `Z`, no offset) cannot be compared with a canonical UTC time stamp: every such event is dropped. */
  lemma NaiveBoundDropsCanonical(dt: DateTime, from: Option<IsoTime>, to: Option<IsoTime>)
    requires ValidDateTime(dt)
    requires (from.Some? && !from.value.aware) || (to.Some? && !to.value.aware)
    ensures !InWindow(Render(dt), from, to)
  {
    ParseIsoOfRender(dt);
  }

  /** With some bound given, an event whose time stamp does not parse is dropped. */
  lemma {:induction false} UnparsedDropped(events: seq<JumpListEvent>, timeFrom: Option<string>,
                                           timeTo: Option<string>, e: JumpListEvent)
    requires Truthy(timeFrom) || Truthy(timeTo)
    requires FilterByTime(events, timeFrom, timeTo).Ok?
    requires ParseIso(e.timestampUtc).None?
    ensures e !in FilterByTime(events, timeFrom, timeTo).value
  {
    WindowMembers(events, Bound(timeFrom), Bound(timeTo), e);
  }

  // ---- Sort and limit ----

  function TimestampOf(e: JumpListEvent): string {
    e.timestampUtc
  }

  function PathOf(e: JumpListEvent): string {
    e.targetPath
  }

  /** The order `reverse=True` sorts by: `a` goes first when `b < a`. */
  predicate Desc(a: string, b: string) {
    LexLt(b, a)
  }

  /** Python's `str` order and its reverse are strict total orders. */
  lemma LexOrders()
    ensures StrictTotalOrder(LexLt) && StrictTotalOrder(Desc)
  {
    forall a: string
      ensures !LexLt(a, a)
    {
      LexLtIrreflexive(a);
    }
    forall a: string, b: string, c: string | LexLt(a, b) && LexLt(b, c)
      ensures LexLt(a, c)
    {
      LexLtTransitive(a, b, c);
    }
    forall a: string, b: string | a != b
      ensures LexLt(a, b) || LexLt(b, a)
    {
      LexLtTotal(a, b);
    }
  }

  /** `events.sort(...)` as `sort_by` selects it: newest first, or by path, or left as it is. */
  function SortEvents(events: seq<JumpListEvent>, sortBy: string): seq<JumpListEvent> {
    if sortBy == "timestamp" then InsertionSort(events, TimestampOf, Desc)
    else if sortBy == "path" then InsertionSort(events, PathOf, LexLt)
    else events
  }

  /**
   * The sort keeps every event: `"timestamp"` orders time stamps non-increasing, `"path"` orders
   * paths non-decreasing, and any other `sort_by` keeps the input order.
   */
  lemma SortEventsOrders(events: seq<JumpListEvent>, sortBy: string)
    ensures multiset(SortEvents(events, sortBy)) == multiset(events)
    ensures sortBy == "timestamp" ==>
      forall i, j | 0 <= i < j < |events| :: !LexLt(SortEvents(events, sortBy)[i].timestampUtc,
                                                    SortEvents(events, sortBy)[j].timestampUtc)
    ensures sortBy == "path" ==>
      forall i, j | 0 <= i < j < |events| :: !LexLt(SortEvents(events, sortBy)[j].targetPath,
                                                    SortEvents(events, sortBy)[i].targetPath)
    ensures sortBy != "timestamp" && sortBy != "path" ==> SortEvents(events, sortBy) == events
  {
    LexOrders();
    if sortBy == "timestamp" {
      SortSorted(events, TimestampOf, Desc);
    } else if sortBy == "path" {
      SortSorted(events, PathOf, LexLt);
    }
  }

  /** The in-place `events.sort(...)` of `parse_jumplists`. */
  method SortEventsInPlace(events: seq<JumpListEvent>, sortBy: string) returns (sorted: seq<JumpListEvent>)
    ensures sorted == SortEvents(events, sortBy)
  {
    var a := new JumpListEvent[|events|](i requires 0 <= i < |events| => events[i]);
    assert a[..] == events;
    LexOrders();
    if sortBy == "timestamp" {
      SortInPlace(a, TimestampOf, Desc);
    } else if sortBy == "path" {
      SortInPlace(a, PathOf, LexLt);
    }
    sorted := a[..];
  }

  /** `if limit and limit > 0: events = events[:limit]`. */
  function Limit<T>(s: seq<T>, limit: Option<int>): (r: seq<T>)
    ensures |r| <= |s| && r == s[..|r|]
    ensures limit.Some? && limit.value > 0 ==> |r| == if limit.value < |s| then limit.value else |s|
    ensures !(limit.Some? && limit.value > 0) ==> r == s
  {
    if limit.Some? && limit.value > 0 && limit.value < |s| then s[..limit.value] else s
  }

  /** `[event.to_dict() for event in events]`. */
  function Projections(events: seq<JumpListEvent>): (r: seq<Projection>)
    ensures |r| == |events| && forall i | 0 <= i < |events| :: r[i] == ToDict(events[i])
  {
    seq(|events|, i requires 0 <= i < |events| => ToDict(events[i]))
  }

  // ---- parse_jumplists ----

  /**
   * Where `parse_jumplists` takes its events from: the cached list of the directory when the
   * cache is used and holds a non-empty one, else the events of the CSV rows JLECmd produced.
   */
  function LoadedEvents(db: Db, useCache: bool, dir: string, rows: seq<Row>): seq<JumpListEvent> {
    var cached := if useCache then CachedEvents(db, CacheKey(dir)) else None;
    if cached.Some? then cached.value else NormalizeRows(rows)
  }

  /** The cache after `parse_jumplists`: a fresh non-empty parse is saved under the directory's key. */
  function CacheAfter(db: Db, digest: seq<FileEntry> -> string, fs: FileSystem, useCache: bool, dir: string,
                      rows: seq<Row>, now: string): Db
  {
    if useCache && CachedEvents(db, CacheKey(dir)).None? && NormalizeRows(rows) != [] then
      Save(db, digest, JumpListFiles(fs, DirName(CacheKey(dir))), CacheKey(dir), NormalizeRows(rows), now)
    else db
  }

  /** Filter, sort and limit. */
  function Select(events: seq<JumpListEvent>, timeFrom: Option<string>, timeTo: Option<string>,
                  limit: Option<int>, sortBy: string): Result<seq<JumpListEvent>>
  {
    var filtered :- FilterByTime(events, timeFrom, timeTo);
    Ok(Limit(SortEvents(filtered, sortBy), limit))
  }

  /** What `parse_jumplists` returns: `ValueError` for a path that is not a directory. */
  function ParseResult(db: Db, useCache: bool, fs: FileSystem, dir: string, rows: seq<Row>,
                       timeFrom: Option<string>, timeTo: Option<string>, limit: Option<int>,
                       sortBy: string): Result<seq<Projection>>
  {
    if !IsDir(fs, dir) then Err("JumpList directory not found: " + dir)
    else
      var events :- Select(LoadedEvents(db, useCache, dir, rows), timeFrom, timeTo, limit, sortBy);
      Ok(Projections(events))
  }

  /**
   * `parse_jumplists(dir, time_from, time_to, limit=limit, sort_by=sort_by, use_cache=use_cache)`;
   * `rows` are the CSV rows JLECmd writes for `dir`, `fs` the file system and `now` the clock.
   */
  method ParseJumplists(cache: JumpListCache, useCache: bool, fs: FileSystem, dir: string, rows: seq<Row>,
                        timeFrom: Option<string>, timeTo: Option<string>, limit: Option<int>,
                        sortBy: string, now: string) returns (r: Result<seq<Projection>>)
    requires cache.Valid()
    modifies cache
    ensures cache.Valid()
    ensures r == ParseResult(old(cache.State()), useCache, fs, dir, rows, timeFrom, timeTo, limit, sortBy)
    ensures cache.State() == if IsDir(fs, dir) then CacheAfter(old(cache.State()), cache.digest, fs, useCache,
                                                               dir, rows, now)
                             else old(cache.State())
  {
    if !IsDir(fs, dir) {
      return Err("JumpList directory not found: " + dir);
    }
    var events := LoadOrParse(cache, useCache, fs, dir, rows, now);
    var filtered :- FilterEventsByTime(events, timeFrom, timeTo);
    var sorted := SortEventsInPlace(filtered, sortBy);
    r := Ok(Projections(Limit(sorted, limit)));
  }

  /** The cache lookup of `parse_jumplists`, falling back to `_parse_and_cache`. */
  method LoadOrParse(cache: JumpListCache, useCache: bool, fs: FileSystem, dir: string, rows: seq<Row>,
                     now: string) returns (events: seq<JumpListEvent>)
    requires cache.Valid()
    modifies cache
    ensures cache.Valid()
    ensures events == LoadedEvents(old(cache.State()), useCache, dir, rows)
    ensures cache.State() == CacheAfter(old(cache.State()), cache.digest, fs, useCache, dir, rows, now)
  {
    var cached: Option<seq<JumpListEvent>> := None;
    if useCache {
      cached := cache.GetCachedEvents(dir);
    }
    if cached.Some? {
      events := cached.value;
    } else {
      events := CsvToEvents(rows);
      if useCache && events != [] {
        cache.SaveEvents(fs, CacheKey(dir), events, now);
      }
    }
  }

  /**
   * A successful query with `limit > 0` returns `min(limit, n)` events of the `n` that pass the
   * filter, and all `n` with no positive limit; each is one of the loaded events.
   */
  lemma SelectSize(events: seq<JumpListEvent>, timeFrom: Option<string>, timeTo: Option<string>,
                   limit: Option<int>, sortBy: string)
    requires Select(events, timeFrom, timeTo, limit, sortBy).Ok?
    ensures var n := |FilterByTime(events, timeFrom, timeTo).value|;
      |Select(events, timeFrom, timeTo, limit, sortBy).value|
      == if limit.Some? && 0 < limit.value < n then limit.value else n
    ensures multiset(Select(events, timeFrom, timeTo, limit, sortBy).value) <= multiset(events)
  {
    var filtered := FilterByTime(events, timeFrom, timeTo).value;
    var sorted := SortEvents(filtered, sortBy);
    var r := Limit(sorted, limit);
    assert Select(events, timeFrom, timeTo, limit, sortBy).value == r;
    assert multiset(sorted) == multiset(filtered) by {
      SortEventsOrders(filtered, sortBy);
    }
    assert multiset(r) <= multiset(sorted) by {
      assert sorted == r + sorted[|r|..];
    }
    assert multiset(filtered) <= multiset(events) by {
      FilterByTimeSub(events, timeFrom, timeTo);
    }
  }

  /** A successful time filter keeps each event at most as often as the input holds it. */
  lemma FilterByTimeSub(events: seq<JumpListEvent>, timeFrom: Option<string>, timeTo: Option<string>)
    requires FilterByTime(events, timeFrom, timeTo).Ok?
    ensures multiset(FilterByTime(events, timeFrom, timeTo).value) <= multiset(events)
  {
    if Truthy(timeFrom) || Truthy(timeTo) {
      var lo, hi := Bound(timeFrom), Bound(timeTo);
      forall e
        ensures multiset(Window(events, lo, hi))[e] <= multiset(events)[e]
      {
        WindowCounts(events, lo, hi, e);
      }
    }
  }

  // ---- search_jumplists ----

  /** `keyword.lower() in e.get('target_path', '').lower()`. */
  predicate KeywordMatches(d: Projection, keyword: string) {
    Contains(Lower(GetStr(d, TargetPath)), Lower(keyword))
  }

  /** The comprehension of `search_jumplists`: the matching entries, in their order. */
  function KeywordFilter(ds: seq<Projection>, keyword: string): (r: seq<Projection>)
    ensures |r| <= |ds|
  {
    if ds == [] then []
    else
      var init := KeywordFilter(ds[..|ds| - 1], keyword);
      if KeywordMatches(ds[|ds| - 1], keyword) then init + [ds[|ds| - 1]] else init
  }

  /** `e.get('timestamp_utc', '')`. */
  function StampOf(d: Projection): string {
    GetStr(d, TimestampUtc)
  }

  /** The entries `search_jumplists` returns from the entries `parse_jumplists` gave it. */
  function SearchResults(ds: seq<Projection>, keyword: string, limit: Option<int>): seq<Projection> {
    Limit(InsertionSort(KeywordFilter(ds, keyword), StampOf, Desc), limit)
  }

  /**
   * `search_jumplists(dir, keyword, time_from, time_to, limit=limit, use_cache=use_cache)`: all
   * events in the time window, newest first, unlimited, then the keyword filter, the sort and
   * the limit.
   */
  method SearchJumplists(cache: JumpListCache, useCache: bool, fs: FileSystem, dir: string, rows: seq<Row>,
                         keyword: string, timeFrom: Option<string>, timeTo: Option<string>,
                         limit: Option<int>, now: string) returns (r: Result<seq<Projection>>)
    requires cache.Valid()
    modifies cache
    ensures cache.Valid()
    ensures var parsed := ParseResult(old(cache.State()), useCache, fs, dir, rows, timeFrom, timeTo, Some(0),
                                      "timestamp");
      r == if parsed.Err? then Err(parsed.error) else Ok(SearchResults(parsed.value, keyword, limit))
    ensures cache.State() == if IsDir(fs, dir) then CacheAfter(old(cache.State()), cache.digest, fs, useCache,
                                                               dir, rows, now)
                             else old(cache.State())
  {
    var events :- ParseJumplists(cache, useCache, fs, dir, rows, timeFrom, timeTo, Some(0), "timestamp", now);
    var matching := KeywordFilter(events, keyword);
    var sorted := SortNewestFirst(matching);
    r := Ok(Limit(sorted, limit));
  }

  /** `matching.sort(key=lambda e: e.get('timestamp_utc', ''), reverse=True)`, in place. */
  method SortNewestFirst(matching: seq<Projection>) returns (sorted: seq<Projection>)
    ensures sorted == InsertionSort(matching, StampOf, Desc)
  {
    var a := new Projection[|matching|](i requires 0 <= i < |matching| => matching[i]);
    assert a[..] == matching;
    LexOrders();
    SortInPlace(a, StampOf, Desc);
    sorted := a[..];
  }

  /** An entry survives the keyword filter exactly when it is an input entry that matches. */
  lemma {:induction false} KeywordFilterMembers(ds: seq<Projection>, keyword: string, d: Projection)
    ensures d in KeywordFilter(ds, keyword) <==> d in ds && KeywordMatches(d, keyword)
  {
    if ds != [] {
      var init := ds[..|ds| - 1];
      KeywordFilterMembers(init, keyword, d);
      assert ds == init + [ds[|ds| - 1]];
    }
  }

  lemma {:induction false} KeywordFilterCounts(ds: seq<Projection>, keyword: string, d: Projection)
    ensures multiset(KeywordFilter(ds, keyword))[d] == if KeywordMatches(d, keyword) then multiset(ds)[d] else 0
  {
    if ds != [] {
      var init, x := ds[..|ds| - 1], ds[|ds| - 1];
      KeywordFilterCounts(init, keyword, d);
      assert multiset(ds) == multiset(init) + multiset{x} by {
        assert ds == init + [x];
      }
      var kept := KeywordFilter(init, keyword);
      if KeywordMatches(x, keyword) {
        assert KeywordFilter(ds, keyword) == kept + [x];
        assert multiset(kept + [x]) == multiset(kept) + multiset{x};
      } else {
        assert KeywordFilter(ds, keyword) == kept;
      }
    }
  }

  /** The keyword filter keeps each matching entry as often as the input holds it. */
  lemma KeywordFilterSub(ds: seq<Projection>, keyword: string)
    ensures multiset(KeywordFilter(ds, keyword)) <= multiset(ds)
  {
    forall d
      ensures multiset(KeywordFilter(ds, keyword))[d] <= multiset(ds)[d]
    {
      KeywordFilterCounts(ds, keyword, d);
    }
  }

  /** Every search result is an input entry that matches the keyword case-insensitively. */
  lemma SearchResultsMatch(ds: seq<Projection>, keyword: string, limit: Option<int>)
    ensures var r := SearchResults(ds, keyword, limit);
      && (forall i | 0 <= i < |r| :: KeywordMatches(r[i], keyword))
      && multiset(r) <= multiset(ds)
  {
    var matching := KeywordFilter(ds, keyword);
    var sorted := InsertionSort(matching, StampOf, Desc);
    var r := Limit(sorted, limit);
    assert sorted == r + sorted[|r|..];
    KeywordFilterSub(ds, keyword);
    forall i | 0 <= i < |r|
      ensures KeywordMatches(r[i], keyword)
    {
      assert r[i] in multiset(sorted);
      KeywordFilterMembers(ds, keyword, r[i]);
    }
  }

  /** The search results are newest first, and a positive limit bounds their number. */
  lemma SearchResultsOrder(ds: seq<Projection>, keyword: string, limit: Option<int>)
    ensures var r := SearchResults(ds, keyword, limit);
      && (forall i, j | 0 <= i < j < |r| :: !LexLt(StampOf(r[i]), StampOf(r[j])))
      && (limit.Some? && limit.value > 0 ==> |r| <= limit.value)
  {
    var matching := KeywordFilter(ds, keyword);
    LexOrders();
    SortSorted(matching, StampOf, Desc);
  }

  /** Without a positive limit, every matching input entry is among the search results. */
  lemma SearchResultsComplete(ds: seq<Projection>, keyword: string, limit: Option<int>, d: Projection)
    requires !(limit.Some? && limit.value > 0)
    requires d in ds && KeywordMatches(d, keyword)
    ensures d in SearchResults(ds, keyword, limit)
  {
    var matching := KeywordFilter(ds, keyword);
    KeywordFilterMembers(ds, keyword, d);
    assert d in multiset(matching);
    assert d in multiset(InsertionSort(matching, StampOf, Desc));
  }
}

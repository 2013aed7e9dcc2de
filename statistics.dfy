/**
 * `get_jumplist_statistics`: all events of a directory, newest first, rebuilt from their
 * dictionaries, then summarised: the number of events and of distinct applications, the range
 * of their time stamps, the ten most used applications and file extensions, the ten most recent
 * events, and the sorted list of applications.
 */
module Statistics {
  import opened Wrappers
  import opened Text
  import opened Sorting
  import opened Timestamps
  import opened Events
  import opened Paths
  import opened Normalizer
  import opened Cache
  import opened Counter
  import opened Query

  datatype DateRange = DateRange(earliest: string, latest: string)

  /** One entry of `recent_files`. */
  datatype RecentFile = RecentFile(timestamp: string, app: string, path: string)

  /** The dictionary `get_jumplist_statistics` returns; `appList` is `None` where it has no `app_list` key. */
  datatype Summary = Summary(
    totalEvents: nat,
    uniqueApps: nat,
    dateRange: Option<DateRange>,
    topApps: Counts<string>,
    topExtensions: Counts<string>,
    recentFiles: seq<RecentFile>,
    appList: Option<seq<string>>)

  /** The fixed answer for a directory without events. */
  const EmptySummary := Summary(0, 0, None, [], [], [], None)

  // ---- Rebuilding the events ----

  /** `[JumpListEvent(**e) for e in events_dict]`: `None` (a `TypeError`) when one dictionary lacks a required field. */
  function RebuildAll(ds: seq<Projection>): Option<seq<JumpListEvent>> {
    if ds == [] then Some([])
    else
      var init := RebuildAll(ds[..|ds| - 1]);
      var last := FromDict(ds[|ds| - 1]);
      if init.None? || last.None? then None else Some(init.value + [last.value])
  }

  /** Rebuilding succeeds with each dictionary's event in order, and fails only on a dictionary that fails. */
  lemma {:induction false} RebuildAllSpec(ds: seq<Projection>)
    ensures var r := RebuildAll(ds);
      && (r.Some? ==> |r.value| == |ds| && forall i | 0 <= i < |ds| :: FromDict(ds[i]) == Some(r.value[i]))
      && (r.None? ==> exists i | 0 <= i < |ds| :: FromDict(ds[i]).None?)
  {
    if ds != [] {
      var init := ds[..|ds| - 1];
      RebuildAllSpec(init);
      var r, ri := RebuildAll(ds), RebuildAll(init);
      if r.Some? {
        forall i | 0 <= i < |ds|
          ensures FromDict(ds[i]) == Some(r.value[i])
        {
          if i < |init| {
            assert ds[i] == init[i];
          }
        }
      } else if ri.None? {
        var i :| 0 <= i < |init| && FromDict(init[i]).None?;
        assert ds[i] == init[i];
      }
    }
  }

  /** Every event of the sequence has an application id. */
  predicate HaveApps(events: seq<JumpListEvent>) {
    forall i | 0 <= i < |events| :: events[i].appId.Some?
  }

  /**
   * The events `parse_jumplists` returned come back from their dictionaries unchanged when each
   * has an application id; otherwise the rebuild raises.
   */
  lemma {:induction false} RebuildProjections(events: seq<JumpListEvent>)
    ensures RebuildAll(Projections(events)) == if HaveApps(events) then Some(events) else None
  {
    if events != [] {
      var init, last := events[..|events| - 1], events[|events| - 1];
      var ps := Projections(events);
      assert ps[..|ps| - 1] == Projections(init);
      RebuildProjections(init);
      assert FromDict(ps[|ps| - 1]) == if last.appId.Some? then Some(last) else None by {
        RoundTrip(last);
      }
      RebuildSnoc(ps, init, last);
      assert events == init + [last];
    }
  }

  /** The induction step of `RebuildProjections`, over the rebuilt prefix and last event. */
  lemma RebuildSnoc(ps: seq<Projection>, init: seq<JumpListEvent>, last: JumpListEvent)
    requires ps != [] && RebuildAll(ps[..|ps| - 1]) == if HaveApps(init) then Some(init) else None
    requires FromDict(ps[|ps| - 1]) == if last.appId.Some? then Some(last) else None
    ensures RebuildAll(ps) == if HaveApps(init + [last]) then Some(init + [last]) else None
  {
    RebuildAllStep(ps);
    HaveAppsSnoc(init + [last]);
    assert (init + [last])[..|init|] == init;
  }

  /** Rebuilding a non-empty list rebuilds its prefix and then its last dictionary. */
  lemma RebuildAllStep(ds: seq<Projection>)
    requires ds != []
    ensures var init, last := RebuildAll(ds[..|ds| - 1]), FromDict(ds[|ds| - 1]);
      RebuildAll(ds) == if init.None? || last.None? then None else Some(init.value + [last.value])
  {
  }

  /** A non-empty sequence has application ids exactly when its prefix and its last event do. */
  lemma HaveAppsSnoc(events: seq<JumpListEvent>)
    requires events != []
    ensures HaveApps(events) <==> HaveApps(events[..|events| - 1]) && events[|events| - 1].appId.Some?
  {
    var init := events[..|events| - 1];
    if HaveApps(init) && events[|events| - 1].appId.Some? {
      forall i | 0 <= i < |events|
        ensures events[i].appId.Some?
      {
        if i < |init| {
          assert events[i] == init[i];
        }
      }
    }
  }

  /** A rebuilt event always has an application id. */
  lemma RebuiltHaveApps(ds: seq<Projection>)
    requires RebuildAll(ds).Some?
    ensures HaveApps(RebuildAll(ds).value)
  {
    var events := RebuildAll(ds).value;
    RebuildAllSpec(ds);
    forall i | 0 <= i < |events|
      ensures events[i].appId.Some?
    {
      assert FromDict(ds[i]) == Some(events[i]);
    }
  }

  // ---- Applications ----

  /** `e.app_id` of every event, in order. */
  function AppsOf(events: seq<JumpListEvent>): (apps: seq<string>)
    requires HaveApps(events)
    ensures |apps| == |events| && forall i | 0 <= i < |events| :: Some(apps[i]) == events[i].appId
  {
    seq(|events|, i requires 0 <= i < |events| && HaveApps(events) => events[i].appId.value)
  }

  function Itself(s: string): string {
    s
  }

  /** `sorted(list(set(apps)))`, the set enumerated in order of first appearance. */
  function AppList(apps: seq<string>): seq<string> {
    InsertionSort(Keys(apps), Itself, LexLt)
  }

  // ---- Date range ----

  /** The time stamps of `events` that `fromisoformat` reads, in order; the others are skipped. */
  function TimesOf(events: seq<JumpListEvent>): (ts: seq<IsoTime>)
    ensures |ts| <= |events|
    ensures forall i | 0 <= i < |ts| :: ValidDateTime(ts[i].dt)
  {
    if events == [] then []
    else
      var init := TimesOf(events[..|events| - 1]);
      var t := ParseIso(events[|events| - 1].timestampUtc);
      if t.Some? then init + [t.value] else init
  }

  /** The loop that collects the time stamps. */
  method ParseTimes(events: seq<JumpListEvent>) returns (ts: seq<IsoTime>)
    ensures ts == TimesOf(events)
  {
    ts := [];
    var i := 0;
    while i < |events|
      invariant 0 <= i <= |events|
      invariant ts == TimesOf(events[..i])
    {
      assert events[..i + 1][..i] == events[..i];
      var t := ParseIso(events[i].timestampUtc);
      if t.Some? {
        ts := ts + [t.value];
      }
      i := i + 1;
    }
    assert events[..i] == events;
  }

  /** Every time is of the same kind as the first: all naive or all aware. */
  predicate SameKind(ts: seq<IsoTime>) {
    forall i | 0 <= i < |ts| :: ts[i].aware == ts[0].aware
  }

  /** `min(ts)`: keeps the first of the smallest; comparing a naive and an aware time raises. */
  function MinTime(ts: seq<IsoTime>): Result<IsoTime>
    requires ts != []
  {
    if |ts| == 1 then Ok(ts[0])
    else
      var m :- MinTime(ts[..|ts| - 1]);
      var x := ts[|ts| - 1];
      match Before(x, m)
      case None => Err("can't compare offset-naive and offset-aware datetimes")
      case Some(less) => Ok(if less then x else m)
  }

  /** `max(ts)`: keeps the first of the largest; comparing a naive and an aware time raises. */
  function MaxTime(ts: seq<IsoTime>): Result<IsoTime>
    requires ts != []
  {
    if |ts| == 1 then Ok(ts[0])
    else
      var m :- MaxTime(ts[..|ts| - 1]);
      var x := ts[|ts| - 1];
      match Before(m, x)
      case None => Err("can't compare offset-naive and offset-aware datetimes")
      case Some(greater) => Ok(if greater then x else m)
  }

  /**
   * `min` succeeds exactly when all times are of one kind, and then returns one of them that
   * no other precedes.
   */
  lemma {:induction false} MinTimeSpec(ts: seq<IsoTime>)
    requires ts != []
    ensures MinTime(ts).Ok? <==> SameKind(ts)
    ensures MinTime(ts).Ok? ==> (MinTime(ts).value in ts
      && forall i | 0 <= i < |ts| :: Rank(MinTime(ts).value.dt) <= Rank(ts[i].dt))
  {
    if |ts| > 1 {
      var init := ts[..|ts| - 1];
      MinTimeSpec(init);
      assert ts == init + [ts[|ts| - 1]];
      if MinTime(init).Ok? {
        var m := MinTime(init).value;
        assert m.aware == ts[0].aware;
      } else {
        assert !SameKind(ts) by {
          var i :| 0 <= i < |init| && init[i].aware != init[0].aware;
          assert ts[i].aware != ts[0].aware;
        }
      }
    }
  }

  /**
   * `max` succeeds exactly when all times are of one kind, and then returns one of them that
   * follows no other.
   */
  lemma {:induction false} MaxTimeSpec(ts: seq<IsoTime>)
    requires ts != []
    ensures MaxTime(ts).Ok? <==> SameKind(ts)
    ensures MaxTime(ts).Ok? ==> (MaxTime(ts).value in ts
      && forall i | 0 <= i < |ts| :: Rank(ts[i].dt) <= Rank(MaxTime(ts).value.dt))
  {
    if |ts| > 1 {
      var init := ts[..|ts| - 1];
      MaxTimeSpec(init);
      assert ts == init + [ts[|ts| - 1]];
      if MaxTime(init).Ok? {
        var m := MaxTime(init).value;
        assert m.aware == ts[0].aware;
      } else {
        assert !SameKind(ts) by {
          var i :| 0 <= i < |init| && init[i].aware != init[0].aware;
          assert ts[i].aware != ts[0].aware;
        }
      }
    }
  }

  /** `date_range`: `None` without readable time stamps, else the earliest and latest in ISO form. */
  function RangeOf(ts: seq<IsoTime>): Result<Option<DateRange>>
    requires forall i | 0 <= i < |ts| :: ValidDateTime(ts[i].dt)
  {
    if ts == [] then Ok(None)
    else
      var earliest :- MinTime(ts);
      var latest :- MaxTime(ts);
      MinTimeSpec(ts);
      MaxTimeSpec(ts);
      Ok(Some(DateRange(RenderIso(earliest), RenderIso(latest))))
  }

  // ---- Extensions ----

  /** The lower-cased suffix of every event that has a path with one, in order. */
  function ExtensionsOf(events: seq<JumpListEvent>): (exts: seq<string>)
    ensures |exts| <= |events|
  {
    if events == [] then []
    else
      var init := ExtensionsOf(events[..|events| - 1]);
      var path := events[|events| - 1].targetPath;
      if path != [] && Extension(path) != [] then init + [Extension(path)] else init
  }

  /** The loop that counts `file_extensions`. */
  method CountExtensions(events: seq<JumpListEvent>) returns (counts: Counts<string>)
    ensures counts == Tally(ExtensionsOf(events))
  {
    counts := [];
    var i := 0;
    while i < |events|
      invariant 0 <= i <= |events|
      invariant counts == Tally(ExtensionsOf(events[..i]))
    {
      assert events[..i + 1][..i] == events[..i];
      var path := events[i].targetPath;
      if path != [] {
        var ext := Extension(path);
        if ext != [] {
          TallyStep(ExtensionsOf(events[..i]), ext);
          counts := Bump(counts, ext);
        }
      }
      i := i + 1;
    }
    assert events[..i] == events;
  }

  /** Every extension counted is a non-empty, lower-case suffix: a dot and at least one more character. */
  lemma {:induction false} ExtensionsShape(events: seq<JumpListEvent>, x: string)
    requires x in ExtensionsOf(events)
    ensures |x| >= 2 && x[0] == '.' && IsLower(x)
    ensures exists i | 0 <= i < |events| :: events[i].targetPath != [] && x == Extension(events[i].targetPath)
  {
    var init := events[..|events| - 1];
    var path := events[|events| - 1].targetPath;
    if x in ExtensionsOf(init) {
      ExtensionsShape(init, x);
      var i :| 0 <= i < |init| && init[i].targetPath != [] && x == Extension(init[i].targetPath);
      assert events[i] == init[i];
    } else {
      assert x == Extension(path);
      ExtensionShape(path);
      SuffixShape(Name(path));
    }
  }

  // ---- Most recent files ----

  /** `sorted(events, key=lambda e: e.timestamp_utc, reverse=True)[:10]`. */
  function Newest(events: seq<JumpListEvent>): seq<JumpListEvent> {
    Limit(InsertionSort(events, TimestampOf, Desc), Some(10))
  }

  /** The entries of `recent_files`: (timestamp, app, path) of each of the newest events. */
  function RecentOf(events: seq<JumpListEvent>): (r: seq<RecentFile>)
    requires HaveApps(events)
  {
    var newest := Newest(events);
    assert forall i | 0 <= i < |newest| :: newest[i] in multiset(events);
    seq(|newest|, i requires 0 <= i < |newest| =>
      RecentFile(newest[i].timestampUtc, newest[i].appId.value, newest[i].targetPath))
  }

  // ---- The summary ----

  /** The statistics of a list of rebuilt events. */
  function SummaryOf(events: seq<JumpListEvent>): (r: Result<Summary>)
    requires HaveApps(events)
    ensures events == [] ==> r == Ok(EmptySummary)
  {
    if events == [] then Ok(EmptySummary)
    else
      var apps := AppsOf(events);
      var range :- RangeOf(TimesOf(events));
      Ok(Summary(|events|, |Keys(apps)|, range, Top(Tally(apps), 10), Top(Tally(ExtensionsOf(events)), 10),
                 RecentOf(events), Some(AppList(apps))))
  }

  /** The computation of the summary, with its counting loops. */
  method Summarize(events: seq<JumpListEvent>) returns (r: Result<Summary>)
    requires HaveApps(events)
    ensures r == SummaryOf(events)
  {
    if events == [] {
      return Ok(EmptySummary);
    }
    var apps := AppsOf(events);
    var appCounts := CountAll(apps);
    var topApps := Top(appCounts, 10);
    var times := ParseTimes(events);
    var range :- RangeOf(times);
    var extensionCounts := CountExtensions(events);
    var topExtensions := Top(extensionCounts, 10);
    r := Ok(Summary(|events|, |Keys(apps)|, range, topApps, topExtensions, RecentOf(events), Some(AppList(apps))));
  }

  /** What `get_jumplist_statistics` returns for the directory. */
  function StatisticsResult(db: Db, useCache: bool, fs: FileSystem, dir: string, rows: seq<Row>): Result<Summary> {
    var dicts :- ParseResult(db, useCache, fs, dir, rows, None, None, Some(0), "timestamp");
    var rebuilt := RebuildAll(dicts);
    if rebuilt.None? then Err("JumpListEvent.__init__() missing a required argument")
    else
      RebuiltHaveApps(dicts);
      SummaryOf(rebuilt.value)
  }

  /** `get_jumplist_statistics(dir, use_cache=use_cache)`. */
  method GetJumplistStatistics(cache: JumpListCache, useCache: bool, fs: FileSystem, dir: string, rows: seq<Row>,
                               now: string) returns (r: Result<Summary>)
    requires cache.Valid()
    modifies cache
    ensures cache.Valid()
    ensures r == StatisticsResult(old(cache.State()), useCache, fs, dir, rows)
    ensures cache.State() == if IsDir(fs, dir) then CacheAfter(old(cache.State()), cache.digest, fs, useCache,
                                                               dir, rows, now)
                             else old(cache.State())
  {
    var dicts :- ParseJumplists(cache, useCache, fs, dir, rows, None, None, Some(0), "timestamp", now);
    var rebuilt := RebuildAll(dicts);
    if rebuilt.None? {
      return Err("JumpListEvent.__init__() missing a required argument");
    }
    RebuiltHaveApps(dicts);
    r := Summarize(rebuilt.value);
  }

  // ---- Properties of the summary ----

  /**
   * `top_apps`: the ten most used applications (all of them when there are fewer), distinct, each
   * with its number of events;
   * counts do not increase, equal counts keep the order of first appearance, and no application
   * left out has more events than one kept.
   */
  lemma TopApps(events: seq<JumpListEvent>)
    requires HaveApps(events) && SummaryOf(events).Ok?
    ensures var t := SummaryOf(events).value.topApps;
      var apps := AppsOf(events);
      var distinct := |set a | a in apps|;
      && |t| == (if distinct < 10 then distinct else 10)
      && (forall i | 0 <= i < |t| :: IsEntry(apps, t[i]))
      && Distinct(KeysOf(t))
      && (forall i, j | 0 <= i < j < |t| :: t[i].1 >= t[j].1)
      && (forall i, j | 0 <= i < j < |t| && t[i].1 == t[j].1 :: IndexIn(apps, t[i].0) < IndexIn(apps, t[j].0))
      && (forall a | a in apps && a !in KeysOf(t) :: forall i | 0 <= i < |t| :: multiset(apps)[a] <= t[i].1)
  {
    var apps := AppsOf(events);
    KeysCount(apps);
    TopEntries(apps, 10);
    TopOrdered(apps, 10);
    forall a | a in apps && a !in KeysOf(Top(Tally(apps), 10))
      ensures forall i | 0 <= i < |Top(Tally(apps), 10)| :: multiset(apps)[a] <= Top(Tally(apps), 10)[i].1
    {
      TopMaximal(apps, 10, a);
    }
  }

  /**
   * `top_extensions`: the ten most frequent extensions (all of them when there are fewer), distinct,
   * each a non-empty lower-case suffix of some event's path with its number of occurrences; counts
   * do not increase, equal counts keep the order of first appearance, and no extension left out is
   * more frequent.
   */
  lemma TopExtensions(events: seq<JumpListEvent>)
    requires HaveApps(events) && SummaryOf(events).Ok?
    ensures var t := SummaryOf(events).value.topExtensions;
      var exts := ExtensionsOf(events);
      && |t| == (if |set x | x in exts| < 10 then |set x | x in exts| else 10)
      && (forall i | 0 <= i < |t| :: IsEntry(exts, t[i]) && |t[i].0| >= 2 && t[i].0[0] == '.' && IsLower(t[i].0))
      && Distinct(KeysOf(t))
      && (forall i, j | 0 <= i < j < |t| :: t[i].1 >= t[j].1)
      && (forall i, j | 0 <= i < j < |t| && t[i].1 == t[j].1 :: IndexIn(exts, t[i].0) < IndexIn(exts, t[j].0))
      && (forall x | x in exts && x !in KeysOf(t) :: forall i | 0 <= i < |t| :: multiset(exts)[x] <= t[i].1)
  {
    assert SummaryOf(events).value.topExtensions == Top(Tally(ExtensionsOf(events)), 10);
    TopOfExtensions(events);
  }

  lemma TopOfExtensions(events: seq<JumpListEvent>)
    ensures var exts := ExtensionsOf(events);
      var t := Top(Tally(exts), 10);
      && |t| == (if |set x | x in exts| < 10 then |set x | x in exts| else 10)
      && (forall i | 0 <= i < |t| :: IsEntry(exts, t[i]) && |t[i].0| >= 2 && t[i].0[0] == '.' && IsLower(t[i].0))
      && Distinct(KeysOf(t))
      && (forall i, j | 0 <= i < j < |t| :: t[i].1 >= t[j].1)
      && (forall i, j | 0 <= i < j < |t| && t[i].1 == t[j].1 :: IndexIn(exts, t[i].0) < IndexIn(exts, t[j].0))
      && (forall x | x in exts && x !in KeysOf(t) :: forall i | 0 <= i < |t| :: multiset(exts)[x] <= t[i].1)
  {
    var exts := ExtensionsOf(events);
    var t := Top(Tally(exts), 10);
    KeysCount(exts);
    TopEntries(exts, 10);
    TopOrdered(exts, 10);
    forall i | 0 <= i < |t|
      ensures |t[i].0| >= 2 && t[i].0[0] == '.' && IsLower(t[i].0)
    {
      ExtensionsShape(events, t[i].0);
    }
    forall x | x in exts && x !in KeysOf(t)
      ensures forall i | 0 <= i < |t| :: multiset(exts)[x] <= t[i].1
    {
      TopMaximal(exts, 10, x);
    }
  }

  /**
   * `date_range`: the computation fails exactly when the times mix naive and aware values;
   * otherwise the range is absent only without times, and its ends are the ISO forms of a time
   * no other precedes and of one no other follows.
   */
  lemma RangeOfSpec(ts: seq<IsoTime>)
    requires forall i | 0 <= i < |ts| :: ValidDateTime(ts[i].dt)
    ensures RangeOf(ts).Err? <==> !SameKind(ts)
    ensures RangeOf(ts).Ok? ==>
      var range := RangeOf(ts).value;
      && (range.None? <==> ts == [])
      && (range.Some? ==> exists lo, hi | lo in ts && hi in ts ::
            && range.value == DateRange(RenderIso(lo), RenderIso(hi))
            && Rank(lo.dt) <= Rank(hi.dt)
            && forall i | 0 <= i < |ts| :: Rank(lo.dt) <= Rank(ts[i].dt) <= Rank(hi.dt))
  {
    if ts != [] {
      MinTimeSpec(ts);
      MaxTimeSpec(ts);
      if SameKind(ts) {
        var lo, hi := MinTime(ts).value, MaxTime(ts).value;
        assert Rank(lo.dt) <= Rank(ts[0].dt) <= Rank(hi.dt);
      }
    }
  }

  /** The summary of a non-empty list fails exactly when its date range does, and carries it otherwise. */
  lemma SummaryRange(events: seq<JumpListEvent>)
    requires HaveApps(events) && events != []
    ensures SummaryOf(events).Err? <==> RangeOf(TimesOf(events)).Err?
    ensures SummaryOf(events).Ok? ==> SummaryOf(events).value.dateRange == RangeOf(TimesOf(events)).value
  {
  }

  /**
   * `recent_files`: the ten newest events, or all of them when there are fewer, each kept at
   * most as often as it occurs, newest first, as (timestamp, app, path); no event left out is
   * newer than the last one kept.
   */
  lemma RecentFiles(events: seq<JumpListEvent>)
    requires HaveApps(events)
    ensures var r, n := RecentOf(events), Newest(events);
      && |r| == |n| == (if |events| < 10 then |events| else 10)
      && multiset(n) <= multiset(events)
      && (forall i | 0 <= i < |r| ::
            r[i].timestamp == n[i].timestampUtc && Some(r[i].app) == n[i].appId && r[i].path == n[i].targetPath)
      && (forall i, j | 0 <= i < j < |r| :: !LexLt(r[i].timestamp, r[j].timestamp))
      && (forall e | multiset(n)[e] < multiset(events)[e] :: n != [] && !LexLt(n[|n| - 1].timestampUtc, e.timestampUtc))
  {
    NewestEvents(events);
  }

  /** The newest events: a sub-multiset of the events, newest first, none left out newer than the last kept. */
  lemma NewestEvents(events: seq<JumpListEvent>)
    ensures var n := Newest(events);
      && |n| == (if |events| < 10 then |events| else 10)
      && multiset(n) <= multiset(events)
      && (forall i, j | 0 <= i < j < |n| :: !LexLt(n[i].timestampUtc, n[j].timestampUtc))
      && (forall e | multiset(n)[e] < multiset(events)[e] :: n != [] && !LexLt(n[|n| - 1].timestampUtc, e.timestampUtc))
  {
    var sorted := InsertionSort(events, TimestampOf, Desc);
    var n := Newest(events);
    assert multiset(n) <= multiset(events) by {
      assert sorted == n + sorted[|n|..];
    }
    NewestOrdered(events);
    NewestLeftOut(events);
  }

  lemma NewestOrdered(events: seq<JumpListEvent>)
    ensures var n := Newest(events);
      forall i, j | 0 <= i < j < |n| :: !LexLt(n[i].timestampUtc, n[j].timestampUtc)
  {
    var sorted := InsertionSort(events, TimestampOf, Desc);
    var n := Newest(events);
    assert Sorted(sorted, TimestampOf, Desc) by {
      LexOrders();
      SortSorted(events, TimestampOf, Desc);
    }
    forall i, j | 0 <= i < j < |n|
      ensures !LexLt(n[i].timestampUtc, n[j].timestampUtc)
    {
      assert n[i] == sorted[i] && n[j] == sorted[j];
      assert !Desc(TimestampOf(sorted[j]), TimestampOf(sorted[i]));
    }
  }

  lemma NewestLeftOut(events: seq<JumpListEvent>)
    ensures var n := Newest(events);
      forall e | multiset(n)[e] < multiset(events)[e] :: n != [] && !LexLt(n[|n| - 1].timestampUtc, e.timestampUtc)
  {
    var sorted := InsertionSort(events, TimestampOf, Desc);
    var n := Newest(events);
    assert n == sorted[..|n|];
    assert Sorted(sorted, TimestampOf, Desc) by {
      LexOrders();
      SortSorted(events, TimestampOf, Desc);
    }
    forall e | multiset(n)[e] < multiset(events)[e]
      ensures n != [] && !LexLt(n[|n| - 1].timestampUtc, e.timestampUtc)
    {
      assert |events| > 0 by {
        assert e in multiset(events);
      }
      SortedPrefixLeftOut(sorted, |n|, TimestampOf, Desc, e);
    }
  }

  /** What a prefix of a sorted sequence leaves out does not precede the prefix's last element. */
  lemma SortedPrefixLeftOut<T, K>(s: seq<T>, p: nat, key: T -> K, lt: (K, K) -> bool, e: T)
    requires Sorted(s, key, lt) && 0 < p <= |s| && multiset(s[..p])[e] < multiset(s)[e]
    ensures !lt(key(e), key(s[p - 1]))
  {
    assert s == s[..p] + s[p..];
    assert multiset(s) == multiset(s[..p]) + multiset(s[p..]);
    assert e in multiset(s[p..]);
    var k :| 0 <= k < |s[p..]| && s[p..][k] == e;
    assert s[p + k] == e;
  }

  /** A sequence without repeats holds each element at most once. */
  lemma {:induction false} DistinctOnce<T>(s: seq<T>, x: T)
    requires Distinct(s)
    ensures multiset(s)[x] <= 1
  {
    if s != [] {
      var init := s[..|s| - 1];
      assert s == init + [s[|s| - 1]];
      DistinctOnce(init, x);
    }
  }

  /** A sequence without repeats has as many elements as the set of them. */
  lemma {:induction false} DistinctCard<T>(s: seq<T>)
    requires Distinct(s)
    ensures |set x | x in s| == |s|
  {
    if s != [] {
      var init := s[..|s| - 1];
      var last := s[|s| - 1];
      assert s == init + [last];
      DistinctCard(init);
      assert (set x | x in s) == (set x | x in init) + {last};
    }
  }

  /** `app_list` is strictly increasing and holds exactly the applications of the events. */
  lemma AppListSpec(apps: seq<string>)
    ensures var l := AppList(apps);
      && (forall i, j | 0 <= i < j < |l| :: LexLt(l[i], l[j]))
      && (forall a :: a in l <==> a in apps)
      && |l| == |set a | a in apps|
  {
    var ks := Keys(apps);
    var l := AppList(apps);
    KeysShape(apps);
    assert Sorted(l, Itself, LexLt) by {
      LexOrders();
      SortSorted(ks, Itself, LexLt);
    }
    forall i, j | 0 <= i < j < |l|
      ensures LexLt(l[i], l[j])
    {
      assert l[i] != l[j] by {
        SortedOnce(ks, l, i, j);
      }
      LexLtTotal(l[i], l[j]);
    }
    forall a
      ensures a in l <==> a in apps
    {
      assert a in l <==> a in multiset(ks);
    }
    DistinctCard(ks);
    assert (set a | a in ks) == (set a | a in apps);
  }

  /** A permutation of a sequence without repeats has none either. */
  lemma SortedOnce(ks: seq<string>, l: seq<string>, i: nat, j: nat)
    requires Distinct(ks) && multiset(l) == multiset(ks) && i < j < |l|
    ensures l[i] != l[j]
  {
    DistinctOnce(ks, l[i]);
    if l[i] == l[j] {
      Twice(l, i, j);
    }
  }

  /** `unique_apps` is the number of distinct applications, the length of `app_list`. */
  lemma UniqueApps(events: seq<JumpListEvent>)
    requires HaveApps(events) && events != [] && SummaryOf(events).Ok?
    ensures var s := SummaryOf(events).value;
      && s.appList == Some(AppList(AppsOf(events)))
      && s.uniqueApps == |s.appList.value| == |set a | a in AppsOf(events)|
  {
    AppListSpec(AppsOf(events));
  }

  /** `app_list` does not depend on the order in which the set of applications is enumerated. */
  lemma AppListOrderFree(apps: seq<string>, enumeration: seq<string>)
    requires multiset(enumeration) == multiset(Keys(apps))
    ensures InsertionSort(enumeration, Itself, LexLt) == AppList(apps)
  {
    LexOrders();
    SortPermutationInvariant(enumeration, Keys(apps), Itself, LexLt);
  }

  /** An empty event list gives the fixed summary, without `app_list`; any other list has one. */
  lemma EmptyIffNoAppList(events: seq<JumpListEvent>)
    requires HaveApps(events) && SummaryOf(events).Ok?
    ensures SummaryOf(events).value.appList.None? <==> events == []
    ensures SummaryOf(events).value.totalEvents == |events|
  {
  }
}

/**
 * The round-robin distributor: every pass over the still-active shows (in ascending
 * title order) is one week; each show gives its next episode or, when it has none
 * left, leaves the active set. Non-empty weeks are stored under (year, week).
 */
module WeekDistributor {
  import opened Catalog
  import opened TitleOrder

  /** Show title to its episodes in order, as collected from the server. */
  type ShowEpisodes = map<string, seq<Episode>>

  /** The number of weeks a year holds as the loop behaves: a value below 1 acts as 1. */
  function EffectiveWeeks(weeksPerYear: int): int
  {
    if weeksPerYear < 1 then 1 else weeksPerYear
  }

  /** The year under which global week `g` (1-based, counted across years) is stored. */
  function YearOf(g: nat, weeksPerYear: int): nat
    requires g >= 1
  {
    (g - 1) / EffectiveWeeks(weeksPerYear) + 1
  }

  /** The week number under which global week `g` is stored. */
  function WeekOf(g: nat, weeksPerYear: int): nat
    requires g >= 1
  {
    (g - 1) % EffectiveWeeks(weeksPerYear) + 1
  }

  /** The global week that (year, week) stands for. */
  function GlobalWeek(year: nat, week: nat, weeksPerYear: int): int
  {
    (year - 1) * EffectiveWeeks(weeksPerYear) + week
  }

  lemma {:induction false} MulAtLeast(d: int, w: int)
    requires d >= 1 && w >= 0
    ensures d * w >= w
    decreases d
  {
    if d > 1 {
      MulAtLeast(d - 1, w);
      assert d * w == (d - 1) * w + w;
    }
  }

  lemma MulBound(d: int, w: int)
    requires w > 0
    ensures d >= 1 ==> d * w >= w
    ensures d <= -1 ==> d * w <= -w
  {
    if d >= 1 {
      MulAtLeast(d, w);
    } else if d <= -1 {
      MulAtLeast(-d, w);
      assert d * w == -((-d) * w);
    }
  }

  /** Quotient and remainder are the only ones with 0 <= r < w. */
  lemma DivModUnique(a: int, w: int, q: int, r: int)
    requires w > 0 && 0 <= r < w && a == q * w + r
    ensures a / w == q && a % w == r
  {
    var q', r' := a / w, a % w;
    assert a == q' * w + r';
    MulBound(q - q', w);
    assert (q - q') * w == r' - r;
  }

  /** Stored (year, week) pairs: weeks lie in 1..W, and the pair gives back the global week. */
  lemma YearWeekRoundTrip(g: nat, weeksPerYear: int)
    requires g >= 1
    ensures 1 <= WeekOf(g, weeksPerYear) <= EffectiveWeeks(weeksPerYear)
    ensures YearOf(g, weeksPerYear) >= 1
    ensures GlobalWeek(YearOf(g, weeksPerYear), WeekOf(g, weeksPerYear), weeksPerYear) == g
  {
    var w := EffectiveWeeks(weeksPerYear);
    assert g - 1 == ((g - 1) / w) * w + (g - 1) % w;
  }

  /** One step of the counters: the week advances, or rolls over into the next year after week W. */
  lemma NextWeek(g: nat, weeksPerYear: int)
    requires g >= 1
    ensures WeekOf(g, weeksPerYear) + 1 > weeksPerYear ==>
              WeekOf(g + 1, weeksPerYear) == 1 && YearOf(g + 1, weeksPerYear) == YearOf(g, weeksPerYear) + 1
    ensures WeekOf(g, weeksPerYear) + 1 <= weeksPerYear ==>
              WeekOf(g + 1, weeksPerYear) == WeekOf(g, weeksPerYear) + 1 && YearOf(g + 1, weeksPerYear) == YearOf(g, weeksPerYear)
  {
    var w := EffectiveWeeks(weeksPerYear);
    var q, r := (g - 1) / w, (g - 1) % w;
    assert g - 1 == q * w + r;
    if r + 1 < w {
      DivModUnique(g, w, q, r + 1);
    } else {
      assert g == (q + 1) * w + 0;
      DivModUnique(g, w, q + 1, 0);
    }
  }

  /**
   * The loop's week counter at the start of pass `g`: it advances by one and restarts
   * at 1 once it exceeds weeksPerYear.
   */
  function WeekCounter(g: nat, weeksPerYear: int): nat
    requires g >= 1
  {
    if g == 1 then 1
    else if WeekCounter(g - 1, weeksPerYear) + 1 > weeksPerYear then 1
    else WeekCounter(g - 1, weeksPerYear) + 1
  }

  /** The loop's year counter at the start of pass `g`: it advances whenever the week counter restarts. */
  function YearCounter(g: nat, weeksPerYear: int): (year: nat)
    requires g >= 1
    ensures year >= 1
  {
    if g == 1 then 1
    else if WeekCounter(g - 1, weeksPerYear) + 1 > weeksPerYear then YearCounter(g - 1, weeksPerYear) + 1
    else YearCounter(g - 1, weeksPerYear)
  }

  /** Counting weeks one by one with rollover gives the quotient/remainder split of the global week. */
  lemma {:induction false} CountersAreYearWeek(g: nat, weeksPerYear: int)
    requires g >= 1
    ensures YearCounter(g, weeksPerYear) == YearOf(g, weeksPerYear)
    ensures WeekCounter(g, weeksPerYear) == WeekOf(g, weeksPerYear)
    decreases g
  {
    if g == 1 {
      DivModUnique(0, EffectiveWeeks(weeksPerYear), 0, 0);
    } else {
      CountersAreYearWeek(g - 1, weeksPerYear);
      NextWeek(g - 1, weeksPerYear);
    }
  }

  /** The titles of `ts`, in their order, that have more than g-1 episodes. */
  function Keep(shows: ShowEpisodes, ts: seq<string>, g: nat): (r: seq<string>)
    requires forall t | t in ts :: t in shows
    ensures forall t :: t in r <==> t in ts && |shows[t]| > g - 1
    ensures StrictlySorted(ts) ==> StrictlySorted(r)
    decreases |ts|
  {
    if ts == [] then []
    else
      var init, last := ts[..|ts| - 1], ts[|ts| - 1];
      var rest := Keep(shows, init, g);
      assert forall t | t in rest :: t in init;
      assert StrictlySorted(ts) ==> forall t | t in init :: Less(t, last);
      rest + (if |shows[last]| > g - 1 then [last] else [])
  }

  /** Episode g-1 of each title of `ks`, as records in the order of `ks`. */
  function Emit(shows: ShowEpisodes, ks: seq<string>, g: nat): (r: seq<Record>)
    requires g >= 1
    requires forall t | t in ks :: t in shows && |shows[t]| > g - 1
    ensures |r| == |ks|
    ensures forall i | 0 <= i < |ks| :: r[i] == MakeRecord(ks[i], shows[ks[i]][g - 1])
    decreases |ks|
  {
    if ks == [] then []
    else
      var last := ks[|ks| - 1];
      Emit(shows, ks[..|ks| - 1], g) + [MakeRecord(last, shows[last][g - 1])]
  }

  /** One pass over the titles `ts` in week `g`: the record of every title that still has episode g-1. */
  function WeekRecords(shows: ShowEpisodes, ts: seq<string>, g: nat): seq<Record>
    requires g >= 1
    requires forall t | t in ts :: t in shows
    decreases |ts|
  {
    if ts == [] then []
    else
      var last := ts[|ts| - 1];
      WeekRecords(shows, ts[..|ts| - 1], g) +
      (if |shows[last]| > g - 1 then [MakeRecord(last, shows[last][g - 1])] else [])
  }

  /** Visiting one more title appends its record when it still has episode g-1. */
  lemma WeekRecordsAppend(shows: ShowEpisodes, ts: seq<string>, t: string, g: nat)
    requires g >= 1 && t in shows
    requires forall u | u in ts :: u in shows
    ensures WeekRecords(shows, ts + [t], g) ==
              WeekRecords(shows, ts, g) + (if |shows[t]| > g - 1 then [MakeRecord(t, shows[t][g - 1])] else [])
  {
    assert (ts + [t])[..|ts|] == ts;
  }

  /** The pass over the titles is the records of the titles kept, in order. */
  lemma {:induction false} WeekRecordsIsEmitKeep(shows: ShowEpisodes, ts: seq<string>, g: nat)
    requires g >= 1
    requires forall t | t in ts :: t in shows
    ensures WeekRecords(shows, ts, g) == Emit(shows, Keep(shows, ts, g), g)
    decreases |ts|
  {
    if ts != [] {
      var init, last := ts[..|ts| - 1], ts[|ts| - 1];
      WeekRecordsIsEmitKeep(shows, init, g);
      var k := Keep(shows, init, g);
      if |shows[last]| > g - 1 {
        var kl := k + [last];
        assert kl[..|kl| - 1] == k;
      } else {
        assert k + [] == k;
      }
    }
  }

  /**
   * The contents of global week `g`: one pass over all titles in ascending order, so
   * episode g-1 of every show that has more than g-1 episodes.
   */
  function WeekContents(shows: ShowEpisodes, g: nat): seq<Record>
    requires g >= 1
  {
    WeekRecords(shows, SortedTitles(shows.Keys), g)
  }

  /** The first `k` stored weeks. */
  function Weeks(shows: ShowEpisodes, weeksPerYear: int, k: nat): (r: seq<Bucket>)
    ensures |r| == k
  {
    if k == 0 then []
    else Weeks(shows, weeksPerYear, k - 1) +
         [Bucket(YearCounter(k, weeksPerYear), WeekCounter(k, weeksPerYear), WeekContents(shows, k))]
  }

  /** The largest episode count of any show (0 for no shows). */
  ghost function MaxEpisodes(shows: ShowEpisodes): (m: nat)
    ensures forall t | t in shows :: |shows[t]| <= m
    ensures shows != map[] ==> exists t :: t in shows && |shows[t]| == m
    ensures shows == map[] ==> m == 0
    decreases |shows.Keys|
  {
    if shows == map[] then 0
    else
      var k :| k in shows;
      var rest := shows - {k};
      assert rest.Keys == shows.Keys - {k};
      var m := MaxEpisodes(rest);
      assert forall t | t in shows && t != k :: t in rest && rest[t] == shows[t];
      if |shows[k]| >= m then |shows[k]|
      else
        assert rest != map[];
        var t :| t in rest && |rest[t]| == m;
        assert t in shows && |shows[t]| == m;
        m
  }

  /** The reference distribution: one stored week for each of the first MaxEpisodes(shows) global weeks. */
  ghost function Distribution(shows: ShowEpisodes, weeksPerYear: int): seq<Bucket>
  {
    Weeks(shows, weeksPerYear, MaxEpisodes(shows))
  }

  /** A pass over any sorted active set that contains every show still holding episode g-1 gives the week's contents. */
  lemma PassOverActive(shows: ShowEpisodes, a: set<string>, g: nat)
    requires g >= 1 && a <= shows.Keys
    requires forall t | t in shows && |shows[t]| > g - 1 :: t in a
    ensures WeekRecords(shows, SortedTitles(a), g) == WeekContents(shows, g)
  {
    SortedUnique(Keep(shows, SortedTitles(a), g), Keep(shows, SortedTitles(shows.Keys), g));
    WeekRecordsIsEmitKeep(shows, SortedTitles(a), g);
    WeekRecordsIsEmitKeep(shows, SortedTitles(shows.Keys), g);
  }

  /** A week is empty exactly when every show has at most g-1 episodes, i.e. from week MaxEpisodes+1 on. */
  lemma WeekEmptyIffExhausted(shows: ShowEpisodes, g: nat)
    requires g >= 1
    ensures WeekContents(shows, g) == [] <==> MaxEpisodes(shows) <= g - 1
  {
    var kept := Keep(shows, SortedTitles(shows.Keys), g);
    WeekRecordsIsEmitKeep(shows, SortedTitles(shows.Keys), g);
    if MaxEpisodes(shows) > g - 1 {
      var t :| t in shows && |shows[t]| == MaxEpisodes(shows);
      assert t in kept;
    } else {
      assert forall t | t in kept :: false;
      assert kept == [];
    }
  }

  /** The i-th stored week (0-based) is global week i+1, under its counters, holding that week's contents. */
  lemma {:induction false} WeeksAt(shows: ShowEpisodes, weeksPerYear: int, k: nat, i: nat)
    requires i < k
    ensures Weeks(shows, weeksPerYear, k)[i] ==
              Bucket(YearCounter(i + 1, weeksPerYear), WeekCounter(i + 1, weeksPerYear), WeekContents(shows, i + 1))
    decreases k
  {
    if i < k - 1 {
      WeeksAt(shows, weeksPerYear, k - 1, i);
    }
  }

  /**
   * The loop state after `done` passes: every show's cursor has advanced past min(len, done)
   * episodes, and the active shows are those that still had an episode for every pass so far.
   */
  ghost predicate Progress(shows: ShowEpisodes, showIndices: map<string, nat>, activeShows: set<string>, done: nat)
  {
    && showIndices.Keys == shows.Keys
    && (forall t | t in shows :: showIndices[t] == Min(|shows[t]|, done))
    && (forall t :: t in activeShows <==> t in shows && |shows[t]| >= done)
  }

  /**
   * The `for show_title in sorted(active_shows)` loop over a given order of distinct titles:
   * each title's cursor either yields its next episode and advances, or the show has run
   * out and leaves the active set.
   */
  method VisitTitles(showEpisodes: ShowEpisodes, order: seq<string>, showIndices: map<string, nat>,
                     activeShows: set<string>, ghost g: nat)
      returns (weekEpisodes: seq<Record>, showIndices': map<string, nat>, activeShows': set<string>)
    requires g >= 1
    requires forall i, j | 0 <= i < j < |order| :: order[i] != order[j]
    requires forall t | t in order :: t in showEpisodes
    requires showIndices.Keys == showEpisodes.Keys
    requires forall t | t in order :: showIndices[t] == Min(|showEpisodes[t]|, g - 1)
    ensures weekEpisodes == WeekRecords(showEpisodes, order, g)
    ensures showIndices'.Keys == showEpisodes.Keys
    ensures forall t | t in showEpisodes :: showIndices'[t] ==
              if t in order && |showEpisodes[t]| > g - 1 then g else showIndices[t]
    ensures forall t :: t in activeShows' <==> t in activeShows && (t !in order || |showEpisodes[t]| > g - 1)
  {
    weekEpisodes, showIndices', activeShows' := [], showIndices, activeShows;
    var i := 0;
    ghost var visited: seq<string> := [];
    while i < |order|
      invariant 0 <= i <= |order|
      invariant visited == order[..i]
      invariant showIndices'.Keys == showEpisodes.Keys
      invariant forall t | t in showEpisodes :: showIndices'[t] ==
                  if t in visited && |showEpisodes[t]| > g - 1 then g else showIndices[t]
      invariant forall t :: t in activeShows' <==> t in activeShows && (t !in visited || |showEpisodes[t]| > g - 1)
      invariant weekEpisodes == WeekRecords(showEpisodes, visited, g)
    {
      var showTitle := order[i];
      assert showTitle !in visited;
      assert order[..i + 1] == visited + [showTitle];
      WeekRecordsAppend(showEpisodes, visited, showTitle, g);
      var episodes := showEpisodes[showTitle];
      var currentIndex := showIndices'[showTitle];
      if currentIndex < |episodes| {
        var episode := episodes[currentIndex];
        weekEpisodes := weekEpisodes + [MakeRecord(showTitle, episode)];
        showIndices' := showIndices'[showTitle := currentIndex + 1];
      } else {
        activeShows' := activeShows' - {showTitle};
      }
      visited := visited + [showTitle];
      i := i + 1;
    }
    assert order[..i] == order;
  }

  /**
   * After a pass over the active titles, every show has given min(len, g) episodes and the
   * shows still active are those with at least g; the records are week g's contents.
   */
  lemma PassComplete(shows: ShowEpisodes, active: set<string>, order: seq<string>, g: nat,
                     showIndices: map<string, nat>, showIndices': map<string, nat>, active': set<string>,
                     weekEpisodes: seq<Record>)
    requires g >= 1 && Progress(shows, showIndices, active, g - 1)
    requires order == SortedTitles(active)
    requires weekEpisodes == WeekRecords(shows, order, g)
    requires showIndices'.Keys == shows.Keys
    requires forall t | t in shows :: showIndices'[t] ==
               if t in order && |shows[t]| > g - 1 then g else showIndices[t]
    requires forall t :: t in active' <==> t in active && (t !in order || |shows[t]| > g - 1)
    ensures weekEpisodes == WeekContents(shows, g)
    ensures Progress(shows, showIndices', active', g)
  {
    forall t | t in shows
      ensures showIndices'[t] == Min(|shows[t]|, g)
    {
      if |shows[t]| > g - 1 {
        assert t in order;
      }
    }
    PassOverActive(shows, active, g);
  }

  /**
   * One pass of the `while active_shows` loop, in global week `g`: the active titles in
   * ascending order, visited once each. Before the pass every show has given min(len, g-1)
   * episodes and the active shows are those with at least g-1; after it, the same holds
   * for g, and the records are the contents of week g.
   */
  method DistributePass(showEpisodes: ShowEpisodes, showIndices: map<string, nat>,
                        activeShows: set<string>, ghost g: nat)
      returns (weekEpisodes: seq<Record>, showIndices': map<string, nat>, activeShows': set<string>)
    requires g >= 1
    requires Progress(showEpisodes, showIndices, activeShows, g - 1)
    ensures weekEpisodes == WeekContents(showEpisodes, g)
    ensures Progress(showEpisodes, showIndices', activeShows', g)
  {
    var order := SortedTitles(activeShows);
    StrictlySortedDistinct(order);
    weekEpisodes, showIndices', activeShows' := VisitTitles(showEpisodes, order, showIndices, activeShows, g);
    PassComplete(showEpisodes, activeShows, order, g, showIndices, showIndices', activeShows', weekEpisodes);
  }

  /** One step of the loop's counters, as the loop body performs it. */
  lemma CounterStep(g: nat, weeksPerYear: int)
    requires g >= 1
    ensures WeekCounter(g + 1, weeksPerYear) ==
              if WeekCounter(g, weeksPerYear) + 1 > weeksPerYear then 1 else WeekCounter(g, weeksPerYear) + 1
    ensures YearCounter(g + 1, weeksPerYear) ==
              if WeekCounter(g, weeksPerYear) + 1 > weeksPerYear then YearCounter(g, weeksPerYear) + 1
              else YearCounter(g, weeksPerYear)
  {
  }

  /**
   * What the `while active_shows` loop has built at the start of pass `g`: the cursors and
   * active set after g-1 passes, and the non-empty weeks among the first g-1 stored in order.
   */
  ghost predicate Stored(shows: ShowEpisodes, weeksPerYear: int, showIndices: map<string, nat>,
                         activeShows: set<string>, buckets: seq<Bucket>, g: nat)
  {
    var M := MaxEpisodes(shows);
    && g >= 1 && g - 1 <= M + 1
    && (shows == map[] ==> g == 1)
    && Progress(shows, showIndices, activeShows, g - 1)
    && buckets == Weeks(shows, weeksPerYear, Min(g - 1, M))
  }

  /** The loop's first state: nothing stored, all cursors at 0, every show active. */
  lemma LoopStart(shows: ShowEpisodes, weeksPerYear: int, showIndices: map<string, nat>)
    requires showIndices.Keys == shows.Keys
    requires forall t | t in showIndices :: showIndices[t] == 0
    ensures Stored(shows, weeksPerYear, showIndices, shows.Keys, [], 1)
  {
  }

  /** A pass that found an episode: week g is not empty and is stored next. */
  lemma StoreWeek(shows: ShowEpisodes, weeksPerYear: int, showIndices: map<string, nat>, activeShows: set<string>,
                  buckets: seq<Bucket>, g: nat, weekEpisodes: seq<Record>,
                  showIndices': map<string, nat>, activeShows': set<string>)
    requires Stored(shows, weeksPerYear, showIndices, activeShows, buckets, g)
    requires weekEpisodes == WeekContents(shows, g) && weekEpisodes != []
    requires Progress(shows, showIndices', activeShows', g)
    ensures g <= MaxEpisodes(shows)
    ensures Stored(shows, weeksPerYear, showIndices', activeShows',
                   buckets + [Bucket(YearCounter(g, weeksPerYear), WeekCounter(g, weeksPerYear), weekEpisodes)], g + 1)
  {
    var M := MaxEpisodes(shows);
    WeekEmptyIffExhausted(shows, g);
    assert Min(g - 1, M) == g - 1 && Min(g, M) == g;
    assert Weeks(shows, weeksPerYear, g) == Weeks(shows, weeksPerYear, g - 1) +
             [Bucket(YearCounter(g, weeksPerYear), WeekCounter(g, weeksPerYear), WeekContents(shows, g))];
  }

  /** A pass over a non-empty active set that found no episode: week g is empty and not stored. */
  lemma SkipWeek(shows: ShowEpisodes, weeksPerYear: int, showIndices: map<string, nat>, activeShows: set<string>,
                 buckets: seq<Bucket>, g: nat, showIndices': map<string, nat>, activeShows': set<string>)
    requires Stored(shows, weeksPerYear, showIndices, activeShows, buckets, g)
    requires activeShows != {}
    requires WeekContents(shows, g) == []
    requires Progress(shows, showIndices', activeShows', g)
    ensures g == MaxEpisodes(shows) + 1
    ensures Stored(shows, weeksPerYear, showIndices', activeShows', buckets, g + 1)
  {
    var M := MaxEpisodes(shows);
    assert g - 1 <= M by {
      var t :| t in activeShows;
      assert |shows[t]| >= g - 1;
    }
    WeekEmptyIffExhausted(shows, g);
  }

  /** Once no show is active, every pass has been made and all weeks are stored. */
  lemma LoopEnd(shows: ShowEpisodes, weeksPerYear: int, showIndices: map<string, nat>, activeShows: set<string>,
                buckets: seq<Bucket>, g: nat)
    requires Stored(shows, weeksPerYear, showIndices, activeShows, buckets, g)
    requires activeShows == {}
    ensures buckets == Distribution(shows, weeksPerYear)
    ensures g - 1 == if shows == map[] then 0 else MaxEpisodes(shows) + 1
  {
    var M := MaxEpisodes(shows);
    if shows != map[] {
      var t :| t in shows && |shows[t]| == M;
      assert t !in activeShows;
    }
  }

  /**
   * The body of the `while active_shows` loop, pass `g`: the pass over the active titles,
   * storing the week when it is non-empty, then the counters: the week advances and, past
   * weeksPerYear, either the loop stops (`stop`, when no show is left) or the year advances
   * and the week restarts at 1.
   */
  method DistributeWeek(showEpisodes: ShowEpisodes, weeksPerYear: int, showIndices: map<string, nat>,
                        activeShows: set<string>, buckets: seq<Bucket>, year: nat, week: nat, ghost g: nat)
      returns (showIndices': map<string, nat>, activeShows': set<string>, buckets': seq<Bucket>,
               year': nat, week': nat, stop: bool)
    requires Stored(showEpisodes, weeksPerYear, showIndices, activeShows, buckets, g)
    requires year == YearCounter(g, weeksPerYear) && week == WeekCounter(g, weeksPerYear)
    requires activeShows != {}
    ensures g <= MaxEpisodes(showEpisodes) + 1
    ensures Stored(showEpisodes, weeksPerYear, showIndices', activeShows', buckets', g + 1)
    ensures stop ==> activeShows' == {}
    ensures !stop ==> year' == YearCounter(g + 1, weeksPerYear) && week' == WeekCounter(g + 1, weeksPerYear)
  {
    var weekEpisodes;
    weekEpisodes, showIndices', activeShows' := DistributePass(showEpisodes, showIndices, activeShows, g);
    if weekEpisodes != [] {
      StoreWeek(showEpisodes, weeksPerYear, showIndices, activeShows, buckets, g, weekEpisodes, showIndices', activeShows');
      buckets' := buckets + [Bucket(year, week, weekEpisodes)];
    } else {
      SkipWeek(showEpisodes, weeksPerYear, showIndices, activeShows, buckets, g, showIndices', activeShows');
      buckets' := buckets;
    }
    CounterStep(g, weeksPerYear);
    year', week' := year, week + 1;
    stop := false;
    if week' > weeksPerYear {
      if activeShows' == {} {
        stop := true;
      } else {
        year' := year' + 1;
        week' := 1;
      }
    }
  }

  /**
   * distribute_episodes_to_weeks: the `while active_shows` loop over per-show cursors, the
   * active set and the year/week counters. `passes` counts the loop's iterations.
   */
  method DistributeEpisodesToWeeks(showEpisodes: ShowEpisodes, weeksPerYear: int)
      returns (buckets: seq<Bucket>, ghost passes: nat)
    ensures buckets == Distribution(showEpisodes, weeksPerYear)
    ensures passes == if showEpisodes == map[] then 0 else MaxEpisodes(showEpisodes) + 1
  {
    var showIndices: map<string, nat> := map t | t in showEpisodes :: 0;
    var activeShows := showEpisodes.Keys;
    buckets := [];
    var year: nat, week: nat := 1, 1;
    ghost var g: nat := 1;
    passes := 0;
    LoopStart(showEpisodes, weeksPerYear, showIndices);
    while activeShows != {}
      invariant Stored(showEpisodes, weeksPerYear, showIndices, activeShows, buckets, g)
      invariant year == YearCounter(g, weeksPerYear) && week == WeekCounter(g, weeksPerYear)
      invariant passes == g - 1
      decreases MaxEpisodes(showEpisodes) + 2 - g
    {
      var stop;
      showIndices, activeShows, buckets, year, week, stop :=
        DistributeWeek(showEpisodes, weeksPerYear, showIndices, activeShows, buckets, year, week, g);
      passes := passes + 1;
      g := g + 1;
      if stop {
        break;
      }
    }
    LoopEnd(showEpisodes, weeksPerYear, showIndices, activeShows, buckets, g);
  }
}

/**
 * What the round-robin distribution promises: the shape of each week, no empty week
 * stored, every show's episodes scheduled once each and in order, the total, and the
 * (year, week) keys under which the weeks are stored.
 */
module DistributionFacts {
  import opened Catalog
  import opened TitleOrder
  import opened WeekDistributor

  /** Week g's records: one per kept title, in the kept titles' order. */
  lemma WeekIsEmitKeep(shows: ShowEpisodes, g: nat)
    requires g >= 1
    ensures WeekContents(shows, g) == Emit(shows, Keep(shows, SortedTitles(shows.Keys), g), g)
  {
    WeekRecordsIsEmitKeep(shows, SortedTitles(shows.Keys), g);
  }

  /** Every record of week g is episode g-1 of its show, copied field by field. */
  lemma WeekRecordsAreEpisodes(shows: ShowEpisodes, g: nat)
    requires g >= 1
    ensures forall r | r in WeekContents(shows, g) ::
              r.show in shows && |shows[r.show]| > g - 1 && r == MakeRecord(r.show, shows[r.show][g - 1])
  {
    WeekIsEmitKeep(shows, g);
  }

  /** The records of week g are in strictly ascending show-title order, so no show appears twice. */
  lemma WeekSortedByShow(shows: ShowEpisodes, g: nat)
    requires g >= 1
    ensures forall i, j | 0 <= i < j < |WeekContents(shows, g)| ::
              Less(WeekContents(shows, g)[i].show, WeekContents(shows, g)[j].show)
    ensures forall i, j | 0 <= i < j < |WeekContents(shows, g)| ::
              WeekContents(shows, g)[i].show != WeekContents(shows, g)[j].show
  {
    WeekIsEmitKeep(shows, g);
    LessIsStrictOrder();
  }

  /** Every show that has more than g-1 episodes contributes to week g. */
  lemma WeekCoversShows(shows: ShowEpisodes, g: nat, t: string)
    requires g >= 1 && t in shows && |shows[t]| > g - 1
    ensures MakeRecord(t, shows[t][g - 1]) in WeekContents(shows, g)
  {
    WeekIsEmitKeep(shows, g);
    var ks := Keep(shows, SortedTitles(shows.Keys), g);
    assert t in ks;
    var i :| 0 <= i < |ks| && ks[i] == t;
    assert WeekContents(shows, g)[i] == MakeRecord(t, shows[t][g - 1]);
  }

  /** The stored weeks are exactly the first MaxEpisodes global weeks, and none of them is empty. */
  lemma NoEmptyWeekStored(shows: ShowEpisodes, weeksPerYear: int, i: nat)
    requires i < |Distribution(shows, weeksPerYear)|
    ensures |Distribution(shows, weeksPerYear)| == MaxEpisodes(shows)
    ensures Distribution(shows, weeksPerYear)[i].records == WeekContents(shows, i + 1) != []
  {
    WeekEmptyIffExhausted(shows, i + 1);
    WeeksAt(shows, weeksPerYear, MaxEpisodes(shows), i);
  }

  /** The episodes of show `t` among `records`, in order. */
  function EpisodesFor(records: seq<Record>, t: string): (r: seq<Episode>)
    ensures |r| <= |records|
    decreases |records|
  {
    if records == [] then []
    else
      var last := records[|records| - 1];
      EpisodesFor(records[..|records| - 1], t) + (if last.show == t then [last.episode] else [])
  }

  /** Show `t`'s episodes across `buckets`, bucket after bucket: its schedule. */
  function ScheduleOf(buckets: seq<Bucket>, t: string): seq<Episode>
    decreases |buckets|
  {
    if buckets == [] then []
    else ScheduleOf(buckets[..|buckets| - 1], t) + EpisodesFor(buckets[|buckets| - 1].records, t)
  }

  /** Over distinct titles, show `t` gets exactly its episode g-1 when it is one of them. */
  lemma {:induction false} EmitEpisodesFor(shows: ShowEpisodes, ks: seq<string>, g: nat, t: string)
    requires g >= 1
    requires forall u | u in ks :: u in shows && |shows[u]| > g - 1
    requires forall i, j | 0 <= i < j < |ks| :: ks[i] != ks[j]
    ensures EpisodesFor(Emit(shows, ks, g), t) == if t in ks then [shows[t][g - 1]] else []
    decreases |ks|
  {
    if ks != [] {
      var init, last := ks[..|ks| - 1], ks[|ks| - 1];
      EmitEpisodesFor(shows, init, g, t);
      var e := Emit(shows, ks, g);
      assert e[..|e| - 1] == Emit(shows, init, g);
      assert t in ks <==> t in init || t == last;
      assert last !in init;
    }
  }

  /** Week g schedules exactly episode g-1 of show `t`, when `t` has one. */
  lemma WeekEpisodesFor(shows: ShowEpisodes, g: nat, t: string)
    requires g >= 1
    ensures EpisodesFor(WeekContents(shows, g), t) ==
              if t in shows && |shows[t]| > g - 1 then [shows[t][g - 1]] else []
  {
    var ks := Keep(shows, SortedTitles(shows.Keys), g);
    WeekIsEmitKeep(shows, g);
    StrictlySortedDistinct(ks);
    EmitEpisodesFor(shows, ks, g, t);
  }

  lemma TakeOneMore<T>(s: seq<T>, k: nat)
    requires k < |s|
    ensures s[..k + 1] == s[..k] + [s[k]]
  {
  }

  /**
   * If bucket i holds, of show `t`, exactly element i of `s` while `s` lasts and nothing
   * after, then `t`'s schedule is the prefix of `s` that the buckets reach.
   */
  lemma {:induction false} SchedulePointwise(buckets: seq<Bucket>, s: seq<Episode>, t: string)
    requires forall i | 0 <= i < |buckets| && i < |s| :: EpisodesFor(buckets[i].records, t) == [s[i]]
    requires forall i | |s| <= i < |buckets| :: EpisodesFor(buckets[i].records, t) == []
    ensures ScheduleOf(buckets, t) == s[..Min(|buckets|, |s|)]
    decreases |buckets|
  {
    if buckets != [] {
      var k := |buckets|;
      var prev := buckets[..k - 1];
      var e := EpisodesFor(buckets[k - 1].records, t);
      assert ScheduleOf(buckets, t) == ScheduleOf(prev, t) + e;
      SchedulePointwise(prev, s, t);
      if k - 1 < |s| {
        assert e == [s[k - 1]];
        TakeOneMore(s, k - 1);
      } else {
        assert e == [];
      }
    }
  }

  /** Stored week i+1 holds, of show `t`, its episode i if it has one, and nothing otherwise. */
  lemma StoredWeekEpisodesFor(shows: ShowEpisodes, weeksPerYear: int, t: string, i: nat)
    requires t in shows && i < |Distribution(shows, weeksPerYear)|
    ensures EpisodesFor(Distribution(shows, weeksPerYear)[i].records, t) ==
              if i < |shows[t]| then [shows[t][i]] else []
  {
    WeekEpisodesFor(shows, i + 1, t);
    WeeksAt(shows, weeksPerYear, MaxEpisodes(shows), i);
  }

  /** Stored week i+1 holds nothing of a title that is not a show. */
  lemma StoredWeekNoStranger(shows: ShowEpisodes, weeksPerYear: int, t: string, i: nat)
    requires t !in shows && i < |Distribution(shows, weeksPerYear)|
    ensures EpisodesFor(Distribution(shows, weeksPerYear)[i].records, t) == []
  {
    WeekEpisodesFor(shows, i + 1, t);
    WeeksAt(shows, weeksPerYear, MaxEpisodes(shows), i);
  }

  /** The episode list of title `t`, empty for a title that is not a show. */
  function EpisodeList(shows: ShowEpisodes, t: string): seq<Episode>
  {
    if t in shows then shows[t] else []
  }

  /** While `t` has episodes left, stored week i+1 holds exactly its episode i. */
  lemma StoredWeeksHit(shows: ShowEpisodes, weeksPerYear: int, t: string)
    ensures forall i | 0 <= i < |Distribution(shows, weeksPerYear)| && i < |EpisodeList(shows, t)| ::
              EpisodesFor(Distribution(shows, weeksPerYear)[i].records, t) == [EpisodeList(shows, t)[i]]
  {
    forall i | 0 <= i < |Distribution(shows, weeksPerYear)| && i < |EpisodeList(shows, t)|
      ensures EpisodesFor(Distribution(shows, weeksPerYear)[i].records, t) == [EpisodeList(shows, t)[i]]
    {
      StoredWeekEpisodesFor(shows, weeksPerYear, t, i);
    }
  }

  /** Once `t` has run out, the stored weeks hold nothing of it. */
  lemma StoredWeeksMiss(shows: ShowEpisodes, weeksPerYear: int, t: string)
    ensures forall i | |EpisodeList(shows, t)| <= i < |Distribution(shows, weeksPerYear)| ::
              EpisodesFor(Distribution(shows, weeksPerYear)[i].records, t) == []
  {
    forall i | |EpisodeList(shows, t)| <= i < |Distribution(shows, weeksPerYear)|
      ensures EpisodesFor(Distribution(shows, weeksPerYear)[i].records, t) == []
    {
      if t in shows {
        StoredWeekEpisodesFor(shows, weeksPerYear, t, i);
      } else {
        StoredWeekNoStranger(shows, weeksPerYear, t, i);
      }
    }
  }

  /**
   * Conservation: the records of show `t` across the whole distribution, in stored order,
   * are exactly its episode list, so every episode is scheduled once and in order.
   */
  lemma Conservation(shows: ShowEpisodes, weeksPerYear: int, t: string)
    ensures ScheduleOf(Distribution(shows, weeksPerYear), t) == EpisodeList(shows, t)
  {
    var d := Distribution(shows, weeksPerYear);
    var s := EpisodeList(shows, t);
    StoredWeeksHit(shows, weeksPerYear, t);
    StoredWeeksMiss(shows, weeksPerYear, t);
    SchedulePointwise(d, s, t);
    assert |s| <= |d|;
    assert s[..|s|] == s;
  }

  /** The number of records in `buckets`: the `total_episodes` statistic. */
  function TotalRecords(buckets: seq<Bucket>): nat
    decreases |buckets|
  {
    if buckets == [] then 0
    else TotalRecords(buckets[..|buckets| - 1]) + |buckets[|buckets| - 1].records|
  }

  /** The sum of the episode counts of the titles `ts`. */
  function SumLengths(shows: ShowEpisodes, ts: seq<string>): nat
    requires forall t | t in ts :: t in shows
  {
    if ts == [] then 0 else |shows[ts[0]]| + SumLengths(shows, ts[1..])
  }

  /** The number of episodes of all shows. */
  function TotalEpisodes(shows: ShowEpisodes): nat
  {
    SumLengths(shows, SortedTitles(shows.Keys))
  }

  /** How many records of `records` belong to titles of `ts`, counted title by title. */
  function CountByTitle(records: seq<Record>, ts: seq<string>): nat
  {
    if ts == [] then 0 else |EpisodesFor(records, ts[0])| + CountByTitle(records, ts[1..])
  }

  /** How many scheduled episodes `buckets` give the titles of `ts`, counted title by title. */
  function ScheduledByTitle(buckets: seq<Bucket>, ts: seq<string>): nat
  {
    if ts == [] then 0 else |ScheduleOf(buckets, ts[0])| + ScheduledByTitle(buckets, ts[1..])
  }

  /** How often `x` occurs in `ts`. */
  function Occurrences(ts: seq<string>, x: string): nat
  {
    if ts == [] then 0 else (if ts[0] == x then 1 else 0) + Occurrences(ts[1..], x)
  }

  lemma {:induction false} OccursOnce(ts: seq<string>, x: string)
    requires x in ts
    requires forall i, j | 0 <= i < j < |ts| :: ts[i] != ts[j]
    ensures Occurrences(ts, x) == 1
    decreases |ts|
  {
    if ts[0] == x {
      NotOccurring(ts[1..], x);
    } else {
      OccursOnce(ts[1..], x);
    }
  }

  lemma {:induction false} NotOccurring(ts: seq<string>, x: string)
    requires x !in ts
    ensures Occurrences(ts, x) == 0
    decreases |ts|
  {
    if ts != [] {
      NotOccurring(ts[1..], x);
    }
  }

  /** One more record adds one to the count of each title equal to its show. */
  lemma {:induction false} CountAppend(records: seq<Record>, r: Record, ts: seq<string>)
    ensures CountByTitle(records + [r], ts) == CountByTitle(records, ts) + Occurrences(ts, r.show)
    decreases |ts|
  {
    if ts != [] {
      CountAppend(records, r, ts[1..]);
      assert (records + [r])[..|records|] == records;
    }
  }

  /** Over distinct titles covering every record's show, the per-title counts add up to all records. */
  lemma {:induction false} CountCovers(records: seq<Record>, ts: seq<string>)
    requires forall i, j | 0 <= i < j < |ts| :: ts[i] != ts[j]
    requires forall r | r in records :: r.show in ts
    ensures CountByTitle(records, ts) == |records|
    decreases |records|
  {
    if records == [] {
      EmptyCount(ts);
    } else {
      var init, last := records[..|records| - 1], records[|records| - 1];
      CountCovers(init, ts);
      CountAppend(init, last, ts);
      OccursOnce(ts, last.show);
      assert records == init + [last];
    }
  }

  lemma {:induction false} EmptyCount(ts: seq<string>)
    ensures CountByTitle([], ts) == 0
    decreases |ts|
  {
    if ts != [] {
      EmptyCount(ts[1..]);
    }
  }

  /** One more bucket adds its per-title counts to the scheduled totals. */
  lemma {:induction false} ScheduledAppend(buckets: seq<Bucket>, b: Bucket, ts: seq<string>)
    ensures ScheduledByTitle(buckets + [b], ts) == ScheduledByTitle(buckets, ts) + CountByTitle(b.records, ts)
    decreases |ts|
  {
    if ts != [] {
      ScheduledAppend(buckets, b, ts[1..]);
      assert (buckets + [b])[..|buckets|] == buckets;
    }
  }

  lemma {:induction false} EmptySchedule(ts: seq<string>)
    ensures ScheduledByTitle([], ts) == 0
    decreases |ts|
  {
    if ts != [] {
      EmptySchedule(ts[1..]);
    }
  }

  /** Over distinct titles covering every record's show, the per-title schedules add up to all records. */
  lemma {:induction false} ScheduledCovers(buckets: seq<Bucket>, ts: seq<string>)
    requires forall i, j | 0 <= i < j < |ts| :: ts[i] != ts[j]
    requires forall k, r | 0 <= k < |buckets| && r in buckets[k].records :: r.show in ts
    ensures ScheduledByTitle(buckets, ts) == TotalRecords(buckets)
    decreases |buckets|
  {
    if buckets == [] {
      EmptySchedule(ts);
    } else {
      var init, last := buckets[..|buckets| - 1], buckets[|buckets| - 1];
      ScheduledCovers(init, ts);
      ScheduledAppend(init, last, ts);
      CountCovers(last.records, ts);
      assert buckets == init + [last];
    }
  }

  /** Titles whose schedules are their whole episode lists contribute their episode counts. */
  lemma {:induction false} ScheduledAll(shows: ShowEpisodes, buckets: seq<Bucket>, ts: seq<string>)
    requires forall t | t in ts :: t in shows && ScheduleOf(buckets, t) == shows[t]
    ensures ScheduledByTitle(buckets, ts) == SumLengths(shows, ts)
    decreases |ts|
  {
    if ts != [] {
      ScheduledAll(shows, buckets, ts[1..]);
    }
  }

  /** Stored week i+1 only holds records of shows. */
  lemma StoredWeekShows(shows: ShowEpisodes, weeksPerYear: int, i: nat)
    requires i < |Distribution(shows, weeksPerYear)|
    ensures forall r | r in Distribution(shows, weeksPerYear)[i].records :: r.show in shows
  {
    WeekRecordsAreEpisodes(shows, i + 1);
    WeeksAt(shows, weeksPerYear, MaxEpisodes(shows), i);
  }

  /** The number of stored records is the number of episodes of all shows. */
  lemma TotalConservation(shows: ShowEpisodes, weeksPerYear: int)
    ensures TotalRecords(Distribution(shows, weeksPerYear)) == TotalEpisodes(shows)
  {
    var d := Distribution(shows, weeksPerYear);
    var ts := SortedTitles(shows.Keys);
    StrictlySortedDistinct(ts);
    forall k, r | 0 <= k < |d| && r in d[k].records
      ensures r.show in ts
    {
      StoredWeekShows(shows, weeksPerYear, k);
    }
    ScheduledCovers(d, ts);
    forall t | t in ts
      ensures t in shows && ScheduleOf(d, t) == shows[t]
    {
      Conservation(shows, weeksPerYear, t);
      assert EpisodeList(shows, t) == shows[t];
    }
    ScheduledAll(shows, d, ts);
  }

  /** Stored week i+1 sits under the loop's counters for pass i+1. */
  lemma StoredCounters(shows: ShowEpisodes, weeksPerYear: int, i: nat)
    requires i < |Distribution(shows, weeksPerYear)|
    ensures Distribution(shows, weeksPerYear)[i].year == YearCounter(i + 1, weeksPerYear)
    ensures Distribution(shows, weeksPerYear)[i].week == WeekCounter(i + 1, weeksPerYear)
  {
    WeeksAt(shows, weeksPerYear, MaxEpisodes(shows), i);
  }

  /** Stored week i+1 sits under year (i div W) + 1 and week (i mod W) + 1 for the effective W. */
  lemma StoredKeys(shows: ShowEpisodes, weeksPerYear: int, i: nat)
    requires i < |Distribution(shows, weeksPerYear)|
    ensures Distribution(shows, weeksPerYear)[i].year == YearOf(i + 1, weeksPerYear)
    ensures Distribution(shows, weeksPerYear)[i].week == WeekOf(i + 1, weeksPerYear)
  {
    CountersAreYearWeek(i + 1, weeksPerYear);
    StoredCounters(shows, weeksPerYear, i);
  }

  /** Every stored week number lies in 1..W, and the stored (year, week) pair gives back the global week. */
  lemma StoredWeekInRange(shows: ShowEpisodes, weeksPerYear: int, i: nat)
    requires i < |Distribution(shows, weeksPerYear)|
    ensures var b := Distribution(shows, weeksPerYear)[i];
      1 <= b.week <= EffectiveWeeks(weeksPerYear) && GlobalWeek(b.year, b.week, weeksPerYear) == i + 1
  {
    YearWeekRoundTrip(i + 1, weeksPerYear);
    StoredKeys(shows, weeksPerYear, i);
  }

  /** (year1, week1) comes before (year2, week2): an earlier year, or the same year and an earlier week. */
  predicate KeyBefore(year1: nat, week1: nat, year2: nat, week2: nat)
  {
    year1 < year2 || (year1 == year2 && week1 < week2)
  }

  /** The counters only move forward: a later pass has a later (year, week) key. */
  lemma {:induction false} CountersAscending(a: nat, b: nat, weeksPerYear: int)
    requires 1 <= a < b
    ensures KeyBefore(YearCounter(a, weeksPerYear), WeekCounter(a, weeksPerYear),
                      YearCounter(b, weeksPerYear), WeekCounter(b, weeksPerYear))
    decreases b - a
  {
    if a < b - 1 {
      CountersAscending(a, b - 1, weeksPerYear);
    }
  }

  /**
   * The stored weeks come in ascending (year, week) order, so no key repeats and iterating the
   * years in insertion order, then each year's weeks in insertion order, visits them as stored.
   */
  lemma KeysAscending(shows: ShowEpisodes, weeksPerYear: int, i: nat, j: nat)
    requires i < j < |Distribution(shows, weeksPerYear)|
    ensures var d := Distribution(shows, weeksPerYear);
      KeyBefore(d[i].year, d[i].week, d[j].year, d[j].week)
  {
    StoredCountersAll(shows, weeksPerYear);
    CountersAscending(i + 1, j + 1, weeksPerYear);
  }

  /** Every stored week sits under the counters of its pass. */
  lemma StoredCountersAll(shows: ShowEpisodes, weeksPerYear: int)
    ensures forall i | 0 <= i < |Distribution(shows, weeksPerYear)| ::
              Distribution(shows, weeksPerYear)[i].year == YearCounter(i + 1, weeksPerYear) &&
              Distribution(shows, weeksPerYear)[i].week == WeekCounter(i + 1, weeksPerYear)
  {
    forall i | 0 <= i < |Distribution(shows, weeksPerYear)|
      ensures Distribution(shows, weeksPerYear)[i].year == YearCounter(i + 1, weeksPerYear)
      ensures Distribution(shows, weeksPerYear)[i].week == WeekCounter(i + 1, weeksPerYear)
    {
      StoredCounters(shows, weeksPerYear, i);
    }
  }

  /** The years 1..n. */
  function Range(n: nat): set<nat>
  {
    if n == 0 then {} else Range(n - 1) + {n}
  }

  lemma {:induction false} RangeBounds(n: nat)
    ensures forall y | y in Range(n) :: 1 <= y <= n
    decreases n
  {
    if n > 0 {
      RangeBounds(n - 1);
    }
  }

  lemma {:induction false} RangeSize(n: nat)
    ensures |Range(n)| == n
    decreases n
  {
    if n > 0 {
      RangeSize(n - 1);
      RangeBounds(n - 1);
      assert n !in Range(n - 1);
    }
  }

  /** The years the counters pass through in global weeks 1..k. */
  function ReachedYears(k: nat, weeksPerYear: int): set<nat>
  {
    if k == 0 then {} else ReachedYears(k - 1, weeksPerYear) + {YearCounter(k, weeksPerYear)}
  }

  /** The counters skip no year: in weeks 1..k they pass through exactly years 1..YearCounter(k). */
  lemma {:induction false} CounterYears(k: nat, weeksPerYear: int)
    requires k >= 1
    ensures ReachedYears(k, weeksPerYear) == Range(YearCounter(k, weeksPerYear))
    decreases k
  {
    if k == 1 {
      assert Range(1) == {1};
    } else {
      CounterYears(k - 1, weeksPerYear);
      var n := YearCounter(k - 1, weeksPerYear);
      if YearCounter(k, weeksPerYear) == n + 1 {
        assert Range(n + 1) == Range(n) + {n + 1};
      } else {
        assert n in Range(n);
      }
    }
  }

  /** The distinct years of the stored weeks: the outer keys of the yearly structure. */
  function YearsOf(buckets: seq<Bucket>): set<nat>
    decreases |buckets|
  {
    if buckets == [] then {} else YearsOf(buckets[..|buckets| - 1]) + {buckets[|buckets| - 1].year}
  }

  /** Buckets stored under the counters of passes 1, 2, ... hold the years those passes reach. */
  lemma {:induction false} YearsOfCounters(buckets: seq<Bucket>, weeksPerYear: int)
    requires forall i | 0 <= i < |buckets| :: buckets[i].year == YearCounter(i + 1, weeksPerYear)
    ensures YearsOf(buckets) == ReachedYears(|buckets|, weeksPerYear)
    decreases |buckets|
  {
    if buckets != [] {
      YearsOfCounters(buckets[..|buckets| - 1], weeksPerYear);
    }
  }

  /** The structure holds (MaxEpisodes - 1) div W + 1 years, the last one possibly partial. */
  lemma YearsGenerated(shows: ShowEpisodes, weeksPerYear: int)
    ensures |YearsOf(Distribution(shows, weeksPerYear))| ==
              if MaxEpisodes(shows) == 0 then 0 else YearOf(MaxEpisodes(shows), weeksPerYear)
  {
    var m := MaxEpisodes(shows);
    var d := Distribution(shows, weeksPerYear);
    if m == 0 {
      assert d == [];
    } else {
      StoredCountersAll(shows, weeksPerYear);
      YearsOfCounters(d, weeksPerYear);
      CounterYears(m, weeksPerYear);
      RangeSize(YearCounter(m, weeksPerYear));
      CountersAreYearWeek(m, weeksPerYear);
    }
  }

  /** With at most one week per year, every pass starts a new year at week 1. */
  lemma {:induction false} CountersOneWeekPerYear(g: nat, weeksPerYear: int)
    requires g >= 1 && weeksPerYear <= 1
    ensures WeekCounter(g, weeksPerYear) == 1 && YearCounter(g, weeksPerYear) == g
    decreases g
  {
    if g > 1 {
      CountersOneWeekPerYear(g - 1, weeksPerYear);
    }
  }

  /** Stored week i+1 in full: its counters and the contents of global week i+1. */
  lemma StoredWeeksAll(shows: ShowEpisodes, weeksPerYear: int)
    ensures forall i | 0 <= i < |Distribution(shows, weeksPerYear)| ::
              Distribution(shows, weeksPerYear)[i] ==
                Bucket(YearCounter(i + 1, weeksPerYear), WeekCounter(i + 1, weeksPerYear), WeekContents(shows, i + 1))
  {
    forall i | 0 <= i < |Distribution(shows, weeksPerYear)|
      ensures Distribution(shows, weeksPerYear)[i] ==
                Bucket(YearCounter(i + 1, weeksPerYear), WeekCounter(i + 1, weeksPerYear), WeekContents(shows, i + 1))
    {
      WeeksAt(shows, weeksPerYear, MaxEpisodes(shows), i);
    }
  }

  /**
   * A weeks-per-year value of 0 or less behaves as 1: every year holds exactly one week,
   * stored as week 1, and the distribution is the one for a single week per year.
   */
  lemma NonPositiveWeeksPerYear(shows: ShowEpisodes, weeksPerYear: int)
    requires weeksPerYear <= 0
    ensures Distribution(shows, weeksPerYear) == Distribution(shows, 1)
    ensures forall i | 0 <= i < |Distribution(shows, weeksPerYear)| ::
              Distribution(shows, weeksPerYear)[i].year == i + 1 && Distribution(shows, weeksPerYear)[i].week == 1
  {
    var d, d1 := Distribution(shows, weeksPerYear), Distribution(shows, 1);
    StoredWeeksAll(shows, weeksPerYear);
    StoredWeeksAll(shows, 1);
    forall i | 0 <= i < |d|
      ensures d[i] == d1[i] && d[i].year == i + 1 && d[i].week == 1
    {
      CountersOneWeekPerYear(i + 1, weeksPerYear);
      CountersOneWeekPerYear(i + 1, 1);
    }
  }
}

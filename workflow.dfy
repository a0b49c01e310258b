/**
 * The workflows built on the pieces: generating every playlist for a section and a list of
 * ratings, summarising the playlists under a prefix, and deleting them.
 */
module Workflow {
  import opened Catalog
  import opened ShowSelection
  import opened WeekDistributor
  import opened DistributionFacts
  import opened PlaylistTitles
  import opened Materialiser

  /** The summary generate_all_playlists returns: the `success` flag is the constructor. */
  datatype Report =
    | Failure(error: string)
    | Success(showsCount: nat, shows: seq<string>, totalEpisodes: nat, yearsGenerated: nat,
              playlistsCreated: nat, playlistNames: seq<string>)

  /** A report and the server it leaves behind. */
  datatype Run = Run(report: Report, server: Server)

  /** `str(xs)` of a list of strings: each item in single quotes, separated by ", ". */
  function ListRepr(xs: seq<string>): (r: string)
    ensures |r| >= 2 && r[0] == '[' && r[|r| - 1] == ']'
    ensures xs == [] <==> r == "[]"
    ensures |xs| == 1 ==> r == "['" + xs[0] + "']"
  {
    "[" + JoinQuoted(xs) + "]"
  }

  lemma {:induction false} JoinQuotedAppend(xs: seq<string>, x: string)
    requires xs != []
    ensures JoinQuoted(xs + [x]) == JoinQuoted(xs) + ", '" + x + "'"
    decreases |xs|
  {
    var ys := xs + [x];
    var head := "'" + xs[0] + "', ";
    assert ys[0] == xs[0] && ys[1..] == xs[1..] + [x];
    if |xs| == 1 {
      assert ys[1..] == [x];
      assert head + ("'" + x + "'") == "'" + xs[0] + "'" + ", '" + x + "'";
    } else {
      JoinQuotedAppend(xs[1..], x);
      var tail := JoinQuoted(xs[1..]);
      assert head + (tail + ", '" + x + "'") == head + tail + ", '" + x + "'";
    }
  }

  /**
   * The list written item by item: one more item goes before the closing bracket, in single
   * quotes, after a ", " separator unless it is the first.
   */
  lemma ListReprAppend(xs: seq<string>, x: string)
    ensures var before := ListRepr(xs);
      ListRepr(xs + [x]) == before[..|before| - 1] + (if xs == [] then "'" else ", '") + x + "']"
  {
    var before := ListRepr(xs);
    assert before[..|before| - 1] == "[" + JoinQuoted(xs);
    if xs == [] {
      assert xs + [x] == [x];
    } else {
      JoinQuotedAppend(xs, x);
    }
  }

  function JoinQuoted(xs: seq<string>): (r: string)
    ensures xs == [] <==> r == []
    decreases |xs|
  {
    if xs == [] then ""
    else if |xs| == 1 then "'" + xs[0] + "'"
    else "'" + xs[0] + "', " + JoinQuoted(xs[1..])
  }

  function NoShowsMessage(ratings: seq<string>): string
  {
    "No shows found with ratings: " + ListRepr(ratings)
  }

  const NoEpisodesMessage: string := "No episodes found in selected shows"

  /** The titles of the shows, in order. */
  function ShowTitles(shows: seq<Show>): (r: seq<string>)
    ensures |r| == |shows| && forall i | 0 <= i < |shows| :: r[i] == shows[i].title
  {
    seq(|shows|, i requires 0 <= i < |shows| => shows[i].title)
  }

  /** The titles of the playlists, in order. */
  function TitlesOf(playlists: seq<Playlist>): (r: seq<string>)
    ensures |r| == |playlists| && forall i | 0 <= i < |playlists| :: r[i] == playlists[i].title
  {
    seq(|playlists|, i requires 0 <= i < |playlists| => playlists[i].title)
  }

  /** The report of a successful run, built from what the steps gave. */
  function Summarise(shows: seq<Show>, buckets: seq<Bucket>, created: seq<Playlist>): Report
  {
    Success(|shows|, ShowTitles(shows), TotalRecords(buckets), |YearsOf(buckets)|,
            |created|, TitlesOf(created[..Min(10, |created|)]))
  }

  /**
   * The whole workflow as a function of its inputs: the section's show listing (or the error
   * its lookup raised), the ratings, the prefix, the weeks per year, the server's playlists and
   * how the server answers deletes and creates.
   */
  ghost function Generate(section: Result<seq<Show>>, ratings: seq<string>, prefix: string,
                          weeksPerYear: int, server: Server, ok: Responses): Run
  {
    match section
    case Err(e) => Run(Failure(e), server)
    case Ok(all) =>
      var shows := FilterByRating(all, ratings);
      if shows == [] then Run(Failure(NoShowsMessage(ratings)), server)
      else
        var showEpisodes := CollectEpisodes(shows);
        if showEpisodes == map[] then Run(Failure(NoEpisodesMessage), server)
        else
          var buckets := Distribution(showEpisodes, weeksPerYear);
          var o := Materialise(buckets, prefix, server, ok);
          Run(Summarise(shows, buckets, o.created), o.server)
  }

  lemma GenerateSuccessCase(all: seq<Show>, ratings: seq<string>, prefix: string,
                            weeksPerYear: int, server: Server, ok: Responses)
    requires FilterByRating(all, ratings) != []
    requires CollectEpisodes(FilterByRating(all, ratings)) != map[]
    ensures var shows := FilterByRating(all, ratings);
      var buckets := Distribution(CollectEpisodes(shows), weeksPerYear);
      var o := Materialise(buckets, prefix, server, ok);
      Generate(Ok(all), ratings, prefix, weeksPerYear, server, ok) == Run(Summarise(shows, buckets, o.created), o.server)
  {
  }

  /** generate_all_playlists: filter, collect, distribute, create, then report. */
  method GenerateAllPlaylists(section: Result<seq<Show>>, ratings: seq<string>, prefix: string,
                              weeksPerYear: int, server: Server, ok: Responses)
      returns (report: Report, serverAfter: Server)
    ensures Run(report, serverAfter) == Generate(section, ratings, prefix, weeksPerYear, server, ok)
  {
    serverAfter := server;
    if section.Err? {
      report := Failure(section.message);
      return;
    }
    var shows := GetFilteredShows(section.value, ratings);
    if shows == [] {
      report := Failure(NoShowsMessage(ratings));
      return;
    }
    var showEpisodes := GetAllEpisodes(shows);
    if showEpisodes == map[] {
      report := Failure(NoEpisodesMessage);
      return;
    }
    var buckets;
    ghost var passes;
    buckets, passes := DistributeEpisodesToWeeks(showEpisodes, weeksPerYear);
    var created;
    created, serverAfter := CreatePlexPlaylists(buckets, prefix, server, ok);
    GenerateSuccessCase(section.value, ratings, prefix, weeksPerYear, server, ok);
    var totalEpisodes := TotalRecords(buckets);
    report := Success(|shows|, ShowTitles(shows), totalEpisodes, |YearsOf(buckets)|,
                      |created|, TitlesOf(created[..Min(10, |created|)]));
  }

  /** Some show of the listing has an allowed rating. */
  predicate SomeAllowed(all: seq<Show>, ratings: seq<string>)
  {
    exists i :: 0 <= i < |all| && RatingAllowed(all[i], ratings)
  }

  /** Some show of the listing has an allowed rating and a fetch that gave episodes. */
  predicate SomeUsable(all: seq<Show>, ratings: seq<string>)
  {
    exists i :: 0 <= i < |all| && RatingAllowed(all[i], ratings) && HasEpisodes(all[i])
  }

  lemma FilteredEmptyIff(all: seq<Show>, ratings: seq<string>)
    ensures FilterByRating(all, ratings) == [] <==> !SomeAllowed(all, ratings)
  {
    var shows := FilterByRating(all, ratings);
    if shows != [] {
      assert shows[0] in all;
    }
    if SomeAllowed(all, ratings) {
      var i :| 0 <= i < |all| && RatingAllowed(all[i], ratings);
      assert all[i] in shows;
    }
  }

  lemma CollectedNonEmpty(all: seq<Show>, ratings: seq<string>)
    requires CollectEpisodes(FilterByRating(all, ratings)) != map[]
    ensures SomeUsable(all, ratings)
  {
    var shows := FilterByRating(all, ratings);
    var t :| t in CollectEpisodes(shows);
    var j :| 0 <= j < |shows| && shows[j].title == t && HasEpisodes(shows[j]);
    assert shows[j] in all;
    var i :| 0 <= i < |all| && all[i] == shows[j];
    assert RatingAllowed(all[i], ratings) && HasEpisodes(all[i]);
  }

  lemma UsableCollected(all: seq<Show>, ratings: seq<string>)
    requires SomeUsable(all, ratings)
    ensures CollectEpisodes(FilterByRating(all, ratings)) != map[]
  {
    var shows := FilterByRating(all, ratings);
    var i :| 0 <= i < |all| && RatingAllowed(all[i], ratings) && HasEpisodes(all[i]);
    assert all[i] in shows;
    var j :| 0 <= j < |shows| && shows[j] == all[i];
    assert all[i].title in CollectEpisodes(shows);
  }

  lemma CollectedEmptyIff(all: seq<Show>, ratings: seq<string>)
    ensures CollectEpisodes(FilterByRating(all, ratings)) == map[] <==> !SomeUsable(all, ratings)
  {
    if CollectEpisodes(FilterByRating(all, ratings)) != map[] {
      CollectedNonEmpty(all, ratings);
    }
    if SomeUsable(all, ratings) {
      UsableCollected(all, ratings);
    }
  }

  /**
   * The failures, in the order the workflow meets them: the section lookup's own error, no
   * show with an allowed rating, no allowed show with episodes; a failure leaves the server
   * as it was.
   */
  lemma GenerateFailures(section: Result<seq<Show>>, ratings: seq<string>, prefix: string,
                         weeksPerYear: int, server: Server, ok: Responses)
    ensures var run := Generate(section, ratings, prefix, weeksPerYear, server, ok);
      && (section.Err? ==> run.report == Failure(section.message))
      && (section.Ok? && !SomeAllowed(section.value, ratings) ==> run.report == Failure(NoShowsMessage(ratings)))
      && (section.Ok? && SomeAllowed(section.value, ratings) && !SomeUsable(section.value, ratings) ==>
            run.report == Failure(NoEpisodesMessage))
      && (run.report.Failure? ==> run.server == server)
  {
    if section.Ok? {
      FilteredEmptyIff(section.value, ratings);
      CollectedEmptyIff(section.value, ratings);
    }
  }

  /** The workflow succeeds exactly when the section is found and some allowed show has episodes. */
  lemma GenerateSucceedsIff(section: Result<seq<Show>>, ratings: seq<string>, prefix: string,
                            weeksPerYear: int, server: Server, ok: Responses)
    ensures Generate(section, ratings, prefix, weeksPerYear, server, ok).report.Success? <==>
              section.Ok? && SomeUsable(section.value, ratings)
  {
    if section.Ok? {
      FilteredEmptyIff(section.value, ratings);
      CollectedEmptyIff(section.value, ratings);
      if SomeUsable(section.value, ratings) {
        var i :| 0 <= i < |section.value| && RatingAllowed(section.value[i], ratings) && HasEpisodes(section.value[i]);
        assert SomeAllowed(section.value, ratings);
      }
    }
  }

  /** The episode map the workflow distributes. */
  function Selected(all: seq<Show>, ratings: seq<string>): ShowEpisodes
  {
    CollectEpisodes(FilterByRating(all, ratings))
  }

  /**
   * A successful report counts the allowed shows and lists their titles in listing order, and
   * its episode total is the number of episodes of the selected shows: none is lost or doubled.
   */
  lemma GenerateCounts(section: Result<seq<Show>>, ratings: seq<string>, prefix: string,
                       weeksPerYear: int, server: Server, ok: Responses)
    requires Generate(section, ratings, prefix, weeksPerYear, server, ok).report.Success?
    ensures var r := Generate(section, ratings, prefix, weeksPerYear, server, ok).report;
      && r.showsCount == |FilterByRating(section.value, ratings)| >= 1
      && r.shows == ShowTitles(FilterByRating(section.value, ratings))
      && r.totalEpisodes == TotalEpisodes(Selected(section.value, ratings))
  {
    TotalConservation(Selected(section.value, ratings), weeksPerYear);
  }

  /**
   * The number of years reported is the year of the last stored week: the largest episode
   * count of a selected show, in weeks, split into years of max(weeksPerYear, 1) weeks.
   */
  lemma GenerateYears(section: Result<seq<Show>>, ratings: seq<string>, prefix: string,
                      weeksPerYear: int, server: Server, ok: Responses)
    requires Generate(section, ratings, prefix, weeksPerYear, server, ok).report.Success?
    ensures var m := MaxEpisodes(Selected(section.value, ratings));
      && m >= 1
      && Generate(section, ratings, prefix, weeksPerYear, server, ok).report.yearsGenerated == YearOf(m, weeksPerYear) >= 1
  {
    var eps := Selected(section.value, ratings);
    var t :| t in eps;
    assert |eps[t]| >= 1;
    YearsGenerated(eps, weeksPerYear);
  }

  /** Stored weeks have pairwise different (year, week) keys, hence different titles. */
  lemma DistributionTitlesDistinct(shows: ShowEpisodes, weeksPerYear: int, prefix: string)
    ensures DistinctTitles(Distribution(shows, weeksPerYear), prefix)
  {
    var d := Distribution(shows, weeksPerYear);
    forall i, j | 0 <= i < j < |d|
      ensures BucketTitle(prefix, d[i]) != BucketTitle(prefix, d[j])
    {
      KeysAscending(shows, weeksPerYear, i, j);
      if BucketTitle(prefix, d[i]) == BucketTitle(prefix, d[j]) {
        TitleInjective(prefix, d[i].year, d[i].week, d[j].year, d[j].week);
      }
    }
  }

  /** The titles of the first playlists of a list all come from the list's titles. */
  lemma FirstTitles(playlists: seq<Playlist>, k: nat, server: Server, prefix: string)
    requires k <= |playlists|
    requires forall p | p in playlists :: p in server && StartsWith(p.title, prefix)
    ensures forall n | n in TitlesOf(playlists[..k]) :: StartsWith(n, prefix) && n in TitlesOf(server)
  {
    var names := TitlesOf(playlists[..k]);
    forall n | n in names
      ensures StartsWith(n, prefix) && n in TitlesOf(server)
    {
      var i :| 0 <= i < |names| && names[i] == n;
      var p := playlists[i];
      assert p in playlists && p.title == n;
      var j :| 0 <= j < |server| && server[j] == p;
      assert TitlesOf(server)[j] == n;
    }
  }

  /**
   * Materialising weeks of distinct titles: at most one playlist per week, and the first ten
   * created carry the prefix and are on the server afterwards.
   */
  lemma FirstCreatedPresent(buckets: seq<Bucket>, prefix: string, server: Server, ok: Responses)
    requires DistinctTitles(buckets, prefix)
    ensures var o := Materialise(buckets, prefix, server, ok);
      && |o.created| <= |buckets|
      && forall n | n in TitlesOf(o.created[..Min(10, |o.created|)]) :: StartsWith(n, prefix) && n in TitlesOf(o.server)
  {
    var o := Materialise(buckets, prefix, server, ok);
    CreatedAreAccepted(buckets, prefix, server, ok);
    CreatedHavePrefix(buckets, prefix, server, ok);
    CreatedPresent(buckets, prefix, server, ok);
    FirstTitles(o.created, Min(10, |o.created|), o.server, prefix);
  }

  /**
   * A successful run creates at most one playlist per stored week, names the first ten at most,
   * every name carries the prefix, and every named playlist is on the server afterwards.
   */
  lemma GeneratePlaylists(section: Result<seq<Show>>, ratings: seq<string>, prefix: string,
                          weeksPerYear: int, server: Server, ok: Responses)
    requires Generate(section, ratings, prefix, weeksPerYear, server, ok).report.Success?
    ensures var run := Generate(section, ratings, prefix, weeksPerYear, server, ok);
      && run.report.playlistsCreated <= MaxEpisodes(Selected(section.value, ratings))
      && |run.report.playlistNames| == Min(10, run.report.playlistsCreated)
      && (forall n | n in run.report.playlistNames :: StartsWith(n, prefix) && n in TitlesOf(run.server))
  {
    var eps := Selected(section.value, ratings);
    DistributionTitlesDistinct(eps, weeksPerYear, prefix);
    FirstCreatedPresent(Distribution(eps, weeksPerYear), prefix, server, ok);
  }

  /** Generating never deletes a playlist whose title lacks the prefix. */
  lemma GenerateKeepsOthers(section: Result<seq<Show>>, ratings: seq<string>, prefix: string,
                            weeksPerYear: int, server: Server, ok: Responses)
    ensures forall p | p in server && !StartsWith(p.title, prefix) ::
              p in Generate(section, ratings, prefix, weeksPerYear, server, ok).server
  {
    if section.Ok? {
      var shows := FilterByRating(section.value, ratings);
      if shows != [] && CollectEpisodes(shows) != map[] {
        OthersKept(Distribution(CollectEpisodes(shows), weeksPerYear), prefix, server, ok);
      }
    }
  }

  /** The server's playlists whose titles start with the prefix, in the server's order. */
  function MatchingPlaylists(server: Server, prefix: string): (r: Server)
    ensures forall p :: multiset(r)[p] == if StartsWith(p.title, prefix) then multiset(server)[p] else 0
    ensures forall p :: p in r <==> p in server && StartsWith(p.title, prefix)
    ensures IsSubsequence(r, server)
    decreases |server|
  {
    if server == [] then []
    else
      var init, p := server[..|server| - 1], server[|server| - 1];
      var rest := MatchingPlaylists(init, prefix);
      FilterAppend(init, p, rest, (q: Playlist) => StartsWith(q.title, prefix));
      assert server == init + [p];
      rest + if StartsWith(p.title, prefix) then [p] else []
  }

  /** What get_playlist_summary returns: the titles of the playlists found, and how many. */
  datatype SummaryReport =
    | SummaryFailure(error: string)
    | SummarySuccess(totalPlaylists: nat, titles: seq<string>)

  lemma TitlesOfAppend(playlists: seq<Playlist>, p: Playlist)
    ensures TitlesOf(playlists + [p]) == TitlesOf(playlists) + [p.title]
  {
  }

  /** The filter that keeps the titles starting with the prefix. */
  function HasPrefix(prefix: string): string -> bool
  {
    n => StartsWith(n, prefix)
  }

  /** One more server title extends the prefix filter of the titles. */
  lemma PrefixFilterAppend(t: seq<string>, a: seq<string>, n: string, prefix: string)
    requires IsFilter(t, a, HasPrefix(prefix))
    ensures IsFilter(t + (if StartsWith(n, prefix) then [n] else []), a + [n], HasPrefix(prefix))
  {
    FilterAppendIs(a, n, t, HasPrefix(prefix));
  }

  /** The titles of the matching playlists are the server's titles that start with the prefix. */
  lemma {:induction false} MatchingTitles(server: Server, prefix: string)
    ensures IsFilter(TitlesOf(MatchingPlaylists(server, prefix)), TitlesOf(server), HasPrefix(prefix))
    decreases |server|
  {
    if server == [] {
      assert TitlesOf(server) == [];
      assert TitlesOf(MatchingPlaylists(server, prefix)) == [];
    } else {
      var init, p := server[..|server| - 1], server[|server| - 1];
      MatchingTitles(init, prefix);
      MatchingTitlesStep(init, p, prefix);
      PrefixFilterAppend(TitlesOf(MatchingPlaylists(init, prefix)), TitlesOf(init), p.title, prefix);
      assert server == init + [p];
    }
  }

  lemma MatchingTitlesStep(init: Server, p: Playlist, prefix: string)
    ensures TitlesOf(init + [p]) == TitlesOf(init) + [p.title]
    ensures TitlesOf(MatchingPlaylists(init + [p], prefix))
              == TitlesOf(MatchingPlaylists(init, prefix)) + if StartsWith(p.title, prefix) then [p.title] else []
  {
    var m := MatchingPlaylists(init, prefix);
    assert (init + [p])[..|init|] == init;
    TitlesOfAppend(init, p);
    if StartsWith(p.title, prefix) {
      assert MatchingPlaylists(init + [p], prefix) == m + [p];
      TitlesOfAppend(m, p);
    } else {
      assert MatchingPlaylists(init + [p], prefix) == m + [];
      assert m + [] == m;
      assert TitlesOf(m) + [] == TitlesOf(m);
    }
  }

  /**
   * get_playlist_summary, over the server's playlists or the error listing them raised: the
   * titles of the playlists whose titles start with the prefix, in the server's order, and
   * their number.
   */
  function GetPlaylistSummary(server: Server, listError: Option<string>, prefix: string): (r: SummaryReport)
    ensures listError.Some? ==> r == SummaryFailure(listError.value)
    ensures listError.None? ==> r.SummarySuccess? && r.totalPlaylists == |r.titles|
    ensures listError.None? ==> forall n ::
              multiset(r.titles)[n] == if StartsWith(n, prefix) then multiset(TitlesOf(server))[n] else 0
    ensures listError.None? ==> forall n :: n in r.titles <==> n in TitlesOf(server) && StartsWith(n, prefix)
    ensures listError.None? ==> IsSubsequence(r.titles, TitlesOf(server))
  {
    match listError
    case Some(e) => SummaryFailure(e)
    case None =>
      var matching := MatchingPlaylists(server, prefix);
      MatchingTitles(server, prefix);
      SummarySuccess(|matching|, TitlesOf(matching))
  }

  /** Right after a successful run, the summary under the same prefix lists every playlist it named. */
  lemma SummaryAfterGenerate(section: Result<seq<Show>>, ratings: seq<string>, prefix: string,
                             weeksPerYear: int, server: Server, ok: Responses)
    requires Generate(section, ratings, prefix, weeksPerYear, server, ok).report.Success?
    ensures var run := Generate(section, ratings, prefix, weeksPerYear, server, ok);
      forall n | n in run.report.playlistNames :: n in GetPlaylistSummary(run.server, None, prefix).titles
  {
    var run := Generate(section, ratings, prefix, weeksPerYear, server, ok);
    GeneratePlaylists(section, ratings, prefix, weeksPerYear, server, ok);
  }

  /** The playlists whose delete succeeds, in order. */
  function Deletable(playlists: seq<Playlist>, deleteOk: Playlist -> bool): (r: seq<Playlist>)
    ensures forall p :: multiset(r)[p] == if deleteOk(p) then multiset(playlists)[p] else 0
    ensures forall p :: p in r <==> p in playlists && deleteOk(p)
    ensures IsSubsequence(r, playlists)
    decreases |playlists|
  {
    if playlists == [] then []
    else
      var init, p := playlists[..|playlists| - 1], playlists[|playlists| - 1];
      var rest := Deletable(init, deleteOk);
      FilterAppend(init, p, rest, deleteOk);
      assert playlists == init + [p];
      rest + if deleteOk(p) then [p] else []
  }

  /** The server once every playlist under the prefix has been asked to be deleted. */
  function Surviving(server: Server, prefix: string, deleteOk: Playlist -> bool): (r: Server)
    ensures forall p :: p in r <==> p in server && !(StartsWith(p.title, prefix) && deleteOk(p))
    decreases |server|
  {
    if server == [] then []
    else
      var init, p := server[..|server| - 1], server[|server| - 1];
      assert server == init + [p];
      Surviving(init, prefix, deleteOk) + if StartsWith(p.title, prefix) && deleteOk(p) then [] else [p]
  }

  lemma DeletableAppend(playlists: seq<Playlist>, p: Playlist, deleteOk: Playlist -> bool)
    ensures Deletable(playlists + [p], deleteOk) == Deletable(playlists, deleteOk) + if deleteOk(p) then [p] else []
  {
    assert (playlists + [p])[..|playlists|] == playlists;
  }

  /** Every playlist the server holds is either deleted or survives, never both. */
  lemma {:induction false} DeletedPlusSurviving(server: Server, prefix: string, deleteOk: Playlist -> bool)
    ensures |Deletable(MatchingPlaylists(server, prefix), deleteOk)| + |Surviving(server, prefix, deleteOk)| == |server|
    decreases |server|
  {
    if server != [] {
      var init, p := server[..|server| - 1], server[|server| - 1];
      DeletedPlusSurviving(init, prefix, deleteOk);
      var m := MatchingPlaylists(init, prefix);
      if StartsWith(p.title, prefix) {
        assert MatchingPlaylists(server, prefix) == m + [p];
        DeletableAppend(m, p, deleteOk);
      } else {
        assert MatchingPlaylists(server, prefix) == m;
      }
    }
  }

  /** The number of playlists whose delete succeeds, counted one playlist at a time. */
  function SuccessCount(playlists: seq<Playlist>, deleteOk: Playlist -> bool): nat
    decreases |playlists|
  {
    if playlists == [] then 0
    else
      SuccessCount(playlists[..|playlists| - 1], deleteOk) + if deleteOk(playlists[|playlists| - 1]) then 1 else 0
  }

  /** Counting the successful deletes gives the number of deletable playlists. */
  lemma {:induction false} SuccessCountIsDeletable(playlists: seq<Playlist>, deleteOk: Playlist -> bool)
    ensures SuccessCount(playlists, deleteOk) == |Deletable(playlists, deleteOk)|
    decreases |playlists|
  {
    if playlists != [] {
      SuccessCountIsDeletable(playlists[..|playlists| - 1], deleteOk);
    }
  }

  /** What delete_all_playlists returns. */
  datatype DeleteReport =
    | DeleteFailure(error: string)
    | DeleteSuccess(deletedCount: nat, totalFound: nat)

  /**
   * delete_all_playlists: asks for every playlist under the prefix to be deleted, one at a
   * time, counting the deletes that succeed; a failed delete does not stop the others.
   */
  method DeleteAllPlaylists(server: Server, listError: Option<string>, prefix: string, deleteOk: Playlist -> bool)
      returns (report: DeleteReport)
    ensures listError.Some? ==> report == DeleteFailure(listError.value)
    ensures listError.None? ==> report == DeleteSuccess(
              |Deletable(MatchingPlaylists(server, prefix), deleteOk)|, |MatchingPlaylists(server, prefix)|)
  {
    if listError.Some? {
      return DeleteFailure(listError.value);
    }
    var matching := MatchingPlaylists(server, prefix);
    var deletedCount := 0;
    var i := 0;
    while i < |matching|
      invariant 0 <= i <= |matching|
      invariant deletedCount == SuccessCount(matching[..i], deleteOk)
    {
      assert matching[..i + 1][..i] == matching[..i];
      if deleteOk(matching[i]) {
        deletedCount := deletedCount + 1;
      }
      i := i + 1;
    }
    assert matching[..i] == matching;
    SuccessCountIsDeletable(matching, deleteOk);
    report := DeleteSuccess(deletedCount, |matching|);
  }

  /**
   * The counts of a deletion: no more deleted than found, all of them when every delete
   * succeeds, and the server keeps exactly found - deleted of the prefix's playlists.
   */
  lemma DeleteCounts(server: Server, prefix: string, deleteOk: Playlist -> bool)
    ensures var matching := MatchingPlaylists(server, prefix);
      && |Deletable(matching, deleteOk)| <= |matching|
      && ((forall p | p in matching :: deleteOk(p)) ==> Deletable(matching, deleteOk) == matching)
      && |Surviving(server, prefix, deleteOk)| == |server| - |Deletable(matching, deleteOk)|
  {
    var matching := MatchingPlaylists(server, prefix);
    DeletedPlusSurviving(server, prefix, deleteOk);
    if forall p | p in matching :: deleteOk(p) {
      DeletableAll(matching, deleteOk);
    }
  }

  lemma {:induction false} DeletableAll(playlists: seq<Playlist>, deleteOk: Playlist -> bool)
    requires forall p | p in playlists :: deleteOk(p)
    ensures Deletable(playlists, deleteOk) == playlists
    decreases |playlists|
  {
    if playlists != [] {
      var init, p := playlists[..|playlists| - 1], playlists[|playlists| - 1];
      assert playlists == init + [p];
      DeletableAll(init, deleteOk);
      DeletableAppend(init, p, deleteOk);
    }
  }

  lemma {:induction false} NoneMatching(server: Server, prefix: string)
    requires forall p | p in server :: !StartsWith(p.title, prefix)
    ensures MatchingPlaylists(server, prefix) == []
    decreases |server|
  {
    if server != [] {
      var init, p := server[..|server| - 1], server[|server| - 1];
      assert p in server;
      assert forall q | q in init :: q in server;
      NoneMatching(init, prefix);
    }
  }

  /** Once every delete under the prefix has succeeded, a summary under the prefix finds nothing. */
  lemma SummaryAfterDelete(server: Server, prefix: string, deleteOk: Playlist -> bool)
    requires forall p | p in server && StartsWith(p.title, prefix) :: deleteOk(p)
    ensures GetPlaylistSummary(Surviving(server, prefix, deleteOk), None, prefix) == SummarySuccess(0, [])
  {
    NoneMatching(Surviving(server, prefix, deleteOk), prefix);
  }
}

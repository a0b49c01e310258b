/**
 * Selecting the shows of a TV section by content rating, and collecting their
 * episodes into a map from show title to episode list.
 */
module ShowSelection {
  import opened Catalog

  /** `show.contentRating in content_ratings`: exact string membership; a show without a rating never matches. */
  predicate RatingAllowed(show: Show, ratings: seq<string>)
  {
    show.contentRating.Some? && show.contentRating.value in ratings
  }

  /** The shows whose rating is allowed, in their original order, each as often as in the input. */
  function FilterByRating(shows: seq<Show>, ratings: seq<string>): (r: seq<Show>)
    ensures forall s :: multiset(r)[s] == if RatingAllowed(s, ratings) then multiset(shows)[s] else 0
    ensures forall s :: s in r <==> s in shows && RatingAllowed(s, ratings)
    ensures IsSubsequence(r, shows)
    decreases |shows|
  {
    if shows == [] then []
    else
      var init := shows[..|shows| - 1];
      var last := shows[|shows| - 1];
      var rest := FilterByRating(init, ratings);
      FilterAppend(init, last, rest, s => RatingAllowed(s, ratings));
      assert shows == init + [last];
      rest + (if RatingAllowed(last, ratings) then [last] else [])
  }

  /** get_filtered_shows: one pass over the section's shows, appending those that match. */
  method GetFilteredShows(allShows: seq<Show>, ratings: seq<string>) returns (filtered: seq<Show>)
    ensures filtered == FilterByRating(allShows, ratings)
  {
    filtered := [];
    var i := 0;
    while i < |allShows|
      invariant 0 <= i <= |allShows|
      invariant filtered == FilterByRating(allShows[..i], ratings)
    {
      var show := allShows[i];
      assert allShows[..i + 1][..i] == allShows[..i];
      if show.contentRating.Some? && show.contentRating.value in ratings {
        filtered := filtered + [show];
      }
      i := i + 1;
    }
    assert allShows[..i] == allShows;
  }

  /** The episode fetch of `show` succeeded and gave at least one episode. */
  predicate HasEpisodes(show: Show)
  {
    show.episodes.Ok? && show.episodes.value != []
  }

  /**
   * The title-to-episodes map built from `shows` in order: a show whose fetch failed
   * or gave nothing is skipped, and a later show overwrites an earlier one of the same title.
   */
  function CollectEpisodes(shows: seq<Show>): (m: map<string, seq<Episode>>)
    ensures forall t :: t in m <==> exists i :: 0 <= i < |shows| && shows[i].title == t && HasEpisodes(shows[i])
    ensures forall t :: t in m ==> m[t] != []
    decreases |shows|
  {
    if shows == [] then map[]
    else
      var init := shows[..|shows| - 1];
      var last := shows[|shows| - 1];
      var m := CollectEpisodes(init);
      assert forall i :: 0 <= i < |init| ==> init[i] == shows[i];
      if HasEpisodes(last) then m[last.title := last.episodes.value] else m
  }

  /** The value stored under a title comes from the last show of that title whose fetch gave episodes. */
  lemma {:induction false} CollectEpisodesLastWins(shows: seq<Show>, i: int)
    requires 0 <= i < |shows| && HasEpisodes(shows[i])
    requires forall j :: i < j < |shows| && shows[j].title == shows[i].title ==> !HasEpisodes(shows[j])
    ensures shows[i].title in CollectEpisodes(shows)
    ensures CollectEpisodes(shows)[shows[i].title] == shows[i].episodes.value
    decreases |shows|
  {
    var init := shows[..|shows| - 1];
    if i < |shows| - 1 {
      CollectEpisodesLastWins(init, i);
    }
  }

  /** get_all_episodes: one pass over the shows, keeping each successful non-empty fetch. */
  method GetAllEpisodes(shows: seq<Show>) returns (showEpisodes: map<string, seq<Episode>>)
    ensures showEpisodes == CollectEpisodes(shows)
  {
    showEpisodes := map[];
    var i := 0;
    while i < |shows|
      invariant 0 <= i <= |shows|
      invariant showEpisodes == CollectEpisodes(shows[..i])
    {
      var show := shows[i];
      assert shows[..i + 1][..i] == shows[..i];
      match show.episodes {
        case Ok(episodes) =>
          if episodes != [] {
            showEpisodes := showEpisodes[show.title := episodes];
          }
        case Err(_) =>
      }
      i := i + 1;
    }
    assert shows[..i] == shows;
  }
}

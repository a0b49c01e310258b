# Saturday Morning playlist generator, modelled in Dafny

This project models `PlaylistGenerator` from `playlist_generator.py`, the part of the Saturday
Morning Plex tool that turns a TV library into weekly playlists. It proves properties of that
model. The generator does four things:

- It keeps the shows of a section whose content rating is one of the allowed ones.
- It collects each kept show's episodes into a title-to-episodes map, skipping shows whose
  episode fetch fails or returns nothing.
- It deals the episodes out round-robin. Each pass over the still-active shows, in ascending
  title order, is one week. Each show gives its next episode, or leaves the active set once it
  has none left. Non-empty weeks are stored under a `(year, week)` key, and the week counter
  rolls over into a new year after `weeks_per_year` weeks.
- It turns every stored week into a playlist titled `{prefix} - Year {year} Week {week:02d}`.
  A playlist of the same title is deleted first. A create that fails is skipped.

Around these sit the workflow that runs them and reports statistics, and the prefix-based
summary and deletion of playlists.

Files, one module each:

- `catalog.dfy`: episodes, shows, assignment records, stored weeks (`Bucket`) and playlists.
- `title_order.dfy`: Python's string `<` and `sorted()` of a set of titles.
- `show_selection.dfy`: `get_filtered_shows` and `get_all_episodes`.
- `week_distributor.dfy`: `distribute_episodes_to_weeks`. The method is proved equal to a
  reference function `Distribution`, which stores global week `g` (for `g` = 1 up to the
  largest episode count) under the loop's counters.
- `distribution_facts.dfy`: what the distribution promises. It covers the contents of each
  week, that no week is empty, conservation and order of each show's episodes, the episode
  total, and the `(year, week)` keys and years.
- `playlist_titles.dfy`: the title format, and a parser that reads back `(year, week)`.
- `materialiser.dfy`: `create_plex_playlists`.
- `workflow.dfy`: `generate_all_playlists`, `get_playlist_summary` and `delete_all_playlists`.

Behaviour of the code that the model keeps as it is:

- A week's records are in ascending show-title order. Episodes are neither deduplicated nor
  sorted by date, and the report carries no duration or per-rating statistics.
- For `weeks_per_year <= 0` the value is not rejected. Every week rolls over, so each year
  holds exactly one week, as with a value of 1 (`DistributionFacts.NonPositiveWeeksPerYear`).
- A failed delete of an existing playlist is ignored, and the new playlist is created next to
  the old one.
- The distributor starts with every key of the map active, including shows with an empty list.
  The collection step never stores such a show, but the model of the distributor allows it.

## Model

| member | source | states |
|---|---|---|
| TitleOrder.LessIsStrictOrder | playlist_generator.py:110 | the string order `sorted()` uses is irreflexive and asymmetric |
| TitleOrder.LessTransitive | playlist_generator.py:110 | the string order is transitive |
| TitleOrder.LessTotal | playlist_generator.py:110 | any two different titles are ordered one way or the other |
| TitleOrder.SortedTitles | playlist_generator.py:110 | `sorted(active_shows)` is strictly ascending and holds exactly the titles of the set, each once |
| TitleOrder.SortedUnique | playlist_generator.py:110 | two strictly ascending lists with the same titles are equal, so the visiting order depends only on the set |
| ShowSelection.FilterByRating | playlist_generator.py:39-51 | each show with an allowed rating is kept as often as it occurs, no other show is kept, and the input order is kept (subsequence) |
| ShowSelection.GetFilteredShows | playlist_generator.py:26-51 | the loop returns exactly `FilterByRating` of the section's shows |
| ShowSelection.CollectEpisodes | playlist_generator.py:63-78 | a title is a key exactly when some show of that title had a successful, non-empty fetch; no stored list is empty |
| ShowSelection.CollectEpisodesLastWins | playlist_generator.py:66-69 | the list stored under a title is the one from the last show of that title whose fetch gave episodes |
| ShowSelection.GetAllEpisodes | playlist_generator.py:53-78 | the loop returns exactly `CollectEpisodes` of the shows; failed or empty fetches are skipped without stopping |
| WeekDistributor.YearWeekRoundTrip | playlist_generator.py:132-140 | for global week g the stored week lies in 1..W, the year is at least 1, and (year, week) gives back g |
| WeekDistributor.NextWeek | playlist_generator.py:132-140 | from one global week to the next, the div/mod key either advances the week or rolls over to week 1 of the next year, as the loop does |
| WeekDistributor.CountersAreYearWeek | playlist_generator.py:132-140 | the counters the loop keeps in pass g equal year (g-1) div W + 1 and week (g-1) mod W + 1 for the effective W |
| WeekDistributor.Keep | playlist_generator.py:114-126 | the titles still holding episode g-1 are kept, and ascending order is preserved |
| WeekDistributor.Emit | playlist_generator.py:115-122 | one record per kept title, in order: the title and its episode g-1 with season, number and title copied |
| WeekDistributor.WeekRecordsIsEmitKeep | playlist_generator.py:110-126 | one pass over the titles equals emitting the records of the titles kept |
| WeekDistributor.PassOverActive | playlist_generator.py:110 | visiting only the still-active shows gives the same week as visiting all shows |
| WeekDistributor.WeekEmptyIffExhausted | playlist_generator.py:128 | week g is empty exactly when no show has more than g-1 episodes |
| WeekDistributor.VisitTitles | playlist_generator.py:110-126 | the inner loop emits the records of the pass; each title with an episode left advances its cursor, and a title without one leaves the active set |
| WeekDistributor.PassComplete | playlist_generator.py:110-126 | after pass g every cursor stands at min(len, g), the active shows are those with at least g episodes, and the records are week g's contents |
| WeekDistributor.DistributePass | playlist_generator.py:108-126 | one pass over `sorted(active_shows)` produces week g's contents and moves the cursors and active set from pass g-1 to pass g |
| WeekDistributor.LoopStart | playlist_generator.py:95-104 | zero cursors, all shows active and nothing stored is the state before the first pass |
| WeekDistributor.StoreWeek | playlist_generator.py:128-129 | a non-empty week occurs only while g <= the largest episode count, and storing it under the counters extends the reference distribution by one week |
| WeekDistributor.SkipWeek | playlist_generator.py:128 | an empty week with shows still active happens only in the pass after the last episode and stores nothing |
| WeekDistributor.LoopEnd | playlist_generator.py:106 | once no show is active, the stored weeks are the reference distribution after (largest count + 1) passes, or none for no shows |
| WeekDistributor.DistributeWeek | playlist_generator.py:107-140 | one loop iteration: the stored state moves to the next pass, the counters advance with rollover, and the loop stops early only when no show is active |
| WeekDistributor.DistributeEpisodesToWeeks | playlist_generator.py:80-143 | the result is `Distribution`; the loop runs (largest episode count + 1) passes, or none for no shows |
| WeekDistributor.MaxEpisodes | playlist_generator.py:106 | the largest episode count: no show has more, some show has exactly that many, and it is 0 for no shows |
| DistributionFacts.WeekIsEmitKeep | playlist_generator.py:110-126 | week g holds one record per show with more than g-1 episodes, in ascending title order |
| DistributionFacts.WeekRecordsAreEpisodes | playlist_generator.py:115-122 | every record of week g is episode g-1 of a show that has it, copied field by field |
| DistributionFacts.WeekSortedByShow | playlist_generator.py:110 | the records of a week are in strictly ascending show order, so no show appears twice in a week |
| DistributionFacts.WeekCoversShows | playlist_generator.py:114-123 | every show with more than g-1 episodes contributes its episode g-1 to week g |
| DistributionFacts.NoEmptyWeekStored | playlist_generator.py:128-129 | exactly the largest episode count of weeks is stored, and stored week i+1 is global week i+1 and is never empty |
| DistributionFacts.EmitEpisodesFor | playlist_generator.py:114-123 | among distinct kept titles a show gets exactly its episode g-1 when it is one of them, else nothing |
| DistributionFacts.WeekEpisodesFor | playlist_generator.py:114-123 | week g holds exactly episode g-1 of a show that has one, and nothing of any other |
| DistributionFacts.StoredWeekEpisodesFor | playlist_generator.py:112-123 | stored week i+1 holds episode i of a show while it lasts, and nothing of it afterwards |
| DistributionFacts.StoredWeekNoStranger | playlist_generator.py:110-126 | a title that is not a show never appears in a stored week |
| DistributionFacts.Conservation | playlist_generator.py:95-129 | a show's records across the stored weeks, in stored order, are exactly its episode list: each episode is scheduled once, in order |
| DistributionFacts.TotalConservation | playlist_generator.py:259-263 | the number of stored records, the `total_episodes` statistic, is the sum of the shows' episode counts |
| DistributionFacts.StoredCounters | playlist_generator.py:128-140 | stored week i+1 sits under the counters of pass i+1 |
| DistributionFacts.StoredKeys | playlist_generator.py:132-140 | stored week i+1 sits under year i div W + 1 and week i mod W + 1 for the effective W |
| DistributionFacts.StoredWeekInRange | playlist_generator.py:135-140 | every stored week number lies in 1..W and its (year, week) key gives back its global week |
| DistributionFacts.CountersAscending | playlist_generator.py:132-140 | a later pass has a strictly later (year, week) key |
| DistributionFacts.KeysAscending | playlist_generator.py:129 | the stored weeks come in strictly ascending (year, week) order, so keys never repeat and year-then-week iteration visits them as stored |
| DistributionFacts.CounterYears | playlist_generator.py:139 | the counters skip no year: passes 1..k reach exactly the years 1..year of pass k |
| DistributionFacts.YearsGenerated | playlist_generator.py:278 | the number of distinct years stored is (largest count - 1) div W + 1, or 0 when no show has episodes |
| DistributionFacts.CountersOneWeekPerYear | playlist_generator.py:135-140 | with W <= 1 every pass g is week 1 of year g |
| DistributionFacts.NonPositiveWeeksPerYear | playlist_generator.py:135-140 | W <= 0 gives the same distribution as W = 1, every stored week i+1 being week 1 of year i+1 |
| PlaylistTitles.Decimal | playlist_generator.py:168 | `str(year)`: a non-empty digit string with value year and no leading zero |
| PlaylistTitles.Pad2 | playlist_generator.py:168 | `{week:02d}`: a digit string with value week, exactly two digits below 10 and no leading zero from 10 on |
| PlaylistTitles.ParseYearWeekRoundTrip | playlist_generator.py:168 | the year digits, " Week " and the padded week parse back to (year, week) |
| PlaylistTitles.TitleRoundTrip | playlist_generator.py:168 | parsing a generated title gives back its year and week |
| PlaylistTitles.TitleInjective | playlist_generator.py:168 | different (year, week) keys give different titles under the same prefix |
| PlaylistTitles.TitleHasPrefix | playlist_generator.py:168 | every generated title starts with the prefix |
| Materialiser.ItemsOf | playlist_generator.py:165 | a playlist's items are the week's episodes in the week's stored order |
| Materialiser.FindTitle | playlist_generator.py:173 | the lookup finds the first playlist with the title, or reports none |
| Materialiser.RemoveExisting | playlist_generator.py:171-178 | when the lookup finds a playlist and its delete succeeds, exactly that one playlist is removed and the rest keep their order; otherwise the server is unchanged |
| Materialiser.CreatePlexPlaylists | playlist_generator.py:145-195 | the loop's created list and final server are those of `Materialise`, week by week in stored order |
| Materialiser.Accepted | playlist_generator.py:159-190 | the weeks that give a playlist: every non-empty week whose create succeeds, as often as it occurs, no other week, in input order (subsequence) |
| Materialiser.CreatedAreAccepted | playlist_generator.py:159-193 | the created playlists are exactly those of the accepted weeks, in order: empty weeks and failed creates are skipped and later weeks still go ahead |
| Materialiser.CreatedHavePrefix | playlist_generator.py:168 | every created playlist's title starts with the prefix |
| Materialiser.OthersKept | playlist_generator.py:171-178 | a playlist whose title lacks the prefix is never deleted |
| Materialiser.DistinctKeysDistinctTitles | playlist_generator.py:168 | weeks with distinct (year, week) keys have distinct titles |
| Materialiser.UnusedNotCreated | playlist_generator.py:181-189 | a title that no week has is never created |
| Materialiser.CreatedPresent | playlist_generator.py:171-189 | with distinct titles, no later week deletes an earlier week's playlist, so every created playlist is on the server at the end |
| Workflow.ListRepr | playlist_generator.py:232 | the list is written between brackets, an empty list as `[]` and a single item as `['item']` |
| Workflow.ListReprAppend | playlist_generator.py:232 | appending an item writes it in single quotes before the closing bracket, after a ", " separator unless it is the first |
| Workflow.GenerateAllPlaylists | playlist_generator.py:197-288 | the method's report and final server are those of `Generate`, over the steps' own methods |
| Workflow.FilteredEmptyIff | playlist_generator.py:226-233 | no show is kept exactly when no show of the section has an allowed rating |
| Workflow.CollectedEmptyIff | playlist_generator.py:237-244 | the episode map is empty exactly when no allowed show had a successful, non-empty fetch |
| Workflow.GenerateFailures | playlist_generator.py:220-288 | a missing section reports its own error, no allowed show reports the ratings, no episodes reports so, and a failure changes no playlist |
| Workflow.GenerateSucceedsIff | playlist_generator.py:220-281 | a run succeeds exactly when the section is found and some allowed show has episodes |
| Workflow.GenerateCounts | playlist_generator.py:259-277 | a successful report counts the kept shows (at least one), lists their titles in order, and totals exactly the selected shows' episodes |
| Workflow.GenerateYears | playlist_generator.py:278 | `years_generated` is the year of the last stored week, at least 1 |
| Workflow.DistributionTitlesDistinct | playlist_generator.py:168 | the stored weeks' playlist titles are pairwise different |
| Workflow.FirstTitles | playlist_generator.py:280 | the titles of the first k of a list of prefixed playlists on the server are prefixed and on the server |
| Workflow.FirstCreatedPresent | playlist_generator.py:253-280 | with distinct titles, at most one playlist per week is created, and the first ten carry the prefix and remain on the server |
| Workflow.GeneratePlaylists | playlist_generator.py:279-280 | at most one playlist per stored week is created, at most ten are named, and each named one has the prefix and is on the server |
| Workflow.GenerateKeepsOthers | playlist_generator.py:253-256 | a run never deletes a playlist whose title lacks the prefix |
| Workflow.MatchingPlaylists | playlist_generator.py:303 | the server's playlists whose titles start with the prefix, each as often as the server lists it, no other, in the server's order (subsequence) |
| Workflow.MatchingTitles | playlist_generator.py:303-318 | the titles of the matching playlists are the server's titles that start with the prefix, with the server's multiplicities and order |
| Workflow.GetPlaylistSummary | playlist_generator.py:290-324 | a listing error is reported; otherwise the titles are those of the server starting with the prefix, each as often as listed, in the server's order, and `total_playlists` is their number |
| Workflow.SummaryAfterGenerate | playlist_generator.py:303 | right after a successful run, a summary under the same prefix lists every playlist the run named |
| Workflow.Deletable | playlist_generator.py:343-349 | the playlists whose delete succeeds, each as often as it occurs, no other, in order (subsequence) |
| Workflow.SuccessCountIsDeletable | playlist_generator.py:342-349 | counting the successful deletes one playlist at a time gives the number of deletable playlists |
| Workflow.Surviving | playlist_generator.py:343-349 | a playlist survives exactly when it lacks the prefix or its delete fails |
| Workflow.DeletedPlusSurviving | playlist_generator.py:343-356 | every playlist on the server is either deleted or survives, never both |
| Workflow.DeleteAllPlaylists | playlist_generator.py:326-363 | a listing error is reported; otherwise `deleted_count` is the number of matching playlists whose delete succeeds and `total_found` the number matching |
| Workflow.DeleteCounts | playlist_generator.py:339-356 | `deleted_count <= total_found`, with equality when every delete succeeds; the server keeps all but the deleted ones |
| Workflow.DeletableAll | playlist_generator.py:343-346 | when every delete succeeds, every matching playlist is deleted |
| Workflow.NoneMatching | playlist_generator.py:303 | with no title under the prefix, nothing matches |
| Workflow.SummaryAfterDelete | playlist_generator.py:339-346 | once every delete under the prefix succeeds, a summary under the prefix finds nothing |

## Left out

- Logging: every `logger` call, including the final "Created {year} years" message at
  playlist_generator.py:142. It reports the year counter, which can exceed the number of
  stored years.
- The Plex API is replaced by values and functions given as inputs:
  - The section lookup and its show listing are a `Result` that either holds the shows or
    the error text of the exception raised.
  - Each show carries the outcome of its `episodes()` fetch.
  - The server's playlists are a sequence.
  - A delete succeeds or fails as a function of the playlist, and a create as a function of
    the title. The same request always gets the same answer.
  - A failed playlist listing in the summary and in the delete is an optional error text.
- The constructor's check that a server connection exists (playlist_generator.py:15-24)
  belongs to the connection layer, and plex_connection.py is not part of this model.
- The nested `{year: {week: [...]}}` dictionary is a flat sequence of `(year, week, records)`
  in insertion order. `DistributionFacts.KeysAscending` shows the keys strictly ascend, so
  this sequence is the order in which `create_plex_playlists` walks the nested dictionary.
  `DistributionFacts.YearsOf` gives its outer keys.
- Playlists are values. Two playlists on the server with the same title and the same items
  cannot be told apart.
- `self.plex.playlist(title)` is modelled as the first playlist of that title in the server's
  listing. Which one the real server returns among several of the same title is the server's
  choice.
- Workflow.ListRepr: strings are always written in single quotes, without the escaping
  Python's `repr` applies to quotes and backslashes.
- Workflow.GetPlaylistSummary: the `item_count` and `duration` fields are read from the server
  and are left out; only the titles and their count are modelled.
- Workflow.DeleteAllPlaylists: the method reports the counts, and the server left behind is
  stated by the function `Surviving` rather than updated inside the loop.
- Workflow.GenerateAllPlaylists: of the exceptions the outer `try` can catch, only those of
  the section lookup and the show listing are modelled. Exceptions raised inside filtering,
  distribution and the statistics are not modelled.
- Materialiser.Step puts a newly created playlist at the end of the server's listing. Where it
  really appears in `plex.playlists()` is the server's choice.
- Default argument values (the prefix "Saturday Morning" and 52 weeks per year) are not
  modelled: every operation takes all its arguments.
- The running `total_episodes` in `get_all_episodes` is only logged, so it is left out.
- `MaxEpisodes` and `Distribution` are ghost reference definitions. The executable path is
  `DistributeEpisodesToWeeks`.

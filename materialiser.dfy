/**
 * Turning the stored weeks into playlists on the server: each non-empty week becomes a
 * playlist titled after its (year, week); an existing playlist of that title is deleted
 * first, and a create the server refuses is skipped while the later weeks still go ahead.
 */
module Materialiser {
  import opened Catalog
  import opened PlaylistTitles

  /** The server's playlists, in the order the server lists them. */
  type Server = seq<Playlist>

  /**
   * How the server answers: whether deleting a given playlist succeeds, and whether creating
   * a playlist of a given title succeeds.
   */
  datatype Responses = Responses(deleteOk: Playlist -> bool, createOk: string -> bool)

  /** What materialising gives: the playlists created, in order, and the server afterwards. */
  datatype Outcome = Outcome(created: seq<Playlist>, server: Server)

  /** The episodes of the records, in the records' order: a playlist's items. */
  function ItemsOf(records: seq<Record>): (items: seq<Episode>)
    ensures |items| == |records|
    ensures forall i | 0 <= i < |records| :: items[i] == records[i].episode
  {
    seq(|records|, i requires 0 <= i < |records| => records[i].episode)
  }

  /** The title of a week's playlist. */
  function BucketTitle(prefix: string, b: Bucket): string
  {
    PlaylistTitle(prefix, b.year, b.week)
  }

  /** The position of the first playlist titled `title`, or |server| when there is none. */
  function FindTitle(server: Server, title: string): (i: nat)
    ensures i <= |server|
    ensures i < |server| ==> server[i].title == title
    ensures forall j | 0 <= j < i :: server[j].title != title
    decreases |server|
  {
    if server == [] then 0
    else if server[0].title == title then 0
    else 1 + FindTitle(server[1..], title)
  }

  /**
   * The server once the playlist that a lookup of `title` finds, if any, has been asked to be
   * deleted; a refused delete leaves the server as it was.
   */
  function RemoveExisting(server: Server, title: string, deleteOk: Playlist -> bool): (r: Server)
    ensures forall p | p in server && p.title != title :: p in r
    ensures forall p | p in r :: p in server
    ensures var i := FindTitle(server, title);
            if i < |server| && deleteOk(server[i])
            then |r| == |server| - 1 && multiset(r) == multiset(server) - multiset{server[i]}
            else r == server
    ensures IsSubsequence(r, server)
  {
    var i := FindTitle(server, title);
    if i < |server| && deleteOk(server[i]) then
      assert server == server[..i] + [server[i]] + server[i + 1..];
      RemoveAtSubsequence(server, i);
      server[..i] + server[i + 1..]
    else
      SubsequenceRefl(server);
      server
  }

  /**
   * One week: nothing when it is empty; otherwise the existing playlist of its title is
   * deleted, and the new playlist is created when the server accepts it.
   */
  function Step(o: Outcome, b: Bucket, prefix: string, ok: Responses): Outcome
  {
    if b.records == [] then o
    else
      var title := BucketTitle(prefix, b);
      var cleared := RemoveExisting(o.server, title, ok.deleteOk);
      if ok.createOk(title) then
        var p := Playlist(title, ItemsOf(b.records));
        Outcome(o.created + [p], cleared + [p])
      else Outcome(o.created, cleared)
  }

  /** The weeks materialised one after the other, starting from `server`. */
  function Materialise(buckets: seq<Bucket>, prefix: string, server: Server, ok: Responses): Outcome
    decreases |buckets|
  {
    if buckets == [] then Outcome([], server)
    else Step(Materialise(buckets[..|buckets| - 1], prefix, server, ok), buckets[|buckets| - 1], prefix, ok)
  }

  /**
   * create_plex_playlists: one pass over the weeks in stored order, deleting and creating
   * playlists on the server.
   */
  method CreatePlexPlaylists(buckets: seq<Bucket>, prefix: string, server: Server, ok: Responses)
      returns (created: seq<Playlist>, serverAfter: Server)
    ensures Outcome(created, serverAfter) == Materialise(buckets, prefix, server, ok)
  {
    created, serverAfter := [], server;
    var k := 0;
    while k < |buckets|
      invariant 0 <= k <= |buckets|
      invariant Outcome(created, serverAfter) == Materialise(buckets[..k], prefix, server, ok)
    {
      var b := buckets[k];
      assert buckets[..k + 1][..k] == buckets[..k];
      if b.records != [] {
        var episodes := ItemsOf(b.records);
        var playlistTitle := PlaylistTitle(prefix, b.year, b.week);
        ghost var before := serverAfter;
        var existing := FindTitle(serverAfter, playlistTitle);
        if existing < |serverAfter| && ok.deleteOk(serverAfter[existing]) {
          serverAfter := serverAfter[..existing] + serverAfter[existing + 1..];
        }
        assert serverAfter == RemoveExisting(before, playlistTitle, ok.deleteOk);
        if ok.createOk(playlistTitle) {
          var playlist := Playlist(playlistTitle, episodes);
          serverAfter := serverAfter + [playlist];
          created := created + [playlist];
        }
      }
      k := k + 1;
    }
    assert buckets[..k] == buckets;
  }

  /** The weeks that give a playlist: non-empty, and accepted by the server, in order. */
  function Accepted(buckets: seq<Bucket>, prefix: string, ok: Responses): (r: seq<Bucket>)
    ensures forall b :: multiset(r)[b] ==
              if b.records != [] && ok.createOk(BucketTitle(prefix, b)) then multiset(buckets)[b] else 0
    ensures forall b :: b in r <==> b in buckets && b.records != [] && ok.createOk(BucketTitle(prefix, b))
    ensures IsSubsequence(r, buckets)
    decreases |buckets|
  {
    if buckets == [] then []
    else
      var init, b := buckets[..|buckets| - 1], buckets[|buckets| - 1];
      var rest := Accepted(init, prefix, ok);
      FilterAppend(init, b, rest, (c: Bucket) => c.records != [] && ok.createOk(BucketTitle(prefix, c)));
      assert buckets == init + [b];
      if b.records != [] && ok.createOk(BucketTitle(prefix, b)) then rest + [b] else rest
  }

  /** The playlist made from a week. */
  function PlaylistOf(prefix: string, b: Bucket): Playlist
  {
    Playlist(BucketTitle(prefix, b), ItemsOf(b.records))
  }

  /** The playlists made from the weeks, one each, in order. */
  function PlaylistsOf(prefix: string, buckets: seq<Bucket>): (r: seq<Playlist>)
    ensures |r| == |buckets|
    decreases |buckets|
  {
    if buckets == [] then []
    else PlaylistsOf(prefix, buckets[..|buckets| - 1]) + [PlaylistOf(prefix, buckets[|buckets| - 1])]
  }

  lemma PlaylistsOfAppend(prefix: string, buckets: seq<Bucket>, b: Bucket)
    ensures PlaylistsOf(prefix, buckets + [b]) == PlaylistsOf(prefix, buckets) + [PlaylistOf(prefix, b)]
  {
    assert (buckets + [b])[..|buckets|] == buckets;
  }

  /** One more week adds its playlist to the created ones exactly when it is non-empty and accepted. */
  lemma CreatedStep(buckets: seq<Bucket>, prefix: string, server: Server, ok: Responses)
    requires buckets != []
    ensures var b := buckets[|buckets| - 1];
            Materialise(buckets, prefix, server, ok).created
              == Materialise(buckets[..|buckets| - 1], prefix, server, ok).created
                 + (if b.records != [] && ok.createOk(BucketTitle(prefix, b)) then [PlaylistOf(prefix, b)] else [])
  {
  }

  /**
   * The created playlists are those of the accepted weeks, one each, in the weeks' order:
   * an empty week or a refused create gives nothing and does not stop the later weeks.
   */
  lemma {:induction false} CreatedAreAccepted(buckets: seq<Bucket>, prefix: string, server: Server,
                                              ok: Responses)
    ensures Materialise(buckets, prefix, server, ok).created == PlaylistsOf(prefix, Accepted(buckets, prefix, ok))
    decreases |buckets|
  {
    if buckets != [] {
      var init, b := buckets[..|buckets| - 1], buckets[|buckets| - 1];
      CreatedAreAccepted(init, prefix, server, ok);
      CreatedStep(buckets, prefix, server, ok);
      PlaylistsOfAppend(prefix, Accepted(init, prefix, ok), b);
    }
  }

  lemma {:induction false} PlaylistsOfAt(prefix: string, buckets: seq<Bucket>, i: nat)
    requires i < |buckets|
    ensures PlaylistsOf(prefix, buckets)[i] == PlaylistOf(prefix, buckets[i])
    decreases |buckets|
  {
    if i < |buckets| - 1 {
      PlaylistsOfAt(prefix, buckets[..|buckets| - 1], i);
    }
  }

  /** Every created playlist's title starts with the prefix. */
  lemma CreatedHavePrefix(buckets: seq<Bucket>, prefix: string, server: Server, ok: Responses)
    ensures forall p | p in Materialise(buckets, prefix, server, ok).created :: StartsWith(p.title, prefix)
  {
    var created := Materialise(buckets, prefix, server, ok).created;
    var accepted := Accepted(buckets, prefix, ok);
    CreatedAreAccepted(buckets, prefix, server, ok);
    forall p | p in created
      ensures StartsWith(p.title, prefix)
    {
      var i :| 0 <= i < |created| && created[i] == p;
      PlaylistsOfAt(prefix, accepted, i);
      TitleHasPrefix(prefix, accepted[i].year, accepted[i].week);
    }
  }

  /** A playlist whose title does not start with the prefix is never deleted. */
  lemma {:induction false} OthersKept(buckets: seq<Bucket>, prefix: string, server: Server, ok: Responses)
    ensures forall p | p in server && !StartsWith(p.title, prefix) :: p in Materialise(buckets, prefix, server, ok).server
    decreases |buckets|
  {
    if buckets != [] {
      var b := buckets[|buckets| - 1];
      OthersKept(buckets[..|buckets| - 1], prefix, server, ok);
      TitleHasPrefix(prefix, b.year, b.week);
    }
  }

  /** The titles of the weeks are pairwise distinct. */
  predicate DistinctTitles(buckets: seq<Bucket>, prefix: string)
  {
    forall i, j | 0 <= i < j < |buckets| :: BucketTitle(prefix, buckets[i]) != BucketTitle(prefix, buckets[j])
  }

  /** Weeks with distinct (year, week) keys have distinct titles. */
  lemma DistinctKeysDistinctTitles(buckets: seq<Bucket>, prefix: string)
    requires forall i, j | 0 <= i < j < |buckets| ::
               buckets[i].year != buckets[j].year || buckets[i].week != buckets[j].week
    ensures DistinctTitles(buckets, prefix)
  {
    forall i, j | 0 <= i < j < |buckets|
      ensures BucketTitle(prefix, buckets[i]) != BucketTitle(prefix, buckets[j])
    {
      if BucketTitle(prefix, buckets[i]) == BucketTitle(prefix, buckets[j]) {
        TitleInjective(prefix, buckets[i].year, buckets[i].week, buckets[j].year, buckets[j].week);
      }
    }
  }

  /** No week of `buckets` is titled `title`. */
  predicate TitleUnused(buckets: seq<Bucket>, prefix: string, title: string)
  {
    forall i | 0 <= i < |buckets| :: BucketTitle(prefix, buckets[i]) != title
  }

  /** Only the weeks' own titles are created: a title no week has is never created. */
  lemma {:induction false} UnusedNotCreated(buckets: seq<Bucket>, prefix: string, server: Server,
                                            ok: Responses, title: string)
    requires TitleUnused(buckets, prefix, title)
    ensures forall p | p in Materialise(buckets, prefix, server, ok).created :: p.title != title
    decreases |buckets|
  {
    if buckets != [] {
      var init := buckets[..|buckets| - 1];
      assert TitleUnused(init, prefix, title) by {
        forall i | 0 <= i < |init|
          ensures BucketTitle(prefix, init[i]) != title
        {
          assert init[i] == buckets[i];
        }
      }
      UnusedNotCreated(init, prefix, server, ok, title);
    }
  }

  /**
   * With distinct titles, no later week deletes a playlist created for an earlier one, so
   * every created playlist is on the server at the end.
   */
  lemma {:induction false} CreatedPresent(buckets: seq<Bucket>, prefix: string, server: Server, ok: Responses)
    requires DistinctTitles(buckets, prefix)
    ensures forall p | p in Materialise(buckets, prefix, server, ok).created ::
              p in Materialise(buckets, prefix, server, ok).server
    decreases |buckets|
  {
    if buckets != [] {
      var init, b := buckets[..|buckets| - 1], buckets[|buckets| - 1];
      assert DistinctTitles(init, prefix) by {
        forall i, j | 0 <= i < j < |init|
          ensures BucketTitle(prefix, init[i]) != BucketTitle(prefix, init[j])
        {
          assert init[i] == buckets[i] && init[j] == buckets[j];
        }
      }
      assert TitleUnused(init, prefix, BucketTitle(prefix, b)) by {
        forall i | 0 <= i < |init|
          ensures BucketTitle(prefix, init[i]) != BucketTitle(prefix, b)
        {
          assert init[i] == buckets[i];
        }
      }
      CreatedPresent(init, prefix, server, ok);
      UnusedNotCreated(init, prefix, server, ok, BucketTitle(prefix, b));
    }
  }
}

/** Values exchanged between the playlist generator and the media server. */
module Catalog {

  datatype Option<T> = None | Some(value: T)

  /** What a server call gave back: a value, or the text of the exception it raised. */
  datatype Result<T> = Ok(value: T) | Err(message: string)

  /** An episode as the server describes it: season number, episode number and display title. */
  datatype Episode = Episode(parentIndex: int, index: int, title: string)

  /**
   * A show of the TV section. `contentRating` is absent when the server has none;
   * `episodes` is what asking the server for the show's episodes gives back.
   */
  datatype Show = Show(title: string, contentRating: Option<string>, episodes: Result<seq<Episode>>)

  /** One assignment of an episode to a week, with the fields copied out of the episode. */
  datatype Record = Record(show: string, episode: Episode, season: int, episodeNum: int, title: string)

  function MakeRecord(show: string, e: Episode): Record
  {
    Record(show, e, e.parentIndex, e.index, e.title)
  }

  /** The records stored under one (year, week) key of the yearly distribution. */
  datatype Bucket = Bucket(year: nat, week: nat, records: seq<Record>)

  /** A playlist on the server: its title and its items in order. */
  datatype Playlist = Playlist(title: string, items: seq<Episode>)

  function Min(a: int, b: int): int
  {
    if a <= b then a else b
  }

  /** `a` can be obtained from `b` by deleting elements, keeping the order of the rest. */
  ghost predicate IsSubsequence<T>(a: seq<T>, b: seq<T>)
    decreases |b|
  {
    |a| <= |b| &&
    (a == [] ||
     (b != [] &&
      ((a[|a| - 1] == b[|b| - 1] && IsSubsequence(a[..|a| - 1], b[..|b| - 1])) ||
       IsSubsequence(a, b[..|b| - 1]))))
  }

  /** Keeping or dropping one more element extends a subsequence of `b` to one of `b + [x]`. */
  lemma SubsequenceStep<T>(a: seq<T>, b: seq<T>, x: T, keep: bool)
    requires IsSubsequence(a, b)
    ensures IsSubsequence(a + (if keep then [x] else []), b + [x])
  {
    assert (b + [x])[..|b|] == b;
    assert |a| <= |b|;
    if keep {
      assert (a + [x])[..|a|] == a;
    } else {
      var bx := b + [x];
      assert bx[..|bx| - 1] == b;
      assert IsSubsequence(a, bx[..|bx| - 1]);
      assert IsSubsequence(a, bx);
      assert a + [] == a;
    }
  }

  /**
   * `rest` keeps, in order, every element of `init` that satisfies `keep`, as often as it
   * occurs there, and nothing else; then so does `rest` extended by `last` when `last` is kept.
   */
  lemma FilterAppend<T>(init: seq<T>, last: T, rest: seq<T>, keep: T -> bool)
    requires forall x :: multiset(rest)[x] == if keep(x) then multiset(init)[x] else 0
    requires IsSubsequence(rest, init)
    ensures var r := rest + (if keep(last) then [last] else []);
      && (forall x :: multiset(r)[x] == if keep(x) then multiset(init + [last])[x] else 0)
      && (forall x :: x in r <==> x in init + [last] && keep(x))
      && IsSubsequence(r, init + [last])
  {
    var r := rest + (if keep(last) then [last] else []);
    SubsequenceStep(rest, init, last, keep(last));
    assert multiset(init + [last]) == multiset(init) + multiset{last};
    assert multiset(r) == multiset(rest) + if keep(last) then multiset{last} else multiset{};
    forall x
      ensures x in r <==> x in init + [last] && keep(x)
    {
      assert x in r <==> multiset(r)[x] > 0;
      assert x in init + [last] <==> multiset(init + [last])[x] > 0;
    }
  }

  lemma {:induction false} SubsequenceRefl<T>(s: seq<T>)
    ensures IsSubsequence(s, s)
    decreases |s|
  {
    if s != [] {
      SubsequenceRefl(s[..|s| - 1]);
    }
  }

  /** Dropping the element at position i leaves a subsequence. */
  lemma {:induction false} RemoveAtSubsequence<T>(s: seq<T>, i: nat)
    requires i < |s|
    ensures IsSubsequence(s[..i] + s[i + 1..], s)
    decreases |s|
  {
    var r := s[..i] + s[i + 1..];
    if i == |s| - 1 {
      assert r == s[..|s| - 1];
      SubsequenceRefl(r);
    } else {
      var t := s[..|s| - 1];
      RemoveAtSubsequence(t, i);
      assert t[..i] + t[i + 1..] == r[..|r| - 1];
      assert r[|r| - 1] == s[|s| - 1];
    }
  }

  /** `r` is `s` with exactly the elements that fail `keep` deleted, as `FilterAppend` states it. */
  ghost predicate IsFilter<T(!new)>(r: seq<T>, s: seq<T>, keep: T -> bool)
  {
    && (forall x :: multiset(r)[x] == if keep(x) then multiset(s)[x] else 0)
    && (forall x :: x in r <==> x in s && keep(x))
    && IsSubsequence(r, s)
  }

  /** `FilterAppend` for the packaged form. */
  lemma FilterAppendIs<T(!new)>(init: seq<T>, last: T, rest: seq<T>, keep: T -> bool)
    requires IsFilter(rest, init, keep)
    ensures IsFilter(rest + (if keep(last) then [last] else []), init + [last], keep)
  {
    FilterAppend(init, last, rest, keep);
  }
}

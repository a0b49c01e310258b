/**
 * Playlist titles: `{prefix} - Year {year} Week {week:02d}`, decimal numbers with the week
 * zero-padded to two digits, and a parser that recovers (year, week) from a title.
 */
module PlaylistTitles {
  import opened Catalog

  predicate IsDigit(c: char)
  {
    '0' <= c <= '9'
  }

  predicate AllDigits(s: string)
  {
    forall i | 0 <= i < |s| :: IsDigit(s[i])
  }

  function DigitChar(d: nat): (c: char)
    requires d < 10
    ensures IsDigit(c)
  {
    ['0', '1', '2', '3', '4', '5', '6', '7', '8', '9'][d]
  }

  function DigitValue(c: char): (d: nat)
    requires IsDigit(c)
    ensures d < 10
  {
    (c as int - '0' as int) as nat
  }

  lemma DigitRoundTrip(d: nat)
    requires d < 10
    ensures DigitValue(DigitChar(d)) == d
  {
  }

  /** The number an all-digit string spells in base 10 (leading zeros allowed). */
  function DigitsValue(s: string): nat
    requires AllDigits(s)
    decreases |s|
  {
    if s == [] then 0
    else DigitsValue(s[..|s| - 1]) * 10 + DigitValue(s[|s| - 1])
  }

  /** `str(n)`: the decimal digits of `n`, without leading zeros. */
  function Decimal(n: nat): (s: string)
    ensures s != [] && AllDigits(s)
    ensures DigitsValue(s) == n
    ensures n > 0 ==> s[0] != '0'
    decreases n
  {
    if n < 10 then
      DigitRoundTrip(n);
      [DigitChar(n)]
    else
      var init := Decimal(n / 10);
      var s := init + [DigitChar(n % 10)];
      DigitRoundTrip(n % 10);
      assert s[..|s| - 1] == init;
      s
  }

  /** `f"{n:02d}"`: the decimal digits of `n`, with a leading zero below 10. */
  function Pad2(n: nat): (s: string)
    ensures |s| >= 2 && AllDigits(s)
    ensures DigitsValue(s) == n
    ensures n < 10 ==> |s| == 2
    ensures n >= 10 ==> s[0] != '0'
  {
    if n < 10 then
      var s := ['0'] + Decimal(n);
      assert s[..|s| - 1] == ['0'];
      s
    else Decimal(n)
  }

  /** What follows the prefix in a playlist title. */
  function TitleSuffix(year: nat, week: nat): string
  {
    " - Year " + Decimal(year) + " Week " + Pad2(week)
  }

  /** The title of the playlist of week `week` of year `year`. */
  function PlaylistTitle(prefix: string, year: nat, week: nat): string
  {
    prefix + TitleSuffix(year, week)
  }

  /** `s.startswith(prefix)`. */
  predicate StartsWith(s: string, prefix: string)
  {
    |prefix| <= |s| && s[..|prefix|] == prefix
  }

  lemma StartsWithConcat(a: string, b: string)
    ensures StartsWith(a + b, a) && (a + b)[|a|..] == b
  {
    assert (a + b)[..|a|] == a;
  }

  /** The length of the longest all-digit prefix of `s`. */
  function DigitRun(s: string): (k: nat)
    ensures k <= |s| && AllDigits(s[..k])
    ensures k < |s| ==> !IsDigit(s[k])
    decreases |s|
  {
    if s == [] || !IsDigit(s[0]) then 0
    else
      var k := 1 + DigitRun(s[1..]);
      assert s[..k] == [s[0]] + s[1..][..k - 1];
      k
  }

  /** The (year, week) that the text after `{prefix} - Year ` stands for: `{digits} Week {digits}`. */
  function ParseYearWeek(rest: string): Option<(nat, nat)>
  {
    var k := DigitRun(rest);
    var tail := rest[k..];
    if k == 0 || !StartsWith(tail, " Week ") then None
    else
      var weekDigits := tail[6..];
      if weekDigits == [] || !AllDigits(weekDigits) then None
      else Some((DigitsValue(rest[..k]), DigitsValue(weekDigits)))
  }

  /**
   * The (year, week) a title of the form `{prefix} - Year {digits} Week {digits}` stands for,
   * or None when the title does not have that form.
   */
  function ParseTitle(prefix: string, title: string): Option<(nat, nat)>
  {
    var head := prefix + " - Year ";
    if !StartsWith(title, head) then None
    else ParseYearWeek(title[|head|..])
  }

  lemma {:induction false} DigitRunOfDigits(a: string, b: string)
    requires AllDigits(a)
    requires b != [] && !IsDigit(b[0])
    ensures DigitRun(a + b) == |a|
    decreases |a|
  {
    if a == [] {
      assert a + b == b;
    } else {
      assert (a + b)[0] == a[0] && IsDigit(a[0]);
      assert AllDigits(a[1..]) by {
        forall i | 0 <= i < |a| - 1
          ensures IsDigit(a[1..][i])
        {
          assert a[1..][i] == a[i + 1];
        }
      }
      assert (a + b)[1..] == a[1..] + b;
      DigitRunOfDigits(a[1..], b);
    }
  }

  /** The year digits, then ` Week ` and the padded week, parse back to (year, week). */
  lemma ParseYearWeekRoundTrip(year: nat, week: nat)
    ensures ParseYearWeek(Decimal(year) + " Week " + Pad2(week)) == Some((year, week))
  {
    var y, w := Decimal(year), Pad2(week);
    var rest := y + " Week " + w;
    assert rest == y + (" Week " + w);
    DigitRunOfDigits(y, " Week " + w);
    StartsWithConcat(y, " Week " + w);
    StartsWithConcat(" Week ", w);
  }

  /** Parsing a generated title gives back its year and week. */
  lemma TitleRoundTrip(prefix: string, year: nat, week: nat)
    ensures ParseTitle(prefix, PlaylistTitle(prefix, year, week)) == Some((year, week))
  {
    var head := prefix + " - Year ";
    var rest := Decimal(year) + " Week " + Pad2(week);
    assert TitleSuffix(year, week) == " - Year " + rest;
    assert PlaylistTitle(prefix, year, week) == head + rest;
    StartsWithConcat(head, rest);
    ParseYearWeekRoundTrip(year, week);
  }

  /** Distinct (year, week) keys give distinct titles under the same prefix. */
  lemma TitleInjective(prefix: string, year1: nat, week1: nat, year2: nat, week2: nat)
    requires PlaylistTitle(prefix, year1, week1) == PlaylistTitle(prefix, year2, week2)
    ensures year1 == year2 && week1 == week2
  {
    TitleRoundTrip(prefix, year1, week1);
    TitleRoundTrip(prefix, year2, week2);
  }

  /** Every generated title starts with the prefix, so the prefix queries find it. */
  lemma TitleHasPrefix(prefix: string, year: nat, week: nat)
    ensures StartsWith(PlaylistTitle(prefix, year, week), prefix)
  {
    StartsWithConcat(prefix, TitleSuffix(year, week));
  }
}

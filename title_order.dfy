/**
 * Python's ordering of `str` values (code point by code point, a proper prefix first)
 * and `sorted()` applied to a set of show titles.
 */
module TitleOrder {

  predicate Less(a: string, b: string)
    decreases |a|
  {
    if |a| == 0 then |b| > 0
    else if |b| == 0 then false
    else if a[0] != b[0] then a[0] < b[0]
    else Less(a[1..], b[1..])
  }

  lemma {:induction false} LessIrreflexive(a: string)
    ensures !Less(a, a)
    decreases |a|
  {
    if |a| > 0 {
      LessIrreflexive(a[1..]);
    }
  }

  lemma {:induction false} LessAsymmetric(a: string, b: string)
    ensures Less(a, b) ==> !Less(b, a)
    decreases |a|
  {
    if |a| > 0 && |b| > 0 && a[0] == b[0] {
      LessAsymmetric(a[1..], b[1..]);
    }
  }

  lemma {:induction false} LessTransitive(a: string, b: string, c: string)
    requires Less(a, b) && Less(b, c)
    ensures Less(a, c)
    decreases |a|
  {
    if |a| > 0 && a[0] == b[0] && b[0] == c[0] {
      LessTransitive(a[1..], b[1..], c[1..]);
    }
  }

  lemma {:induction false} LessTotal(a: string, b: string)
    ensures a == b || Less(a, b) || Less(b, a)
    decreases |a|
  {
    if |a| > 0 && |b| > 0 && a[0] == b[0] {
      LessTotal(a[1..], b[1..]);
      if a[1..] == b[1..] {
        assert a == [a[0]] + a[1..] && b == [b[0]] + b[1..];
      }
    }
  }

  lemma LessIsStrictOrder()
    ensures forall a :: !Less(a, a)
    ensures forall a, b :: Less(a, b) ==> !Less(b, a)
  {
    forall a ensures !Less(a, a) { LessIrreflexive(a); }
    forall a, b ensures Less(a, b) ==> !Less(b, a) { LessAsymmetric(a, b); }
  }

  predicate StrictlySorted(s: seq<string>)
  {
    forall i, j :: 0 <= i < j < |s| ==> Less(s[i], s[j])
  }

  predicate IsMinimum(m: string, s: set<string>)
  {
    m in s && forall t | t in s :: t == m || Less(m, t)
  }

  lemma {:induction false} MinimumExists(s: set<string>)
    requires s != {}
    ensures exists m :: IsMinimum(m, s)
    decreases |s|
  {
    var x :| x in s;
    if s == {x} {
      assert IsMinimum(x, s);
    } else {
      MinimumExists(s - {x});
      var m :| IsMinimum(m, s - {x});
      LessTotal(m, x);
      if Less(m, x) {
        assert IsMinimum(m, s);
      } else {
        forall t | t in s && t != x
          ensures Less(x, t)
        {
          if t != m {
            LessTransitive(x, m, t);
          }
        }
        assert IsMinimum(x, s);
      }
    }
  }

  /** `sorted(s)`: the titles of `s`, each once, in ascending order. */
  function SortedTitles(s: set<string>): (r: seq<string>)
    ensures StrictlySorted(r)
    ensures forall t :: t in r <==> t in s
    ensures |r| == |s|
    decreases |s|
  {
    if s == {} then []
    else
      MinimumExists(s);
      MinimumUnique(s);
      var m :| IsMinimum(m, s);
      var rest := SortedTitles(s - {m});
      PrependMinimum(m, s, rest);
      [m] + rest
  }

  lemma MinimumUnique(s: set<string>)
    ensures forall m1, m2 :: IsMinimum(m1, s) && IsMinimum(m2, s) ==> m1 == m2
  {
    LessIsStrictOrder();
  }

  lemma PrependMinimum(m: string, s: set<string>, rest: seq<string>)
    requires IsMinimum(m, s)
    requires StrictlySorted(rest) && |rest| == |s - {m}|
    requires forall t :: t in rest <==> t in s - {m}
    ensures StrictlySorted([m] + rest) && |[m] + rest| == |s|
    ensures forall t :: t in [m] + rest <==> t in s
  {
    assert forall j :: 0 <= j < |rest| ==> rest[j] in s - {m};
  }

  lemma StrictlySortedDistinct(s: seq<string>)
    requires StrictlySorted(s)
    ensures forall i, j :: 0 <= i < j < |s| ==> s[i] != s[j]
  {
    LessIsStrictOrder();
  }

  lemma HeadIsElement(b: seq<string>)
    requires b != []
    ensures b[0] in b
  {
  }

  /** A strictly sorted sequence is determined by the set of its elements. */
  lemma {:induction false} SortedUnique(a: seq<string>, b: seq<string>)
    requires StrictlySorted(a) && StrictlySorted(b)
    requires forall t :: t in a <==> t in b
    ensures a == b
    decreases |a|
  {
    LessIsStrictOrder();
    if a == [] {
      if b != [] {
        HeadIsElement(b);
        assert false;
      }
    } else {
      assert a[0] in b;
      assert b != [];
      assert b[0] in a;
      if a[0] != b[0] {
        assert false;
      }
      forall t
        ensures t in a[1..] <==> t in b[1..]
      {
        if t in a[1..] {
          var i :| 1 <= i < |a| && a[i] == t;
          assert Less(a[0], t);
          assert t in b;
        }
        if t in b[1..] {
          var j :| 1 <= j < |b| && b[j] == t;
          assert Less(b[0], t);
          assert t in a;
        }
      }
      SortedUnique(a[1..], b[1..]);
      assert a == [a[0]] + a[1..] && b == [b[0]] + b[1..];
    }
  }
}

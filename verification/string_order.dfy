/** The order `sort.Strings` puts strings in, and sorted enumerations of sets.

    Go compares strings byte by byte; on UTF-8 text that is the same as
    comparing code point by code point, which is what `Less` does.
 */
module StringOrder {

  /** Strict lexicographic order: a proper prefix comes first, otherwise the
      first differing character decides. */
  function Less(a: string, b: string): (r: bool)
    // a string is never below itself
    ensures r ==> a != b
    decreases |a|
  {
    |b| > 0 && (|a| == 0 || a[0] < b[0] || (a[0] == b[0] && Less(a[1..], b[1..])))
  }

  /** A proper prefix comes before the whole string. */
  lemma {:induction false} PrefixIsLess(a: string, b: string)
    requires a < b
    ensures Less(a, b)
    decreases |a|
  {
    if |a| > 0 {
      assert a[1..] < b[1..];
      PrefixIsLess(a[1..], b[1..]);
    }
  }

  lemma {:induction false} LessIrreflexive(a: string)
    ensures !Less(a, a)
    decreases |a|
  {
    if |a| > 0 {
      LessIrreflexive(a[1..]);
    }
  }

  lemma {:induction false} LessAsymmetric(a: string, b: string)
    ensures Less(a, b) ==> !Less(b, a)
    decreases |a|
  {
    if |a| > 0 && |b| > 0 && a[0] == b[0] {
      LessAsymmetric(a[1..], b[1..]);
    }
  }

  lemma {:induction false} LessTransitive(a: string, b: string, c: string)
    requires Less(a, b) && Less(b, c)
    ensures Less(a, c)
    decreases |a|
  {
    if |a| > 0 && a[0] == b[0] && b[0] == c[0] {
      LessTransitive(a[1..], b[1..], c[1..]);
    }
  }

  /** Any two different strings are ordered one way or the other. */
  lemma {:induction false} LessTotal(a: string, b: string)
    ensures a == b || Less(a, b) || Less(b, a)
    decreases |a|
  {
    if |a| > 0 && |b| > 0 && a[0] == b[0] {
      LessTotal(a[1..], b[1..]);
      if a[1..] == b[1..] {
        assert a == [a[0]] + a[1..] && b == [b[0]] + b[1..];
      }
    }
  }

  lemma LessAsymmetricEverywhere()
    ensures forall a, b :: Less(a, b) ==> !Less(b, a)
  {
    forall a, b
      ensures Less(a, b) ==> !Less(b, a)
    {
      LessAsymmetric(a, b);
    }
  }

  /** Ascending without repetition. */
  predicate StrictlySorted(xs: seq<string>) {
    forall i, j :: 0 <= i < j < |xs| ==> Less(xs[i], xs[j])
  }

  /** Ascending, repetitions allowed. */
  predicate Sorted(xs: seq<string>) {
    forall i, j :: 0 <= i < j < |xs| ==> !Less(xs[j], xs[i])
  }

  /** No element occurs twice. */
  predicate Distinct(xs: seq<string>) {
    forall i, j :: 0 <= i < j < |xs| ==> xs[i] != xs[j]
  }

  /** `m` is the smallest element of `s`. */
  predicate IsLeast(m: string, s: set<string>) {
    m in s && forall y :: y in s && y != m ==> Less(m, y)
  }

  /** Every non-empty set of strings has a smallest element. */
  lemma {:induction false} LeastExists(s: set<string>)
    requires s != {}
    ensures exists m :: IsLeast(m, s)
    decreases |s|
  {
    var x :| x in s;
    if s == {x} {
      assert IsLeast(x, s);
    } else {
      LeastExists(s - {x});
      var m :| IsLeast(m, s - {x});
      LessTotal(x, m);
      if Less(x, m) {
        forall y | y in s && y != x
          ensures Less(x, y)
        {
          if y != m {
            LessTransitive(x, m, y);
          }
        }
        assert IsLeast(x, s);
      } else {
        assert IsLeast(m, s);
      }
    }
  }

  /** The elements of `s` in ascending order: what collecting a set's
      elements in any order and sorting them with `sort.Strings` yields
      (see `SortEnumeration`). */
  function SortedSet(s: set<string>): (r: seq<string>)
    ensures StrictlySorted(r)
    ensures forall x :: x in r <==> x in s
    ensures |r| == |s|
    decreases |s|
  {
    if s == {} then []
    else
      LeastExists(s);
      LeastUnique(s);
      var m :| IsLeast(m, s);
      var rest := SortedSet(s - {m});
      LeastPrepend(m, s, rest);
      [m] + rest
  }

  /** A set has at most one least element. */
  lemma LeastUnique(s: set<string>)
    ensures forall m, m' :: IsLeast(m, s) && IsLeast(m', s) ==> m == m'
  {
    LessAsymmetricEverywhere();
  }

  /** The least element of `s` in front of an ascending enumeration of the
      rest is an ascending enumeration of `s`. */
  lemma LeastPrepend(m: string, s: set<string>, rest: seq<string>)
    requires IsLeast(m, s) && StrictlySorted(rest)
    requires forall x :: x in rest <==> x in s - {m}
    ensures StrictlySorted([m] + rest)
    ensures forall x :: x in [m] + rest <==> x in s
  {
    forall j | 0 <= j < |rest|
      ensures Less(m, rest[j])
    {
      assert rest[j] in rest;
    }
  }

  /** A strictly ascending sequence is determined by its elements. */
  lemma {:induction false} StrictlySortedUnique(a: seq<string>, b: seq<string>)
    requires StrictlySorted(a) && StrictlySorted(b)
    requires forall x :: x in a <==> x in b
    ensures a == b
    decreases |a|
  {
    if |b| > 0 {
      assert b[0] in b;
    }
    if |a| > 0 {
      assert a[0] in b;
      assert |b| > 0;
      if a[0] != b[0] {
        assert b[0] in a;
        var i :| 0 <= i < |a| && a[i] == b[0];
        var j :| 0 <= j < |b| && b[j] == a[0];
        assert Less(a[0], b[0]);
        assert Less(b[0], a[0]);
        LessAsymmetric(a[0], b[0]);
      }
      forall x
        ensures x in a[1..] <==> x in b[1..]
      {
        if x in a[1..] {
          var i :| 1 <= i < |a| && a[i] == x;
          LessIrreflexive(x);
          assert a[i] in a;
          var k :| 0 <= k < |b| && b[k] == x;
          assert k != 0;
          assert b[1..][k - 1] == x;
        }
        if x in b[1..] {
          var j :| 1 <= j < |b| && b[j] == x;
          LessIrreflexive(x);
          assert b[j] in b;
          var k :| 0 <= k < |a| && a[k] == x;
          assert k != 0;
          assert a[1..][k - 1] == x;
        }
      }
      StrictlySortedUnique(a[1..], b[1..]);
      assert a == [a[0]] + a[1..] && b == [b[0]] + b[1..];
    }
  }

  /** Inserts `x` into an ascending sequence before the first element that
      is not smaller than it. */
  function Insert(x: string, xs: seq<string>): (r: seq<string>)
    requires Sorted(xs)
    ensures Sorted(r)
    ensures multiset(r) == multiset(xs) + multiset{x}
    ensures StrictlySorted(xs) && x !in xs ==> StrictlySorted(r)
  {
    if |xs| == 0 then [x]
    else if !Less(xs[0], x) then
      InsertFrontSorted(x, xs);
      [x] + xs
    else
      var rest := Insert(x, xs[1..]);
      assert xs == [xs[0]] + xs[1..];
      InsertBehindSorted(x, xs, rest);
      [xs[0]] + rest
  }

  lemma InsertFrontSorted(x: string, xs: seq<string>)
    requires Sorted(xs) && |xs| > 0 && !Less(xs[0], x)
    ensures Sorted([x] + xs)
    ensures StrictlySorted(xs) && x !in xs ==> StrictlySorted([x] + xs)
  {
    var r := [x] + xs;
    forall j | 0 < j < |r|
      ensures !Less(r[j], x)
      ensures StrictlySorted(xs) && x !in xs ==> Less(x, r[j])
    {
      var y := r[j];
      assert y == xs[j - 1];
      LessTotal(x, xs[0]);
      LessTotal(xs[0], y);
      LessIrreflexive(xs[0]);
      if x == xs[0] {
        assert !Less(y, x);
      } else {
        assert Less(x, xs[0]);
        if y != xs[0] {
          LessTransitive(x, xs[0], y);
        }
        LessAsymmetric(x, y);
      }
    }
  }

  lemma InsertBehindSorted(x: string, xs: seq<string>, rest: seq<string>)
    requires |xs| > 0 && Less(xs[0], x) && Sorted(xs) && Sorted(rest)
    requires multiset(rest) == multiset(xs[1..]) + multiset{x}
    requires StrictlySorted(xs[1..]) && x !in xs[1..] ==> StrictlySorted(rest)
    ensures Sorted([xs[0]] + rest)
    ensures StrictlySorted(xs) && x !in xs ==> StrictlySorted([xs[0]] + rest)
  {
    var r := [xs[0]] + rest;
    forall j | 0 <= j < |rest|
      ensures !Less(rest[j], xs[0])
      ensures StrictlySorted(xs) ==> Less(xs[0], rest[j])
    {
      assert rest[j] in multiset(rest);
      if rest[j] == x {
        LessAsymmetric(xs[0], x);
      } else {
        assert rest[j] in multiset(xs[1..]);
        var i :| 0 <= i < |xs[1..]| && xs[1..][i] == rest[j];
        assert xs[i + 1] == rest[j];
        LessIrreflexive(xs[0]);
      }
    }
  }

  /** `sort.Strings`: an ascending permutation of the input. */
  function SortStrings(xs: seq<string>): (r: seq<string>)
    ensures Sorted(r)
    ensures multiset(r) == multiset(xs)
    ensures Distinct(xs) ==> StrictlySorted(r)
  {
    if |xs| == 0 then []
    else
      var rest := SortStrings(xs[1..]);
      SplitFirst(xs, rest);
      Insert(xs[0], rest)
  }

  /** What sorting the tail tells about the whole: the multiset splits off
      the first element, and a repeat-free input has a repeat-free tail
      that does not hold the first element. */
  lemma SplitFirst(xs: seq<string>, rest: seq<string>)
    requires |xs| > 0 && multiset(rest) == multiset(xs[1..])
    ensures multiset(xs) == multiset(rest) + multiset{xs[0]}
    ensures Distinct(xs) ==> Distinct(xs[1..]) && xs[0] !in rest
  {
    assert xs == [xs[0]] + xs[1..];
    assert xs[0] in rest <==> xs[0] in multiset(xs[1..]);
  }

  /** Collecting the elements of a set in ANY order and sorting them gives
      the same sequence: `SortedSet`. */
  lemma SortEnumeration(xs: seq<string>, s: set<string>)
    requires Distinct(xs)
    requires forall x :: x in xs <==> x in s
    ensures SortStrings(xs) == SortedSet(s)
  {
    var r := SortStrings(xs);
    forall x
      ensures x in r <==> x in SortedSet(s)
    {
      assert x in r <==> x in multiset(xs);
    }
    StrictlySortedUnique(r, SortedSet(s));
  }
}

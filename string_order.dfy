/** Python's ordering of strings (code point by code point, a proper prefix
    first) and `sorted` of a list without duplicates, built by insertion. */
module StringOrder {

  /** `a < b` on Python strings. */
  predicate Less(a: string, b: string)
    decreases |a|
  {
    |b| > 0 && (|a| == 0 || a[0] < b[0] || (a[0] == b[0] && Less(a[1..], b[1..])))
  }

  lemma {:induction false} LessIrreflexive(a: string)
    ensures !Less(a, a)
  {
    if |a| > 0 {
      LessIrreflexive(a[1..]);
    }
  }

  lemma {:induction false} LessTransitive(a: string, b: string, c: string)
    requires Less(a, b) && Less(b, c)
    ensures Less(a, c)
    decreases |a|
  {
    if |a| > 0 && a[0] == b[0] && b[0] == c[0] {
      LessTransitive(a[1..], b[1..], c[1..]);
    }
  }

  lemma {:induction false} LessTotal(a: string, b: string)
    requires a != b
    ensures Less(a, b) || Less(b, a)
    decreases |a|
  {
    if |a| > 0 && |b| > 0 && a[0] == b[0] {
      assert a == [a[0]] + a[1..] && b == [b[0]] + b[1..];
      LessTotal(a[1..], b[1..]);
    }
  }

  /** A common prefix does not change the order. */
  lemma {:induction false} LessPrefix(p: string, a: string, b: string)
    ensures Less(p + a, p + b) <==> Less(a, b)
    decreases |p|
  {
    if |p| > 0 {
      assert (p + a)[1..] == p[1..] + a && (p + b)[1..] == p[1..] + b;
      LessPrefix(p[1..], a, b);
    } else {
      assert p + a == a && p + b == b;
    }
  }

  /** Every element before every later one. */
  predicate StrictlySorted(xs: seq<string>)
  {
    forall i, j :: 0 <= i < j < |xs| ==> Less(xs[i], xs[j])
  }

  /** `x` put in its place in a strictly sorted list, unless it is already there. */
  function Insert(xs: seq<string>, x: string): seq<string>
  {
    if |xs| == 0 then [x]
    else if x == xs[0] then xs
    else if Less(x, xs[0]) then [x] + xs
    else [xs[0]] + Insert(xs[1..], x)
  }

  /** Inserting keeps the list strictly sorted and adds exactly `x`. */
  lemma {:induction false} InsertSorted(xs: seq<string>, x: string)
    requires StrictlySorted(xs)
    ensures StrictlySorted(Insert(xs, x))
    ensures forall y :: y in Insert(xs, x) <==> y in xs || y == x
  {
    if |xs| == 0 {
    } else if x == xs[0] {
    } else if Less(x, xs[0]) {
      var r := [x] + xs;
      forall i, j | 0 <= i < j < |r|
        ensures Less(r[i], r[j])
      {
        if i == 0 && j > 1 {
          LessTransitive(x, xs[0], xs[j - 1]);
        }
      }
    } else {
      LessTotal(x, xs[0]);
      InsertSorted(xs[1..], x);
      var tail := Insert(xs[1..], x);
      var r := [xs[0]] + tail;
      forall i, j | 0 <= i < j < |r|
        ensures Less(r[i], r[j])
      {
        if i == 0 {
          assert r[j] in tail;
          assert r[j] in xs[1..] || r[j] == x;
          if r[j] in xs[1..] {
            var m :| 0 <= m < |xs[1..]| && xs[1..][m] == r[j];
            assert xs[m + 1] == r[j];
          }
        } else {
          assert r[i] == tail[i - 1] && r[j] == tail[j - 1];
        }
      }
    }
  }

  /** Two strictly sorted lists with the same elements are the same list, so
      sorting a set has only one possible result. */
  lemma {:induction false} SortedUnique(xs: seq<string>, ys: seq<string>)
    requires StrictlySorted(xs) && StrictlySorted(ys)
    requires forall z :: z in xs <==> z in ys
    ensures xs == ys
  {
    assert |xs| > 0 ==> xs[0] in ys;
    assert |ys| > 0 ==> ys[0] in xs;
    if |xs| > 0 && |ys| > 0 {
      if xs[0] != ys[0] {
        assert xs[0] in ys;
        var j :| 0 <= j < |ys| && ys[j] == xs[0];
        assert ys[0] in xs;
        var i :| 0 <= i < |xs| && xs[i] == ys[0];
        assert Less(ys[0], xs[0]) && Less(xs[0], ys[0]);
        LessTransitive(xs[0], ys[0], xs[0]);
        LessIrreflexive(xs[0]);
      }
      forall z
        ensures z in xs[1..] <==> z in ys[1..]
      {
        HeadNotInTail(xs, z);
        HeadNotInTail(ys, z);
      }
      SortedUnique(xs[1..], ys[1..]);
      assert xs == [xs[0]] + xs[1..] && ys == [ys[0]] + ys[1..];
    }
  }

  /** In a strictly sorted list the tail is the list without its head. */
  lemma HeadNotInTail(xs: seq<string>, z: string)
    requires StrictlySorted(xs) && |xs| > 0
    ensures z in xs[1..] <==> z in xs && z != xs[0]
  {
    if z in xs[1..] {
      var m :| 0 <= m < |xs[1..]| && xs[1..][m] == z;
      assert Less(xs[0], xs[m + 1]);
      LessIrreflexive(xs[0]);
    }
    if z in xs && z != xs[0] {
      var m :| 0 <= m < |xs| && xs[m] == z;
      assert xs[1..][m - 1] == z;
    }
  }

  /** Python's `sorted(xs)` for a list without duplicates. */
  function SortDistinct(xs: seq<string>): seq<string>
  {
    if |xs| == 0 then [] else Insert(SortDistinct(xs[..|xs| - 1]), xs[|xs| - 1])
  }

  lemma {:induction false} SortDistinctSorts(xs: seq<string>)
    ensures StrictlySorted(SortDistinct(xs))
    ensures forall y :: y in SortDistinct(xs) <==> y in xs
  {
    if |xs| > 0 {
      var init := xs[..|xs| - 1];
      SortDistinctSorts(init);
      InsertSorted(SortDistinct(init), xs[|xs| - 1]);
      assert xs == init + [xs[|xs| - 1]];
    }
  }

  /** Sorting an already sorted list changes nothing. */
  lemma SortDistinctOfSorted(xs: seq<string>)
    requires StrictlySorted(xs)
    ensures SortDistinct(xs) == xs
  {
    SortDistinctSorts(xs);
    SortedUnique(SortDistinct(xs), xs);
  }

  /** The same prefix before every element keeps a list strictly sorted. */
  lemma PrefixKeepsSorted(prefix: string, xs: seq<string>)
    requires StrictlySorted(xs)
    ensures StrictlySorted(seq(|xs|, k requires 0 <= k < |xs| => prefix + xs[k]))
  {
    var ys := seq(|xs|, k requires 0 <= k < |xs| => prefix + xs[k]);
    forall i, j | 0 <= i < j < |ys|
      ensures Less(ys[i], ys[j])
    {
      LessPrefix(prefix, xs[i], xs[j]);
    }
  }
}

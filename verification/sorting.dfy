/** Python 2's `sorted()` on a list of byte strings: lexicographic order by character code. */
module Sorting {

  /** `a <= b` on Python strings: compare character by character, a prefix sorts first. */
  predicate LexLeq(a: string, b: string)
  {
    a == [] || (b != [] && (a[0] < b[0] || (a[0] == b[0] && LexLeq(a[1..], b[1..]))))
  }

  lemma {:induction false} LexLeqTotal(a: string, b: string)
    ensures LexLeq(a, b) || LexLeq(b, a)
    decreases |a|
  {
    if a != [] && b != [] && a[0] == b[0] {
      LexLeqTotal(a[1..], b[1..]);
    }
  }

  lemma {:induction false} LexLeqTransitive(a: string, b: string, c: string)
    requires LexLeq(a, b) && LexLeq(b, c)
    ensures LexLeq(a, c)
    decreases |a|
  {
    if a != [] && b != [] && c != [] && a[0] == b[0] == c[0] {
      LexLeqTransitive(a[1..], b[1..], c[1..]);
    }
  }

  lemma {:induction false} LexLeqAntisymmetric(a: string, b: string)
    requires LexLeq(a, b) && LexLeq(b, a)
    ensures a == b
    decreases |a|
  {
    if a != [] {
      LexLeqAntisymmetric(a[1..], b[1..]);
      assert a == [a[0]] + a[1..] && b == [b[0]] + b[1..];
    }
  }

  ghost predicate Sorted(s: seq<string>)
  {
    forall i, j :: 0 <= i < j < |s| ==> LexLeq(s[i], s[j])
  }

  /** `x` put into the sorted list `s` before the first element it does not exceed. */
  function Insert(x: string, s: seq<string>): (r: seq<string>)
    ensures multiset(r) == multiset(s) + multiset{x}
  {
    if s == [] then [x]
    else if LexLeq(x, s[0]) then [x] + s
    else
      assert s == [s[0]] + s[1..];
      [s[0]] + Insert(x, s[1..])
  }

  lemma {:induction false} InsertSorted(x: string, s: seq<string>)
    requires Sorted(s)
    ensures Sorted(Insert(x, s))
    decreases |s|
  {
    if s == [] {
    } else if LexLeq(x, s[0]) {
      var r := [x] + s;
      forall i, j | 0 <= i < j < |r| ensures LexLeq(r[i], r[j]) {
        if i == 0 && j > 1 {
          LexLeqTransitive(x, s[0], s[j - 1]);
        }
      }
    } else {
      LexLeqTotal(x, s[0]);
      InsertSorted(x, s[1..]);
      var tail := Insert(x, s[1..]);
      var r := [s[0]] + tail;
      forall i, j | 0 <= i < j < |r| ensures LexLeq(r[i], r[j]) {
        if i == 0 {
          assert r[j] in multiset(tail);
          assert r[j] == x || r[j] in s[1..];
        }
      }
    }
  }

  /** `sorted(s)`, written as an insertion sort. */
  function Sort(s: seq<string>): (r: seq<string>)
    ensures multiset(r) == multiset(s) && |r| == |s|
  {
    if s == [] then []
    else
      assert s == [s[0]] + s[1..];
      Insert(s[0], Sort(s[1..]))
  }

  /** `sorted(s)` is in order and holds exactly the elements of `s`, each as often. */
  lemma {:induction false} SortSorted(s: seq<string>)
    ensures Sorted(Sort(s)) && multiset(Sort(s)) == multiset(s)
    decreases |s|
  {
    if s != [] {
      SortSorted(s[1..]);
      InsertSorted(s[0], Sort(s[1..]));
    }
  }

  lemma SortedHeadFirst(s: seq<string>, x: string)
    requires Sorted(s) && x in s
    ensures LexLeq(s[0], x)
  {
    var i :| 0 <= i < |s| && s[i] == x;
    if i == 0 {
      LexLeqTotal(x, x);
    }
  }

  lemma SortedTail(s: seq<string>)
    requires Sorted(s) && s != []
    ensures Sorted(s[1..])
  {
    forall i, j | 0 <= i < j < |s| - 1 ensures LexLeq(s[1..][i], s[1..][j]) {
      assert s[1..][i] == s[i + 1] && s[1..][j] == s[j + 1];
    }
  }

  /** Two ordered arrangements of the same strings are the same list, so `Sort` agrees
      with Python's `sorted` whatever algorithm that uses. */
  lemma {:induction false} SortedUnique(a: seq<string>, b: seq<string>)
    requires Sorted(a) && Sorted(b) && multiset(a) == multiset(b)
    ensures a == b
    decreases |a|
  {
    if a == [] {
      assert |multiset(b)| == 0;
    } else {
      assert b != [] by {
        assert a[0] in multiset(b);
      }
      assert a[0] in multiset(b) && b[0] in multiset(a);
      SortedHeadFirst(b, a[0]);
      SortedHeadFirst(a, b[0]);
      LexLeqAntisymmetric(a[0], b[0]);
      assert a == [a[0]] + a[1..] && b == [b[0]] + b[1..];
      assert multiset(a[1..]) == multiset(b[1..]) by {
        assert multiset(a) == multiset{a[0]} + multiset(a[1..]);
        assert multiset(b) == multiset{b[0]} + multiset(b[1..]);
        forall y ensures multiset(a[1..])[y] == multiset(b[1..])[y] {
          assert multiset(a)[y] == multiset(b)[y];
        }
      }
      SortedTail(a);
      SortedTail(b);
      SortedUnique(a[1..], b[1..]);
    }
  }

  /** The elements of `s` kept by a predicate, in order: `[x for x in s if p(x)]`. */
  function Filter(s: seq<string>, p: string -> bool): (r: seq<string>)
  {
    if s == [] then []
    else (if p(s[0]) then [s[0]] else []) + Filter(s[1..], p)
  }

  /** Filtering keeps each kept string exactly as often as it occurs. */
  lemma {:induction false} FilterCount(s: seq<string>, p: string -> bool, x: string)
    ensures multiset(Filter(s, p))[x] == if p(x) then multiset(s)[x] else 0
    decreases |s|
  {
    if s != [] {
      FilterCount(s[1..], p, x);
      assert s == [s[0]] + s[1..];
    }
  }

  /** Filtering keeps a sorted list sorted. */
  lemma {:induction false} FilterSorted(s: seq<string>, p: string -> bool)
    requires Sorted(s)
    ensures Sorted(Filter(s, p))
    decreases |s|
  {
    if s != [] {
      FilterSorted(s[1..], p);
      var tail := Filter(s[1..], p);
      if p(s[0]) {
        var r := [s[0]] + tail;
        forall i, j | 0 <= i < j < |r| ensures LexLeq(r[i], r[j]) {
          if i == 0 {
            FilterCount(s[1..], p, r[j]);
            assert r[j] == tail[j - 1];
            assert r[j] in multiset(tail);
            assert r[j] in s[1..];
          }
        }
      }
    }
  }
}

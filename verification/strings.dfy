/** The Python 2 string and list primitives the scripts are built from:
    `t in s`, `s.split(sep)`, `sep.join(parts)`, slices with negative bounds
    and the `os.path` helpers `join` and `basename`. Strings are `seq<char>`. */
module Strings {
  import opened Results

  /** `t` occurs in `s` starting at index `i`. */
  predicate OccursAt<T(==)>(s: seq<T>, t: seq<T>, i: int)
  {
    0 <= i && i + |t| <= |s| && s[i..i + |t|] == t
  }

  lemma OccursAtShift<T>(s: seq<T>, t: seq<T>, j: int)
    requires |s| > 0 && j >= 1
    ensures OccursAt(s, t, j) <==> OccursAt(s[1..], t, j - 1)
  {
    if j + |t| <= |s| {
      assert s[1..][j - 1..j - 1 + |t|] == s[j..j + |t|];
    }
  }

  /** `s.find(t)`: the index of the leftmost occurrence of `t` in `s` (None for -1). */
  function FindFirst<T(==)>(s: seq<T>, t: seq<T>): (r: Option<nat>)
    ensures r.Some? ==> OccursAt(s, t, r.value)
    decreases |s|
  {
    if t <= s then
      assert s[0..|t|] == t;
      Some(0)
    else if s == [] then None
    else
      match FindFirst(s[1..], t)
      case None => None
      case Some(i) =>
        OccursAtShift(s, t, i + 1);
        Some(i + 1)
  }

  /** The occurrence `find` gives has none before it, and None means there is none. */
  lemma {:induction false} FindFirstSpec<T>(s: seq<T>, t: seq<T>)
    ensures FindFirst(s, t).Some? ==> forall j :: 0 <= j < FindFirst(s, t).value ==> !OccursAt(s, t, j)
    ensures FindFirst(s, t).None? ==> forall j :: !OccursAt(s, t, j)
    decreases |s|
  {
    if !(t <= s) && s != [] {
      FindFirstSpec(s[1..], t);
      assert !OccursAt(s, t, 0);
      forall j | j >= 1
        ensures OccursAt(s, t, j) <==> OccursAt(s[1..], t, j - 1)
      {
        OccursAtShift(s, t, j);
      }
    }
  }

  /** Python's `t in s` on strings: a substring test (the empty string occurs everywhere). */
  predicate Contains<T(==)>(s: seq<T>, t: seq<T>)
  {
    exists i | 0 <= i <= |s| - |t| :: OccursAt(s, t, i)
  }

  /** `find` reports an occurrence exactly when `t in s`. */
  lemma FindContains<T>(s: seq<T>, t: seq<T>)
    ensures FindFirst(s, t).Some? <==> Contains(s, t)
  {
    FindFirstSpec(s, t);
  }

  /** For a one-character needle, `[c] in s` is membership of `c`. */
  lemma ContainsChar<T>(s: seq<T>, c: T)
    ensures Contains(s, [c]) <==> c in s
  {
    if c in s {
      var i :| 0 <= i < |s| && s[i] == c;
      assert s[i..i + 1] == [c];
      assert OccursAt(s, [c], i);
    }
    if Contains(s, [c]) {
      var i :| 0 <= i <= |s| - 1 && OccursAt(s, [c], i);
      assert s[i..i + 1][0] == s[i];
    }
  }

  /** An occurrence inside a prefix or a suffix is an occurrence in the whole. */
  lemma OccursInPart<T>(a: seq<T>, b: seq<T>, t: seq<T>, j: int)
    ensures OccursAt(a, t, j) ==> OccursAt(a + b, t, j)
    ensures OccursAt(b, t, j) ==> OccursAt(a + b, t, |a| + j)
  {
    if OccursAt(a, t, j) {
      assert (a + b)[j..j + |t|] == a[j..j + |t|];
    }
    if OccursAt(b, t, j) {
      assert (a + b)[|a| + j..|a| + j + |t|] == b[j..j + |t|];
    }
  }

  /** If `t` does not occur in `a + b`, it occurs in neither part. */
  lemma ContainsParts<T>(a: seq<T>, b: seq<T>, t: seq<T>)
    ensures !Contains(a + b, t) ==> !Contains(a, t) && !Contains(b, t)
  {
    if Contains(a, t) {
      var j :| OccursAt(a, t, j);
      OccursInPart(a, b, t, j);
    }
    if Contains(b, t) {
      var j :| OccursAt(b, t, j);
      OccursInPart(a, b, t, j);
    }
  }

  /** `s.split(sep)` for a non-empty `sep`: cut at the leftmost occurrence, then split the rest. */
  function Split<T(==)>(s: seq<T>, sep: seq<T>): (r: seq<seq<T>>)
    requires |sep| > 0
    ensures |r| >= 1
    decreases |s|, 1
  {
    Cut(s, sep, FindFirst(s, sep))
  }

  /** The split of `s` once the leftmost occurrence of `sep` is known (None when there is none). */
  function Cut<T(==)>(s: seq<T>, sep: seq<T>, found: Option<nat>): (r: seq<seq<T>>)
    requires |sep| > 0
    requires found.Some? ==> OccursAt(s, sep, found.value)
    ensures |r| >= 1
    decreases |s|, 0
  {
    match found
    case None => [s]
    case Some(i) => [s[..i]] + Split(s[i + |sep|..], sep)
  }

  /** A string without the separator splits into itself alone. */
  lemma SplitAbsent<T>(s: seq<T>, sep: seq<T>)
    requires |sep| > 0 && !Contains(s, sep)
    ensures Split(s, sep) == [s]
  {
    FindContains(s, sep);
  }

  /** One step of `Split`: the first piece ends at the leftmost separator, and what follows
      that separator is split again. */
  lemma {:induction false} SplitSome<T>(s: seq<T>, sep: seq<T>, i: nat)
    requires |sep| > 0 && FindFirst(s, sep) == Some(i)
    ensures i + |sep| <= |s| && s[i..i + |sep|] == sep
    ensures Split(s, sep) == [s[..i]] + Split(s[i + |sep|..], sep)
  {
    assert OccursAt(s, sep, i);
    calc {
      Split(s, sep);
      Cut(s, sep, FindFirst(s, sep));
      Cut(s, sep, Some(i));
    }
  }

  /** `sep.join(parts)`. */
  function Join<T>(sep: seq<T>, parts: seq<seq<T>>): seq<T>
  {
    if |parts| == 0 then []
    else if |parts| == 1 then parts[0]
    else parts[0] + sep + Join(sep, parts[1..])
  }

  /** `''.join(parts)`. */
  function Concat<T>(parts: seq<seq<T>>): seq<T>
  {
    if parts == [] then [] else parts[0] + Concat(parts[1..])
  }

  lemma JoinCons<T>(sep: seq<T>, p: seq<T>, tail: seq<seq<T>>)
    requires |tail| >= 1
    ensures Join(sep, [p] + tail) == p + sep + Join(sep, tail)
  {
    assert ([p] + tail)[1..] == tail;
  }

  /** Joining the pieces of a split with the same separator gives the string back. */
  lemma {:induction false} SplitJoin<T>(s: seq<T>, sep: seq<T>)
    requires |sep| > 0
    ensures Join(sep, Split(s, sep)) == s
    decreases |s|
  {
    if FindFirst(s, sep).Some? {
      var i := FindFirst(s, sep).value;
      var rest := s[i + |sep|..];
      SplitSome(s, sep, i);
      calc {
        Join(sep, Split(s, sep));
      == { JoinCons(sep, s[..i], Split(rest, sep)); }
        s[..i] + sep + Join(sep, Split(rest, sep));
      == { SplitJoin(rest, sep); }
        s[..i] + sep + rest;
      == { assert s == s[..i] + s[i..i + |sep|] + rest; }
        s;
      }
    }
  }

  /** Splitting pieces joined by a one-character separator that none of them holds gives
      the pieces back. */
  lemma {:induction false} JoinSplitChar<T>(parts: seq<seq<T>>, c: T)
    requires |parts| >= 1
    requires forall k :: 0 <= k < |parts| ==> c !in parts[k]
    ensures Split(Join([c], parts), [c]) == parts
    decreases |parts|
  {
    if |parts| == 1 {
      ContainsChar(parts[0], c);
    } else {
      var p0 := parts[0];
      var rest := Join([c], parts[1..]);
      var s := Join([c], parts);
      assert s == p0 + [c] + rest;
      assert FindFirst(s, [c]) == Some(|p0|) by {
        assert s[|p0|..|p0| + 1] == [c];
        forall j | 0 <= j < |p0| ensures !OccursAt(s, [c], j) {
          assert s[j..j + 1][0] == s[j] == p0[j];
          assert p0[j] in p0;
        }
        assert OccursAt(s, [c], |p0|);
        FindFirstSpec(s, [c]);
        var i := FindFirst(s, [c]).value;
        assert !(i < |p0|) && !(|p0| < i);
      }
      SplitSome(s, [c], |p0|);
      assert s[..|p0|] == p0 && s[|p0| + 1..] == rest;
      forall k | 0 <= k < |parts[1..]| ensures c !in parts[1..][k] {
        assert parts[1..][k] == parts[k + 1];
      }
      JoinSplitChar(parts[1..], c);
      assert parts == [p0] + parts[1..];
    }
  }

  /** Cutting at the leftmost occurrence leaves no occurrence that starts before the cut. */
  lemma LeftmostCut<T>(s: seq<T>, sep: seq<T>, i: nat)
    requires |sep| > 0 && OccursAt(s, sep, i)
    requires forall j :: 0 <= j < i ==> !OccursAt(s, sep, j)
    ensures !Contains(s[..i] + sep[..|sep| - 1], sep)
  {
    var m := i + |sep| - 1;
    var x := s[..i] + sep[..|sep| - 1];
    assert x == s[..m] by {
      assert s[i..i + |sep|] == sep;
    }
    forall j | 0 <= j && j + |sep| <= |x|
      ensures !OccursAt(x, sep, j)
    {
      assert j < i && j + |sep| <= |s|;
      assert x[j..j + |sep|] == s[j..j + |sep|] by {
        forall k | j <= k < j + |sep| ensures x[k] == s[k] {}
      }
      assert !OccursAt(s, sep, j);
    }
  }

  /** The pieces are Python's: each piece but the last, followed by all but the last
      element of `sep`, still holds no occurrence of `sep` (so every cut is at the
      leftmost occurrence left), and the last piece holds none at all. */
  lemma {:induction false} SplitLeftmost<T>(s: seq<T>, sep: seq<T>)
    requires |sep| > 0
    ensures var r := Split(s, sep);
            && (forall k :: 0 <= k < |r| - 1 ==> !Contains(r[k] + sep[..|sep| - 1], sep))
            && !Contains(r[|r| - 1], sep)
    decreases |s|
  {
    if FindFirst(s, sep).Some? {
      var i := FindFirst(s, sep).value;
      var rest := s[i + |sep|..];
      var tail := Split(rest, sep);
      SplitSome(s, sep, i);
      SplitLeftmost(rest, sep);
      FindFirstSpec(s, sep);
      LeftmostCut(s, sep, i);
      var r := [s[..i]] + tail;
      forall k | 0 <= k < |r| - 1
        ensures !Contains(r[k] + sep[..|sep| - 1], sep)
      {
        if k > 0 {
          assert r[k] == tail[k - 1];
        }
      }
      assert r[|r| - 1] == tail[|tail| - 1];
    } else {
      FindContains(s, sep);
    }
  }

  /** No piece of a split contains the separator. */
  lemma SplitPiecesFree<T>(s: seq<T>, sep: seq<T>)
    requires |sep| > 0
    ensures forall k :: 0 <= k < |Split(s, sep)| ==> !Contains(Split(s, sep)[k], sep)
  {
    SplitLeftmost(s, sep);
    var r := Split(s, sep);
    forall k | 0 <= k < |r| - 1 ensures !Contains(r[k], sep) {
      ContainsParts(r[k], sep[..|sep| - 1], sep);
    }
  }

  /** The first piece is a prefix of `s`, and it is all of `s` or is followed by `sep`. */
  lemma SplitFirst<T>(s: seq<T>, sep: seq<T>)
    requires |sep| > 0
    ensures var p := Split(s, sep)[0];
            p <= s && (p == s || OccursAt(s, sep, |p|))
  {
    if FindFirst(s, sep).Some? {
      SplitSome(s, sep, FindFirst(s, sep).value);
    }
  }

  /** The last piece is a suffix of `s`. */
  lemma SplitLastSuffix<T>(s: seq<T>, sep: seq<T>)
    requires |sep| > 0
    ensures var r := Split(s, sep);
            |r[|r| - 1]| <= |s| && s[|s| - |r[|r| - 1]|..] == r[|r| - 1]
  {
    SplitJoin(s, sep);
    JoinLastSuffix(sep, Split(s, sep));
  }

  /** The last part joined ends the joined sequence. */
  lemma {:induction false} JoinLastSuffix<T>(sep: seq<T>, parts: seq<seq<T>>)
    requires |parts| >= 1
    ensures var j, l := Join(sep, parts), parts[|parts| - 1];
            |l| <= |j| && j[|j| - |l|..] == l
    decreases |parts|
  {
    if |parts| > 1 {
      var tail := parts[1..];
      JoinLastSuffix(sep, tail);
      var j, jt, l := Join(sep, parts), Join(sep, tail), parts[|parts| - 1];
      assert l == tail[|tail| - 1];
      assert j == parts[0] + sep + jt;
      assert j[|j| - |l|..] == jt[|jt| - |l|..];
    }
  }

  /** With two pieces or more, the separator sits right before the last piece. */
  lemma {:induction false} JoinLastSep<T>(sep: seq<T>, parts: seq<seq<T>>)
    requires |parts| >= 2
    ensures var j, l := Join(sep, parts), parts[|parts| - 1];
            |l| + |sep| <= |j| && OccursAt(j, sep, |j| - |l| - |sep|)
    decreases |parts|
  {
    var j, l := Join(sep, parts), parts[|parts| - 1];
    var tail := parts[1..];
    assert j == parts[0] + sep + Join(sep, tail);
    if |parts| == 2 {
      assert j[|parts[0]|..|parts[0]| + |sep|] == sep;
    } else {
      JoinLastSep(sep, tail);
      var jt := Join(sep, tail);
      assert l == tail[|tail| - 1];
      var k := |jt| - |l| - |sep|;
      assert j[|j| - |l| - |sep|..|j| - |l|] == jt[k..k + |sep|];
    }
  }

  /** A separator that occurs cuts `s` into two pieces or more. */
  lemma SplitCuts<T>(s: seq<T>, sep: seq<T>)
    requires |sep| > 0 && Contains(s, sep)
    ensures |Split(s, sep)| >= 2
  {
    FindContains(s, sep);
    SplitSome(s, sep, FindFirst(s, sep).value);
  }

  /** When `sep` occurs in `s`, the last piece of the split follows an occurrence of `sep`
      that ends `s` but for that piece. */
  lemma {:induction false} SplitLastSep<T>(s: seq<T>, sep: seq<T>)
    requires |sep| > 0 && Contains(s, sep)
    ensures var r := Split(s, sep);
            |r[|r| - 1]| + |sep| <= |s| && OccursAt(s, sep, |s| - |r[|r| - 1]| - |sep|)
  {
    SplitCuts(s, sep);
    SplitJoin(s, sep);
    JoinedLastSep(s, sep, Split(s, sep));
  }

  lemma JoinedLastSep<T>(s: seq<T>, sep: seq<T>, parts: seq<seq<T>>)
    requires |parts| >= 2 && Join(sep, parts) == s
    ensures |parts[|parts| - 1]| + |sep| <= |s| && OccursAt(s, sep, |s| - |parts[|parts| - 1]| - |sep|)
  {
    JoinLastSep(sep, parts);
  }

  /** The last element of a non-empty list, `xs[-1]`. */
  function Last<T>(xs: seq<T>): T
    requires |xs| > 0
  {
    xs[|xs| - 1]
  }

  /** A slice bound `k` of a sequence of length `n`, clamped the way Python clamps it
      (a negative bound counts from the end). */
  function Clamp(k: int, n: nat): (r: nat)
    ensures r <= n
  {
    if k < 0 then (if n + k < 0 then 0 else n + k)
    else if k > n then n
    else k
  }

  /** `s[lo:hi]`. */
  function Slice<T>(s: seq<T>, lo: int, hi: int): seq<T>
  {
    var a, b := Clamp(lo, |s|), Clamp(hi, |s|);
    if a <= b then s[a..b] else []
  }

  /** `s[:k]`. */
  function Take<T>(s: seq<T>, k: int): seq<T>
  {
    s[..Clamp(k, |s|)]
  }

  /** `s[k:]`. */
  function Drop<T>(s: seq<T>, k: int): seq<T>
  {
    s[Clamp(k, |s|)..]
  }

  /** `s` with every element `c` removed. */
  function DeleteAll<T(==)>(s: seq<T>, c: T): (r: seq<T>)
  {
    if s == [] then []
    else (if s[0] == c then [] else [s[0]]) + DeleteAll(s[1..], c)
  }

  lemma {:induction false} DeleteAllAppend<T>(a: seq<T>, b: seq<T>, c: T)
    ensures DeleteAll(a + b, c) == DeleteAll(a, c) + DeleteAll(b, c)
    decreases |a|
  {
    if a == [] {
      assert a + b == b;
    } else {
      assert (a + b)[1..] == a[1..] + b;
      DeleteAllAppend(a[1..], b, c);
    }
  }

  lemma {:induction false} DeleteAllAbsent<T>(s: seq<T>, c: T)
    requires c !in s
    ensures DeleteAll(s, c) == s
    decreases |s|
  {
    if s != [] {
      DeleteAllAbsent(s[1..], c);
    }
  }

  /** Deleting `c` from pieces joined with `c`, none of which holds `c`, concatenates them. */
  lemma {:induction false} DeleteAllJoin<T>(parts: seq<seq<T>>, c: T)
    requires forall k :: 0 <= k < |parts| ==> c !in parts[k]
    ensures DeleteAll(Join([c], parts), c) == Concat(parts)
    decreases |parts|
  {
    if |parts| == 1 {
      DeleteAllAbsent(parts[0], c);
      assert Concat(parts) == parts[0] + Concat(parts[1..]);
    } else if |parts| > 1 {
      DeleteAllJoin(parts[1..], c);
      DeleteAllAppend(parts[0] + [c], Join([c], parts[1..]), c);
      DeleteAllAppend(parts[0], [c], c);
      DeleteAllAbsent(parts[0], c);
      assert parts[0] + [c] + Join([c], parts[1..]) == Join([c], parts);
    }
  }

  /** No piece holding `c` means no `c` in their concatenation. */
  lemma {:induction false} ConcatAvoids<T>(parts: seq<seq<T>>, c: T)
    requires forall k :: 0 <= k < |parts| ==> c !in parts[k]
    ensures c !in Concat(parts)
    decreases |parts|
  {
    if parts != [] {
      ConcatAvoids(parts[1..], c);
    }
  }

  lemma {:induction false} ConcatAppend<T>(a: seq<seq<T>>, b: seq<seq<T>>)
    ensures Concat(a + b) == Concat(a) + Concat(b)
    decreases |a|
  {
    if a == [] {
      assert a + b == b;
    } else {
      assert (a + b)[1..] == a[1..] + b;
      ConcatAppend(a[1..], b);
    }
  }

  /** `os.path.join(a, b)` on POSIX. */
  function PathJoin(a: string, b: string): string
  {
    if |b| > 0 && b[0] == '/' then b
    else if a == [] || a[|a| - 1] == '/' then a + b
    else a + "/" + b
  }

  /** `os.path.basename(p)`: what follows the last '/'. */
  function Basename(p: string): string
  {
    Last(Split(p, "/"))
  }
}

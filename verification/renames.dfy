/** Renames inside one directory, on its listing. An operation plans a list of renames,
    reports it, and carries it out only in live mode (`no_test`). */
module Renames {
  import opened Results

  /** `os.rename(src, dst)` with both names in the same directory. */
  datatype Rename = Rename(src: string, dst: string)

  /** A path a glob matched and its listing; None when it is not a directory, where
      `os.listdir` raises. */
  datatype Folder = Folder(path: string, listing: Option<seq<string>>)

  /** What an operation reports and leaves behind: the renames it planned (the lines it
      prints) and the directory listing afterwards. */
  datatype Renamed = Renamed(plan: seq<Rename>, listing: seq<string>)

  ghost predicate Distinct(s: seq<string>)
  {
    forall i, j :: 0 <= i < j < |s| ==> s[i] != s[j]
  }

  /** A listing has no repeated name exactly when no name is counted twice. */
  lemma {:induction false} DistinctCounts(s: seq<string>)
    ensures Distinct(s) <==> forall x :: multiset(s)[x] <= 1
    decreases |s|
  {
    if s != [] {
      DistinctCounts(s[1..]);
      assert s == [s[0]] + s[1..];
      assert Distinct(s) <==> s[0] !in s[1..] && Distinct(s[1..]) by {
        if s[0] !in s[1..] && Distinct(s[1..]) {
          forall i, j | 0 <= i < j < |s| ensures s[i] != s[j] {
            if i > 0 {
              assert s[i] == s[1..][i - 1] && s[j] == s[1..][j - 1];
            } else {
              assert s[j] == s[1..][j - 1];
            }
          }
        }
        if Distinct(s) {
          forall i, j | 0 <= i < j < |s| - 1 ensures s[1..][i] != s[1..][j] {
            assert s[1..][i] == s[i + 1] && s[1..][j] == s[j + 1];
          }
        }
      }
      if forall x :: multiset(s)[x] <= 1 {
        assert multiset(s)[s[0]] == 1 + multiset(s[1..])[s[0]];
        forall x ensures multiset(s[1..])[x] <= 1 {
          assert multiset(s)[x] >= multiset(s[1..])[x];
        }
      }
    }
  }

  /** The listing after renaming `src` to `dst`: the entry `src` now reads `dst`, and an
      entry already called `dst` is replaced by it. */
  function Replace(names: seq<string>, r: Rename): (res: seq<string>)
    requires r.src != r.dst
    ensures forall y :: y in res <==> (y == r.dst && r.src in names) || (y in names && y != r.src && y != r.dst)
  {
    if names == [] then []
    else
      assert names == [names[0]] + names[1..];
      (if names[0] == r.src then [r.dst] else if names[0] == r.dst then [] else [names[0]])
        + Replace(names[1..], r)
  }

  /** One rename on a listing. Renaming an entry that is not there is the OSError
      `os.rename` raises. */
  function RenameIn(names: seq<string>, r: Rename): (res: Option<seq<string>>)
    ensures res.None? <==> r.src !in names
    ensures res.Some? ==> forall y :: y in res.value <==> y == r.dst || (y in names && y != r.src)
  {
    if r.src !in names then None
    else if r.src == r.dst then Some(names)
    else Some(Replace(names, r))
  }

  /** The renames of `plan` done one after the other; None once one of them fails. */
  function ApplyPlan(names: seq<string>, plan: seq<Rename>): Option<seq<string>>
    decreases |plan|
  {
    if plan == [] then Some(names)
    else match RenameIn(names, plan[0])
      case None => None
      case Some(n) => ApplyPlan(n, plan[1..])
  }

  /** What the scripts do with a plan: report it, and carry it out only when `noTest`. */
  function Perform(names: seq<string>, plan: seq<Rename>, noTest: bool): Result<Renamed>
  {
    if !noTest then Success(Renamed(plan, names))
    else match ApplyPlan(names, plan)
      case None => Failure(OSError)
      case Some(n) => Success(Renamed(plan, n))
  }

  /** After a plan has gone through, every name in the directory is the target of one of
      its renames, or was there before and was the source of none. */
  lemma {:induction false} ApplyPlanNames(names: seq<string>, plan: seq<Rename>)
    requires ApplyPlan(names, plan).Some?
    ensures forall y :: y in ApplyPlan(names, plan).value ==>
              (exists k :: 0 <= k < |plan| && plan[k].dst == y) ||
              (y in names && forall k :: 0 <= k < |plan| ==> plan[k].src != y)
    decreases |plan|
  {
    if plan != [] {
      var n1 := RenameIn(names, plan[0]).value;
      ApplyPlanNames(n1, plan[1..]);
      forall y | y in ApplyPlan(names, plan).value
        ensures (exists k :: 0 <= k < |plan| && plan[k].dst == y) ||
                (y in names && forall k :: 0 <= k < |plan| ==> plan[k].src != y)
      {
        if exists k :: 0 <= k < |plan[1..]| && plan[1..][k].dst == y {
          var k :| 0 <= k < |plan[1..]| && plan[1..][k].dst == y;
          assert plan[k + 1].dst == y;
        } else if y == plan[0].dst {
        } else {
          forall k | 0 <= k < |plan| ensures plan[k].src != y {
            if k > 0 {
              assert plan[k] == plan[1..][k - 1];
            }
          }
        }
      }
    }
  }

  /** A plan goes through when every source is in the directory and no source is
      renamed twice (a target that is already there is replaced, as on POSIX). */
  lemma {:induction false} ApplyPlanSucceeds(names: seq<string>, plan: seq<Rename>)
    requires forall k :: 0 <= k < |plan| ==> plan[k].src in names
    requires forall j, k :: 0 <= j < k < |plan| ==> plan[j].src != plan[k].src
    ensures ApplyPlan(names, plan).Some?
    decreases |plan|
  {
    if plan != [] {
      var n1 := RenameIn(names, plan[0]).value;
      var rest := plan[1..];
      forall k | 0 <= k < |rest| ensures rest[k].src in n1 {
        assert rest[k] == plan[k + 1];
      }
      forall j, k | 0 <= j < k < |rest| ensures rest[j].src != rest[k].src {
        assert rest[j] == plan[j + 1] && rest[k] == plan[k + 1];
      }
      ApplyPlanSucceeds(n1, rest);
    }
  }

  /** Applying `p + q` is applying `p` and then `q` to what it leaves. */
  lemma {:induction false} ApplyPlanAppend(names: seq<string>, p: seq<Rename>, q: seq<Rename>)
    ensures ApplyPlan(names, p + q) ==
              match ApplyPlan(names, p)
              case None => None
              case Some(n) => ApplyPlan(n, q)
    decreases |p|
  {
    if p == [] {
      assert p + q == q;
    } else {
      assert (p + q)[0] == p[0] && (p + q)[1..] == p[1..] + q;
      match RenameIn(names, p[0])
      case None =>
      case Some(n1) =>
        ApplyPlanAppend(n1, p[1..], q);
    }
  }

  /** A rename whose source is absent, with no rename of the plan producing that name,
      makes the plan fail. */
  lemma {:induction false} AbsentSourceFails(names: seq<string>, plan: seq<Rename>, x: string, k: nat)
    requires x !in names
    requires k < |plan| && plan[k].src == x
    requires forall i :: 0 <= i < |plan| ==> plan[i].dst != x
    ensures ApplyPlan(names, plan).None?
    decreases |plan|
  {
    if plan[0].src != x {
      match RenameIn(names, plan[0])
      case None =>
      case Some(n1) =>
        assert plan[1..][k - 1] == plan[k];
        AbsentSourceFails(n1, plan[1..], x, k - 1);
    }
  }

  /** Renaming the same entry twice fails the second time, unless some rename of the plan
      brings that name back. */
  lemma {:induction false} RenameTwiceFails(names: seq<string>, plan: seq<Rename>, j: nat, k: nat)
    requires j < k < |plan| && plan[j].src == plan[k].src
    requires forall i :: 0 <= i < |plan| ==> plan[i].dst != plan[j].src
    ensures ApplyPlan(names, plan).None?
    decreases j
  {
    match RenameIn(names, plan[0])
    case None =>
    case Some(n1) =>
      assert plan[1..][k - 1] == plan[k];
      if j == 0 {
        AbsentSourceFails(n1, plan[1..], plan[0].src, k - 1);
      } else {
        assert plan[1..][j - 1] == plan[j];
        RenameTwiceFails(n1, plan[1..], j - 1, k - 1);
      }
  }

  /** The rename loop of the scripts: for each entry that `keep` selects, in listing order,
      a rename to `target` of it. */
  function PlanFor(entries: seq<string>, keep: string -> bool, target: string -> string): seq<Rename>
  {
    if entries == [] then []
    else
      var x := entries[|entries| - 1];
      PlanFor(entries[..|entries| - 1], keep, target) + (if keep(x) then [Rename(x, target(x))] else [])
  }

  lemma {:induction false} PlanForAppend(a: seq<string>, b: seq<string>, keep: string -> bool, target: string -> string)
    ensures PlanFor(a + b, keep, target) == PlanFor(a, keep, target) + PlanFor(b, keep, target)
    decreases |b|
  {
    if b == [] {
      assert a + b == a;
    } else {
      var b' := b[..|b| - 1];
      assert (a + b)[..|a + b| - 1] == a + b';
      PlanForAppend(a, b', keep, target);
    }
  }

  /** The plan renames exactly the selected entries, each to its target, in listing order. */
  lemma {:induction false} PlanForSpec(entries: seq<string>, keep: string -> bool, target: string -> string)
    ensures forall k :: 0 <= k < |PlanFor(entries, keep, target)| ==>
              && PlanFor(entries, keep, target)[k].src in entries
              && keep(PlanFor(entries, keep, target)[k].src)
              && PlanFor(entries, keep, target)[k].dst == target(PlanFor(entries, keep, target)[k].src)
    ensures forall x :: x in entries && keep(x) ==>
              exists k :: 0 <= k < |PlanFor(entries, keep, target)| && PlanFor(entries, keep, target)[k].src == x
    decreases |entries|
  {
    if entries != [] {
      var init := entries[..|entries| - 1];
      PlanForSpec(init, keep, target);
      var plan := PlanFor(entries, keep, target);
      var head := PlanFor(init, keep, target);
      forall x | x in entries && keep(x) ensures exists k :: 0 <= k < |plan| && plan[k].src == x {
        if x in init {
          var k :| 0 <= k < |head| && head[k].src == x;
          assert plan[k] == head[k];
        } else {
          assert plan[|plan| - 1].src == x;
        }
      }
      forall k | 0 <= k < |plan|
        ensures plan[k].src in entries && keep(plan[k].src) && plan[k].dst == target(plan[k].src)
      {
        if k < |head| {
          assert plan[k] == head[k];
          assert head[k].src in init;
        } else {
          assert plan[k].src == entries[|entries| - 1];
        }
      }
    }
  }

  /** An entry listed twice and selected is renamed twice, and the second rename fails
      when no target of the plan is that entry. */
  lemma PlanForTwiceFails(names: seq<string>, a: seq<string>, b: seq<string>,
                          keep: string -> bool, target: string -> string, x: string)
    requires x in a && x in b && keep(x)
    requires forall y :: target(y) != x
    ensures ApplyPlan(names, PlanFor(a + b, keep, target)).None?
  {
    var p1, p2 := PlanFor(a, keep, target), PlanFor(b, keep, target);
    var plan := PlanFor(a + b, keep, target);
    PlanForAppend(a, b, keep, target);
    PlanForSpec(a, keep, target);
    PlanForSpec(b, keep, target);
    PlanForSpec(a + b, keep, target);
    var j :| 0 <= j < |p1| && p1[j].src == x;
    var k :| 0 <= k < |p2| && p2[k].src == x;
    assert plan[j] == p1[j] && plan[|p1| + k] == p2[k];
    RenameTwiceFails(names, plan, j, |p1| + k);
  }
}

/** `add_sub` (identical in makebids/makebids.py and makebids.py): give every bare
    subject folder of the dataset root the BIDS prefix 'sub-'. The folder is named
    by its entry in the root listing; both paths are joined onto the same root. */
module SubjectPrefix {
  import opened Results
  import opened Strings
  import opened Sorting
  import opened Renames

  const MARKER := "sub-"

  /** The filter of the list comprehension: mentions `subjpre`, not yet prefixed. */
  predicate IsCandidate(subjpre: string, x: string)
  {
    Contains(x, subjpre) && !Contains(x, MARKER)
  }

  /** `[x for x in sorted(os.listdir(data_dir)) if subjpre in x and 'sub-' not in x]`. */
  function Candidates(listing: seq<string>, subjpre: string): seq<string>
  {
    Filter(Sort(listing), x => IsCandidate(subjpre, x))
  }

  /** One rename per candidate, from its name to 'sub-' followed by that name. */
  function AddSubPlan(listing: seq<string>, subjpre: string): seq<Rename>
  {
    var subjs := Candidates(listing, subjpre);
    seq(|subjs|, i requires 0 <= i < |subjs| => Rename(subjs[i], MARKER + subjs[i]))
  }

  /** `add_sub(data_dir, subjpre, ses, no_test)`: print each planned rename and do it
      when `noTest`. `ses` is unused by the source and left out. */
  method AddSub(listing: seq<string>, subjpre: string, noTest: bool) returns (r: Result<Renamed>)
    ensures r == Perform(listing, AddSubPlan(listing, subjpre), noTest)
    ensures !noTest ==> r == Success(Renamed(AddSubPlan(listing, subjpre), listing))
  {
    var subjs := Candidates(listing, subjpre);
    ghost var full := AddSubPlan(listing, subjpre);
    var plan: seq<Rename> := [];
    var names := listing;
    for i := 0 to |subjs|
      invariant plan == full[..i]
      invariant noTest ==> ApplyPlan(names, full[i..]) == ApplyPlan(listing, full)
      invariant !noTest ==> names == listing
    {
      var step := Rename(subjs[i], MARKER + subjs[i]);
      assert full[i..][0] == step && full[i..][1..] == full[i + 1..];
      plan := plan + [step];
      if noTest {
        match RenameIn(names, step)
        case None =>
          return Failure(OSError);
        case Some(n) =>
          names := n;
      }
    }
    assert plan == full;
    return Success(Renamed(plan, names));
  }

  /** The candidates are the listing entries that mention `subjpre` and lack 'sub-',
      each as often as it is listed, in sorted order. */
  lemma CandidatesSelect(listing: seq<string>, subjpre: string)
    ensures Sorted(Candidates(listing, subjpre))
    ensures forall x :: multiset(Candidates(listing, subjpre))[x] ==
                          if IsCandidate(subjpre, x) then multiset(listing)[x] else 0
    ensures forall x :: x in Candidates(listing, subjpre) <==> x in listing && IsCandidate(subjpre, x)
  {
    var p := x => IsCandidate(subjpre, x);
    SortSorted(listing);
    FilterSorted(Sort(listing), p);
    forall x ensures multiset(Candidates(listing, subjpre))[x] ==
                       if IsCandidate(subjpre, x) then multiset(listing)[x] else 0 {
      FilterCount(Sort(listing), p, x);
    }
  }

  /** Every planned rename goes from a candidate to 'sub-' + that candidate, and the target
      carries the marker its source lacked. */
  lemma AddSubTargets(listing: seq<string>, subjpre: string)
    ensures var plan := AddSubPlan(listing, subjpre);
            |plan| == |Candidates(listing, subjpre)| &&
            forall k :: 0 <= k < |plan| ==>
              && plan[k].src == Candidates(listing, subjpre)[k]
              && plan[k].dst == MARKER + plan[k].src
              && Contains(plan[k].dst, MARKER) && !Contains(plan[k].src, MARKER)
  {
    var plan := AddSubPlan(listing, subjpre);
    var subjs := Candidates(listing, subjpre);
    forall k | 0 <= k < |plan| ensures Contains(plan[k].dst, MARKER) && !Contains(plan[k].src, MARKER) {
      assert OccursAt(plan[k].dst, MARKER, 0);
      assert subjs[k] in subjs;
      CandidatesSelect(listing, subjpre);
    }
  }

  /** On a listing without repeated names (as `os.listdir` gives) the renames all go through. */
  lemma AddSubSucceeds(listing: seq<string>, subjpre: string)
    requires Distinct(listing)
    ensures ApplyPlan(listing, AddSubPlan(listing, subjpre)).Some?
  {
    var plan := AddSubPlan(listing, subjpre);
    var subjs := Candidates(listing, subjpre);
    CandidatesSelect(listing, subjpre);
    DistinctCounts(listing);
    forall x ensures multiset(subjs)[x] <= 1 {
    }
    DistinctCounts(subjs);
    forall k | 0 <= k < |plan| ensures plan[k].src in listing {
      assert subjs[k] in subjs;
    }
    ApplyPlanSucceeds(listing, plan);
  }

  /** Running `add_sub` again after its renames went through selects nothing: every new
      name carries 'sub-', and every other candidate was renamed. */
  lemma AddSubRerunSelectsNothing(listing: seq<string>, subjpre: string)
    requires ApplyPlan(listing, AddSubPlan(listing, subjpre)).Some?
    ensures Candidates(ApplyPlan(listing, AddSubPlan(listing, subjpre)).value, subjpre) == []
  {
    var after := ApplyPlan(listing, AddSubPlan(listing, subjpre)).value;
    var c := Candidates(after, subjpre);
    CandidatesSelect(after, subjpre);
    forall y ensures multiset(c)[y] == 0 {
      if y in after {
        RenamedNotCandidate(listing, subjpre, y);
      }
    }
    assert multiset(c) == multiset{};
    assert |c| == |multiset(c)|;
  }

  lemma RenamedNotCandidate(listing: seq<string>, subjpre: string, y: string)
    requires ApplyPlan(listing, AddSubPlan(listing, subjpre)).Some?
    requires y in ApplyPlan(listing, AddSubPlan(listing, subjpre)).value
    ensures !IsCandidate(subjpre, y)
  {
    var plan := AddSubPlan(listing, subjpre);
    var subjs := Candidates(listing, subjpre);
    ApplyPlanNames(listing, plan);
    AddSubTargets(listing, subjpre);
    if exists k :: 0 <= k < |plan| && plan[k].dst == y {
      var k :| 0 <= k < |plan| && plan[k].dst == y;
      assert Contains(y, MARKER);
    } else {
      assert y !in subjs by {
        forall k | 0 <= k < |subjs| ensures subjs[k] != y {
          assert plan[k].src == subjs[k];
        }
      }
      CandidatesSelect(listing, subjpre);
    }
  }
}

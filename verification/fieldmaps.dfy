/** `fix_fieldmaps` and its helper `choose` (makebids/makebids.py): point each EPI fieldmap
    at the runs it corrects (`IntendedFor`) and record its `TotalReadoutTime`. */
module Fieldmaps {
  import opened Results
  import opened Strings
  import opened Sorting
  import opened Metadata
  import opened Entities

  /** `\w` of Python 2's `re` on byte strings: ASCII letters, digits and '_'. */
  predicate IsWord(c: char)
  {
    ('a' <= c <= 'z') || ('A' <= c <= 'Z') || ('0' <= c <= '9') || c == '_'
  }

  /** `s.replace(a, b)` for one-character `a` and `b`. */
  function ReplaceChar(s: string, a: char, b: char): (r: string)
    ensures |r| == |s|
    ensures forall i :: 0 <= i < |s| ==> r[i] == (if s[i] == a then b else s[i])
  {
    if s == [] then [] else [if s[0] == a then b else s[0]] + ReplaceChar(s[1..], a, b)
  }

  /** The greedy `\w+` at the start of `s`: its longest prefix of word characters. */
  function WordRun(s: string): (r: string)
    ensures r <= s
    ensures forall c :: c in r ==> IsWord(c)
    ensures r == s || !IsWord(s[|r|])
  {
    if s == [] || !IsWord(s[0]) then []
    else
      assert s == [s[0]] + s[1..];
      [s[0]] + WordRun(s[1..])
  }

  /** `(?<=acq-)\w+` can match at position `p` of `s`. */
  predicate AcqAt(s: string, p: int)
  {
    4 <= p < |s| && s[p - 4..p] == "acq-" && IsWord(s[p])
  }

  /** The leftmost position from `p` on where the pattern can match. */
  function SearchFrom(s: string, p: nat): (r: Option<nat>)
    ensures r.Some? ==> p <= r.value && AcqAt(s, r.value) && forall j :: p <= j < r.value ==> !AcqAt(s, j)
    ensures r.None? ==> forall j :: p <= j ==> !AcqAt(s, j)
    decreases |s| - p
  {
    if p >= |s| then None
    else if AcqAt(s, p) then Some(p)
    else SearchFrom(s, p + 1)
  }

  /** `search('(?<=acq-)\w+', name.replace('_', ' ')).group(0)` when `search` is `re.search`:
      the acquisition label after the first 'acq-' that a word character follows; None
      where the match object is None and `.group` raises. */
  function AcqTag(name: string): Option<string>
  {
    var s := ReplaceChar(name, '_', ' ');
    match SearchFrom(s, 0)
    case None => None
    case Some(p) => Some(WordRun(s[p..]))
  }

  /** There is a tag exactly when the pattern matches somewhere; the tag is non-empty, holds
      no '_' and is read at a position where the pattern matches. That position is the
      leftmost one, and the tag is the whole run of word characters there (`\w+` is greedy). */
  lemma AcqTagSpec(name: string)
    ensures var s, r := ReplaceChar(name, '_', ' '), AcqTag(name);
            && (r.Some? <==> exists p :: AcqAt(s, p))
            && (r.Some? ==> |r.value| > 0 && '_' !in r.value)
            && (r.Some? ==> exists p :: AcqAt(s, p) && r.value <= s[p..])
            && (r.Some? ==> forall c :: c in r.value ==> IsWord(c))
            && (r.Some? ==> exists p :: && AcqAt(s, p) && (forall q :: 0 <= q < p ==> !AcqAt(s, q))
                                       && r.value <= s[p..]
                                       && (p + |r.value| == |s| || !IsWord(s[p + |r.value|])))
  {
    var s := ReplaceChar(name, '_', ' ');
    match SearchFrom(s, 0)
    case None =>
    case Some(p) =>
      assert AcqTag(name) == Some(WordRun(s[p..]));
      assert forall i :: 0 <= i < |s| ==> s[i] != '_';
      TagAt(s, p);
  }

  /** At a match position of a string without '_', the greedy run is a non-empty tag of
      word characters, none of them '_', that no word character follows. */
  lemma TagAt(s: string, p: nat)
    requires AcqAt(s, p) && forall i :: 0 <= i < |s| ==> s[i] != '_'
    ensures var t := WordRun(s[p..]);
            && |t| > 0 && '_' !in t && (forall c :: c in t ==> IsWord(c)) && t <= s[p..]
            && (p + |t| == |s| || !IsWord(s[p + |t|]))
  {
    var t := WordRun(s[p..]);
    assert forall i :: 0 <= i < |t| ==> t[i] == s[p + i];
    assert t[0] == s[p];
    if p + |t| < |s| {
      assert s[p..][|t|] == s[p + |t|];
    }
  }

  /** `[n for n in niftis if dr in n and 'fmap' not in n]`. */
  function Targets(niftis: seq<string>, dr: string): seq<string>
  {
    Filter(niftis, n => Contains(n, dr) && !Contains(n, "fmap"))
  }

  /** The runs a fieldmap may be intended for are the listed NIfTI files that mention its
      acquisition label and are not fieldmaps themselves, each as often as listed. */
  lemma TargetsSpec(niftis: seq<string>, dr: string)
    ensures forall n :: multiset(Targets(niftis, dr))[n] ==
              if Contains(n, dr) && !Contains(n, "fmap") then multiset(niftis)[n] else 0
    ensures forall n :: n in Targets(niftis, dr) <==> n in niftis && Contains(n, dr) && !Contains(n, "fmap")
  {
    var keep := n => Contains(n, dr) && !Contains(n, "fmap");
    assert Targets(niftis, dr) == Filter(niftis, keep);
    forall n ensures multiset(Targets(niftis, dr))[n] ==
                     if Contains(n, dr) && !Contains(n, "fmap") then multiset(niftis)[n] else 0 {
      FilterCount(niftis, keep, n);
    }
  }

  /** `x.split('%s/' % subj)[-1]`: the path relative to the subject folder. */
  function Relative(x: string, subj: string): (r: string)
    ensures |r| <= |x| && x[|x| - |r|..] == r
    ensures !Contains(r, subj + "/")
    ensures !Contains(x, subj + "/") ==> r == x
    ensures Contains(x, subj + "/") ==>
              |r| + |subj| + 1 <= |x| && OccursAt(x, subj + "/", |x| - |r| - |subj| - 1)
  {
    After(x, subj + "/")
  }

  /** The similarity `choose` ranks options by: the score of the two base names. */
  function Score(sim: (string, string) -> real, opt: string, target: string): real
  {
    sim(Basename(opt), Basename(target))
  }

  /** `ratio` and `match` of `choose` after some options. */
  datatype Pick = Pick(ratio: real, best: Option<string>)

  /** The target branch of `choose`: an option replaces the best one so far only when it
      scores strictly higher, starting from a ratio of 0 and no match. */
  function Best(opts: seq<string>, target: string, sim: (string, string) -> real): Pick
  {
    if opts == [] then Pick(0.0, None)
    else
      var prev := Best(opts[..|opts| - 1], target, sim);
      var opt := opts[|opts| - 1];
      var s := Score(sim, opt, target);
      if s > prev.ratio then Pick(s, Some(opt)) else prev
  }

  /** `choose(opts, target)` for a non-empty target; printing `basename(None)` raises when no
      option scored above 0. */
  function ChooseSpec(opts: seq<string>, target: string, sim: (string, string) -> real): Result<string>
  {
    match Best(opts, target, sim).best
    case None => Failure(AttributeError)
    case Some(m) => Success(m)
  }

  /** The choice is the first option of maximal score, and that score is positive; there is
      none when no option scores above 0. */
  lemma {:induction false} BestSpec(opts: seq<string>, target: string, sim: (string, string) -> real)
    ensures Best(opts, target, sim).best.None? <==> forall j :: 0 <= j < |opts| ==> Score(sim, opts[j], target) <= 0.0
    ensures Best(opts, target, sim).best.None? ==> Best(opts, target, sim).ratio == 0.0
    ensures Best(opts, target, sim).best.Some? ==>
              var m := Best(opts, target, sim).best.value;
              && Best(opts, target, sim).ratio == Score(sim, m, target) > 0.0
              && exists i :: 0 <= i < |opts| && opts[i] == m &&
                   (forall j :: 0 <= j < i ==> Score(sim, opts[j], target) < Score(sim, m, target)) &&
                   (forall j :: 0 <= j < |opts| ==> Score(sim, opts[j], target) <= Score(sim, m, target))
    decreases |opts|
  {
    if opts != [] {
      var init := opts[..|opts| - 1];
      BestSpec(init, target, sim);
      assert forall j :: 0 <= j < |init| ==> init[j] == opts[j];
      var prev := Best(init, target, sim);
      var last := |opts| - 1;
      if Score(sim, opts[last], target) > prev.ratio {
        var m := opts[last];
        forall j | 0 <= j < last ensures Score(sim, opts[j], target) < Score(sim, m, target) {
          assert Score(sim, init[j], target) <= prev.ratio;
        }
      } else if prev.best.Some? {
        var m := prev.best.value;
        var i :| 0 <= i < |init| && init[i] == m &&
                 (forall j :: 0 <= j < i ==> Score(sim, init[j], target) < Score(sim, m, target)) &&
                 (forall j :: 0 <= j < |init| ==> Score(sim, init[j], target) <= Score(sim, m, target));
        assert opts[i] == m;
      }
    }
  }

  /** `choose(opts, target)` with a target; the interactive branch taken for an empty
      target is not modelled. */
  method Choose(opts: seq<string>, target: string, sim: (string, string) -> real) returns (r: Result<string>)
    requires |target| > 0
    ensures r == ChooseSpec(opts, target, sim)
  {
    var ratio := 0.0;
    var best: Option<string> := None;
    for i := 0 to |opts|
      invariant Best(opts[..i], target, sim) == Pick(ratio, best)
    {
      assert opts[..i + 1][..i] == opts[..i];
      var s := sim(Basename(opts[i]), Basename(target));
      if s > ratio {
        ratio, best := s, Some(opts[i]);
      }
    }
    assert opts[..|opts|] == opts;
    if best.None? {
      return Failure(AttributeError);
    }
    return Success(best.value);
  }

  /** `IntendedFor`: for a functional acquisition every target run, else the one `choose`
      picks, each relative to the subject folder. */
  function Intended(fmap: string, niftis: seq<string>, dr: string, subj: string,
                    sim: (string, string) -> real): Result<Json>
  {
    var targets := Targets(niftis, dr);
    if Contains(dr, "func") then
      Success(JArr(seq(|targets|, i requires 0 <= i < |targets| => JStr(Relative(targets[i], subj)))))
    else
      match ChooseSpec(targets, fmap, sim)
      case Failure(e) => Failure(e)
      case Success(m) => Success(JStr(Relative(m, subj)))
  }

  /** `fix_fieldmaps(bids_dir, no_test)` as written: `search` is never imported, so the
      first fieldmap raises NameError before anything is written. */
  function FixFieldmaps(docs: map<string, Json>, fmaps: seq<string>, noTest: bool): (r: Result<map<string, Json>>)
    ensures r.Success? <==> fmaps == []
    ensures r.Success? ==> r.value == docs
    ensures r.Failure? ==> r.error == NameError("search")
  {
    if fmaps == [] then Success(docs) else Failure(NameError("search"))
  }

  /** Every run with a fieldmap fails on the unbound `search`. */
  lemma FixFieldmapsUnboundSearch(docs: map<string, Json>, noTest: bool)
    ensures FixFieldmaps(docs, ["sub-01_acq-func_epi.json"], noTest) == Failure(NameError("search"))
  {
  }

  /** `fix_fieldmaps` with `search` bound to `re.search`. `niftis` is what the layout lists
      for the fieldmap's subject, `readout` what `calc_readout` gives for its sidecar. The
      `return` inside the loop ends the run after the first fieldmap. */
  function FixFieldmapsWithSearch(docs: map<string, Json>, fmaps: seq<string>, niftis: seq<string>,
                                  readout: Result<real>, sim: (string, string) -> real, noTest: bool): Result<map<string, Json>>
  {
    if fmaps == [] then Success(docs)
    else
      var fmap := fmaps[0];
      var name := Basename(fmap);
      var subj := Split(name, "_")[0];
      match AcqTag(name)
      case None => Failure(AttributeError)
      case Some(dr) =>
        match Intended(fmap, niftis, dr, subj, sim)
        case Failure(e) => Failure(e)
        case Success(intended) =>
          match readout
          case Failure(e) => Failure(e)
          case Success(t) =>
            var add := map["IntendedFor" := intended, "TotalReadoutTime" := JNum(t)];
            if noTest then AddMetadata(docs, fmap, add) else Success(docs)
  }

  /** Only the first fieldmap is ever handled. */
  lemma OnlyFirstFieldmap(docs: map<string, Json>, fmaps: seq<string>, niftis: seq<string>,
                          readout: Result<real>, sim: (string, string) -> real, noTest: bool)
    requires |fmaps| >= 1
    ensures FixFieldmapsWithSearch(docs, fmaps, niftis, readout, sim, noTest) ==
            FixFieldmapsWithSearch(docs, fmaps[..1], niftis, readout, sim, noTest)
  {
  }

  /** When the run goes through live, the first fieldmap's sidecar gains `IntendedFor` (the
      runs `Intended` names for its `acq-` tag and subject) and `TotalReadoutTime`, keeps
      its other fields, and no other sidecar changes; without
      `noTest` the store is left alone. */
  lemma FixFieldmapsWithSearchWrites(docs: map<string, Json>, fmaps: seq<string>, niftis: seq<string>,
                                     readout: Result<real>, sim: (string, string) -> real, noTest: bool)
    requires |fmaps| >= 1
    requires FixFieldmapsWithSearch(docs, fmaps, niftis, readout, sim, noTest).Success?
    ensures var after := FixFieldmapsWithSearch(docs, fmaps, niftis, readout, sim, noTest).value;
            && after.Keys == docs.Keys
            && (!noTest ==> after == docs)
            && (noTest ==>
                  && fmaps[0] in docs && docs[fmaps[0]].JObj? && after[fmaps[0]].JObj?
                  && after[fmaps[0]].fields.Keys == docs[fmaps[0]].fields.Keys + {"IntendedFor", "TotalReadoutTime"}
                  && after[fmaps[0]].fields["TotalReadoutTime"] == JNum(readout.value)
                  && AcqTag(Basename(fmaps[0])).Some?
                  && Intended(fmaps[0], niftis, AcqTag(Basename(fmaps[0])).value, Split(Basename(fmaps[0]), "_")[0], sim)
                       == Success(after[fmaps[0]].fields["IntendedFor"])
                  && (forall k :: k in docs[fmaps[0]].fields && k !in {"IntendedFor", "TotalReadoutTime"} ==>
                        after[fmaps[0]].fields[k] == docs[fmaps[0]].fields[k])
                  && (forall p :: p in docs && p != fmaps[0] ==> after[p] == docs[p]))
  {
  }

  /** For a functional acquisition the fieldmap is intended for every target run, in
      listing order, each named relative to the subject folder. */
  lemma IntendedFunctional(fmap: string, niftis: seq<string>, dr: string, subj: string,
                           sim: (string, string) -> real)
    requires Contains(dr, "func")
    ensures var targets := Targets(niftis, dr);
            && Intended(fmap, niftis, dr, subj, sim).Success?
            && Intended(fmap, niftis, dr, subj, sim).value.JArr?
            && |Intended(fmap, niftis, dr, subj, sim).value.elems| == |targets|
            && forall i :: 0 <= i < |targets| ==>
                 Intended(fmap, niftis, dr, subj, sim).value.elems[i] == JStr(Relative(targets[i], subj))
    ensures forall x :: x in Intended(fmap, niftis, dr, subj, sim).value.elems <==>
              exists n :: n in niftis && Contains(n, dr) && !Contains(n, "fmap") && x == JStr(Relative(n, subj))
  {
    var targets := Targets(niftis, dr);
    var elems := Intended(fmap, niftis, dr, subj, sim).value.elems;
    assert |elems| == |targets| && forall i :: 0 <= i < |targets| ==> elems[i] == JStr(Relative(targets[i], subj));
    RelativeMembers(elems, targets, subj);
    TargetsSpec(niftis, dr);
    forall x | x in elems
      ensures exists n :: n in niftis && Contains(n, dr) && !Contains(n, "fmap") && x == JStr(Relative(n, subj))
    {
      var n :| n in targets && x == JStr(Relative(n, subj));
    }
  }

  /** A list holding `Relative(t, subj)` for each `t` of `ts`, in order, holds exactly those. */
  lemma RelativeMembers(elems: seq<Json>, ts: seq<string>, subj: string)
    requires |elems| == |ts| && forall i :: 0 <= i < |ts| ==> elems[i] == JStr(Relative(ts[i], subj))
    ensures forall x :: x in elems <==> exists n :: n in ts && x == JStr(Relative(n, subj))
  {
    forall x | exists n :: n in ts && x == JStr(Relative(n, subj)) ensures x in elems {
      var n :| n in ts && x == JStr(Relative(n, subj));
      var i :| 0 <= i < |ts| && ts[i] == n;
      assert elems[i] == x;
    }
  }
}

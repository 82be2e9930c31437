/** `add_taskname` (identical in makebids/makebids.py and makebids.py): put the BIDS
    `TaskName` field into the JSON sidecar of every BOLD run whose path mentions the task. */
module TaskName {
  import opened Results
  import opened Strings
  import opened Metadata

  /** `{'TaskName': '%s' % taskname}`. */
  function Tag(taskname: string): Object
  {
    map["TaskName" := JStr(taskname)]
  }

  /** One sidecar: skipped unless its path mentions `taskname`; otherwise loaded and merged
      with the tag (which fails like `add_metadata` on a missing file or a document that is
      not an object), and written back only when `noTest`. */
  function TaskStep(docs: map<string, Json>, scan: string, taskname: string, noTest: bool): Result<map<string, Json>>
  {
    if !Contains(scan, taskname) then Success(docs)
    else
      match AddMetadata(docs, scan, Tag(taskname))
      case Failure(e) => Failure(e)
      case Success(written) => Success(if noTest then written else docs)
  }

  /** The loop over the sidecars the glob matched, in glob order, stopping at the first error. */
  function TaskRun(docs: map<string, Json>, paths: seq<string>, taskname: string, noTest: bool): Result<map<string, Json>>
  {
    if paths == [] then Success(docs)
    else
      match TaskRun(docs, paths[..|paths| - 1], taskname, noTest)
      case Failure(e) => Failure(e)
      case Success(d) => TaskStep(d, paths[|paths| - 1], taskname, noTest)
  }

  /** A sidecar the run touches: matched by the glob and mentioning the task. */
  predicate Selected(paths: seq<string>, taskname: string, p: string)
  {
    p in paths && Contains(p, taskname)
  }

  /** The store as the run leaves it, described document by document: with `noTest` every
      selected sidecar holds its fields merged with the tag, and everything else is as it was. */
  function Tagged(docs: map<string, Json>, paths: seq<string>, taskname: string, noTest: bool): map<string, Json>
  {
    if !noTest then docs
    else map p | p in docs :: if Selected(paths, taskname, p) && docs[p].JObj?
                              then JObj(Merge(docs[p].fields, Tag(taskname)))
                              else docs[p]
  }

  lemma {:induction false} TaskRunFailureStays(docs: map<string, Json>, a: seq<string>, b: seq<string>, taskname: string, noTest: bool)
    requires TaskRun(docs, a, taskname, noTest).Failure?
    ensures TaskRun(docs, a + b, taskname, noTest) == TaskRun(docs, a, taskname, noTest)
    decreases |b|
  {
    if b == [] {
      assert a + b == a;
    } else {
      assert (a + b)[..|a + b| - 1] == a + b[..|b| - 1];
      TaskRunFailureStays(docs, a, b[..|b| - 1], taskname, noTest);
    }
  }

  /** `add_taskname(bids_dir, taskname, no_test)` on the sidecar store and the paths that
      the glob for BOLD sidecars matches. */
  method AddTaskname(docs: map<string, Json>, paths: seq<string>, taskname: string, noTest: bool)
    returns (r: Result<map<string, Json>>)
    ensures r == TaskRun(docs, paths, taskname, noTest)
  {
    var store := docs;
    for i := 0 to |paths|
      invariant TaskRun(docs, paths[..i], taskname, noTest) == Success(store)
    {
      assert paths[..i + 1][..i] == paths[..i];
      var scan := paths[i];
      if Contains(scan, taskname) {
        var comb := AddMetadata(store, scan, Tag(taskname));
        if comb.Failure? {
          TaskRunFailureStays(docs, paths[..i + 1], paths[i + 1..], taskname, noTest);
          assert paths[..i + 1] + paths[i + 1..] == paths;
          return Failure(comb.error);
        }
        if noTest {
          store := comb.value;
        }
      }
    }
    assert paths[..|paths|] == paths;
    return Success(store);
  }

  /** The run succeeds exactly when every selected sidecar exists and holds an object, and
      then leaves the store as `Tagged` describes. */
  lemma {:induction false} TaskRunSpec(docs: map<string, Json>, paths: seq<string>, taskname: string, noTest: bool)
    ensures TaskRun(docs, paths, taskname, noTest).Success? <==>
              forall p :: Selected(paths, taskname, p) ==> p in docs && docs[p].JObj?
    ensures TaskRun(docs, paths, taskname, noTest).Success? ==>
              TaskRun(docs, paths, taskname, noTest).value == Tagged(docs, paths, taskname, noTest)
    decreases |paths|
  {
    if paths != [] {
      var init, scan := paths[..|paths| - 1], paths[|paths| - 1];
      TaskRunSpec(docs, init, taskname, noTest);
      assert forall p :: p in paths <==> p in init || p == scan;
      var prev := TaskRun(docs, init, taskname, noTest);
      if prev.Success? && Contains(scan, taskname) {
        var d := prev.value;
        assert d == Tagged(docs, init, taskname, noTest);
        assert d.Keys == docs.Keys;
        assert scan in d ==> (d[scan].JObj? <==> docs[scan].JObj?);
        if noTest && scan in docs && docs[scan].JObj? {
          TaggedSnoc(docs, init, scan, taskname);
          assert init + [scan] == paths;
        }
      }
    }
  }

  /** Tagging one more selected sidecar merges the tag into it once more, which leaves a
      sidecar tagged already as it was. */
  lemma TaggedSnoc(docs: map<string, Json>, init: seq<string>, scan: string, taskname: string)
    requires Contains(scan, taskname) && scan in docs && docs[scan].JObj?
    ensures var d := Tagged(docs, init, taskname, true);
            scan in d && d[scan].JObj? &&
            Tagged(docs, init + [scan], taskname, true) == d[scan := JObj(Merge(d[scan].fields, Tag(taskname)))]
  {
    var paths := init + [scan];
    var d := Tagged(docs, init, taskname, true);
    var merged := JObj(Merge(docs[scan].fields, Tag(taskname)));
    assert JObj(Merge(d[scan].fields, Tag(taskname))) == merged by {
      MergeIdempotent(docs[scan].fields, Tag(taskname));
    }
    var t := Tagged(docs, paths, taskname, true);
    assert d[scan := merged] == t by {
      var u := d[scan := merged];
      assert u.Keys == t.Keys;
      forall p | p in t ensures u[p] == t[p] {
        if p != scan {
          assert Selected(paths, taskname, p) <==> Selected(init, taskname, p);
        } else {
          assert Selected(paths, taskname, p);
        }
      }
    }
  }

  /** In a selected sidecar the run writes, `TaskName` is the task and every other field
      keeps its value; other sidecars are untouched, and without `noTest` nothing changes. */
  lemma TaggedFields(docs: map<string, Json>, paths: seq<string>, taskname: string, noTest: bool, p: string)
    requires p in docs
    ensures var after := Tagged(docs, paths, taskname, noTest);
            && p in after
            && (noTest && Selected(paths, taskname, p) && docs[p].JObj? ==>
                  && after[p].JObj?
                  && after[p].fields.Keys == docs[p].fields.Keys + {"TaskName"}
                  && after[p].fields["TaskName"] == JStr(taskname)
                  && forall k :: k in docs[p].fields && k != "TaskName" ==> after[p].fields[k] == docs[p].fields[k])
            && (!(noTest && Selected(paths, taskname, p)) ==> after[p] == docs[p])
  {
  }

  /** A second run over the same sidecars changes nothing more. */
  lemma TaskRunIdempotent(docs: map<string, Json>, paths: seq<string>, taskname: string)
    requires TaskRun(docs, paths, taskname, true).Success?
    ensures var once := TaskRun(docs, paths, taskname, true).value;
            TaskRun(once, paths, taskname, true) == Success(once)
  {
    var once := TaskRun(docs, paths, taskname, true).value;
    TaskRunSpec(docs, paths, taskname, true);
    TaskRunSpec(once, paths, taskname, true);
    forall p | p in once ensures Tagged(once, paths, taskname, true)[p] == once[p] {
      if Selected(paths, taskname, p) && docs[p].JObj? {
        MergeIdempotent(docs[p].fields, Tag(taskname));
      }
    }
    assert Tagged(once, paths, taskname, true) == once;
  }
}

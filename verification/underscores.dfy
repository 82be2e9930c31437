/** `drop_underscore` (identical in makebids/makebids.py and makebids.py): drop the
    underscores of a subject id from subject folder names and from file names one level
    further down, keeping the first `undscr + 1` '_'-pieces together. */
module DropUnderscores {
  import opened Results
  import opened Strings
  import opened Renames

  const SESSIONS_MESSAGE := "Sessions are not yet supported"

  /** `''.join(d.split('_')[:undscr + 1])`: the new name of a subject folder. */
  function DirTarget(d: string, undscr: int): string
  {
    Concat(Take(Split(d, "_"), undscr + 1))
  }

  /** The folder name holds no '_', is a prefix of the old name with its '_' deleted, and
      is all of that when there are at most `undscr + 1` pieces. */
  lemma DirTargetSpec(d: string, undscr: int)
    ensures var r := DirTarget(d, undscr);
            && '_' !in r
            && r <= DeleteAll(d, '_')
            && (undscr >= 0 && |Split(d, "_")| <= undscr + 1 ==> r == DeleteAll(d, '_'))
  {
    var pieces := Split(d, "_");
    var k := Clamp(undscr + 1, |pieces|);
    PiecesLackUnderscore(d);
    ConcatAvoids(pieces[..k], '_');
    DeleteAllPieces(d);
    assert pieces == pieces[..k] + pieces[k..];
    ConcatAppend(pieces[..k], pieces[k..]);
  }

  /** The '_'-pieces of a name hold no '_'. */
  lemma PiecesLackUnderscore(s: string)
    ensures forall k :: 0 <= k < |Split(s, "_")| ==> '_' !in Split(s, "_")[k]
  {
    SplitPiecesFree(s, "_");
    forall k | 0 <= k < |Split(s, "_")| ensures '_' !in Split(s, "_")[k] {
      ContainsChar(Split(s, "_")[k], '_');
    }
  }

  /** Deleting every '_' from a name concatenates its '_'-pieces. */
  lemma DeleteAllPieces(s: string)
    ensures DeleteAll(s, '_') == Concat(Split(s, "_"))
  {
    SplitJoin(s, "_");
    PiecesLackUnderscore(s);
    DeleteAllJoin(Split(s, "_"), '_');
  }

  /** The name before the trailing '_' is dropped:
      `''.join(splt[:undscr + 1]) + '_' + '_'.join(splt[undscr + 1:])`. */
  function FileJoined(f: string, undscr: int): string
  {
    var pieces := Split(f, "_");
    Concat(Take(pieces, undscr + 1)) + "_" + Join("_", Drop(pieces, undscr + 1))
  }

  /** The new name of a file: `FileJoined` less one trailing '_'. */
  function FileTarget(f: string, undscr: int): string
  {
    var joined := FileJoined(f, undscr);
    if |joined| > 0 && joined[|joined| - 1] == '_' then joined[..|joined| - 1] else joined
  }

  /** The new file name starts with the joined leading pieces, is the rejoined name less one
      trailing '_' if it had one, and keeps every character of `f` that is not '_'. */
  lemma FileTargetSpec(f: string, undscr: int)
    ensures var r, head := FileTarget(f, undscr), Concat(Take(Split(f, "_"), undscr + 1));
            |head| <= |r| && r[..|head|] == head
    ensures var r, joined := FileTarget(f, undscr), FileJoined(f, undscr);
            (r == joined && joined[|joined| - 1] != '_') || (r + "_" == joined)
    ensures DeleteAll(FileTarget(f, undscr), '_') == DeleteAll(f, '_')
  {
    var pieces := Split(f, "_");
    var head := Concat(Take(pieces, undscr + 1));
    var joined := FileJoined(f, undscr);
    assert |head| < |joined| && joined[..|head|] == head by {
      assert joined == head + "_" + Join("_", Drop(pieces, undscr + 1));
    }
    DropTrailing(joined, |head|);
    FileJoinedKeepsCharacters(f, undscr);
  }

  /** Dropping one trailing '_' keeps a prefix that ends before it and every other character. */
  lemma DropTrailing(joined: string, n: nat)
    requires n < |joined|
    ensures var r := if joined[|joined| - 1] == '_' then joined[..|joined| - 1] else joined;
            && n <= |r| && r[..n] == joined[..n]
            && ((r == joined && joined[|joined| - 1] != '_') || r + "_" == joined)
            && DeleteAll(r, '_') == DeleteAll(joined, '_')
  {
    if joined[|joined| - 1] == '_' {
      var r := joined[..|joined| - 1];
      assert joined == r + "_";
      DeleteAllAppend(r, "_", '_');
    }
  }

  /** Deleting the '_' of leading pieces, one '_' and the trailing pieces joined by '_'
      concatenates all the pieces. */
  lemma DeleteJoinedParts(head: seq<string>, tail: seq<string>)
    requires forall i :: 0 <= i < |head| ==> '_' !in head[i]
    requires forall i :: 0 <= i < |tail| ==> '_' !in tail[i]
    ensures DeleteAll(Concat(head) + "_" + Join("_", tail), '_') == Concat(head + tail)
  {
    var h, t := Concat(head), Join("_", tail);
    calc {
      DeleteAll(h + "_" + t, '_');
    == { DeleteAllAppend(h + "_", t, '_'); }
      DeleteAll(h + "_", '_') + DeleteAll(t, '_');
    == { DeleteAllAppend(h, "_", '_'); }
      DeleteAll(h, '_') + DeleteAll("_", '_') + DeleteAll(t, '_');
    == { ConcatAvoids(head, '_'); DeleteAllAbsent(h, '_'); }
      h + DeleteAll("_", '_') + DeleteAll(t, '_');
    == { assert DeleteAll("_", '_') == []; }
      h + DeleteAll(t, '_');
    == { assert "_" == ['_']; DeleteAllJoin(tail, '_'); }
      h + Concat(tail);
    == { ConcatAppend(head, tail); }
      Concat(head + tail);
    }
  }

  lemma FileJoinedKeepsCharacters(f: string, undscr: int)
    ensures DeleteAll(FileJoined(f, undscr), '_') == DeleteAll(f, '_')
  {
    var pieces := Split(f, "_");
    var k := Clamp(undscr + 1, |pieces|);
    var head, tail := pieces[..k], pieces[k..];
    assert Take(pieces, undscr + 1) == head && Drop(pieces, undscr + 1) == tail;
    PiecesLackUnderscore(f);
    assert forall i :: 0 <= i < |tail| ==> tail[i] == pieces[k + i];
    DeleteJoinedParts(head, tail);
    assert pieces == head + tail;
    DeleteAllPieces(f);
  }

  /** A subject folder name, once rewritten, is rewritten to itself. */
  lemma DirTargetIdempotent(d: string, undscr: int)
    requires undscr >= 0
    ensures DirTarget(DirTarget(d, undscr), undscr) == DirTarget(d, undscr)
  {
    var r := DirTarget(d, undscr);
    DirTargetSpec(d, undscr);
    ContainsChar(r, '_');
    assert "_" == ['_'];
    SplitAbsent(r, "_");
    assert Take([r], undscr + 1) == [r];
    assert Concat([r]) == r + Concat([]);
  }

  /** The renames of the first pass: every folder entry mentioning `subjpre`. */
  function DirPlan(entries: seq<string>, subjpre: string, undscr: int): seq<Rename>
  {
    PlanFor(entries, x => Contains(x, subjpre), x => DirTarget(x, undscr))
  }

  /** The renames inside one folder of the second pass. */
  function FilePlan(files: seq<string>, subjpre: string, undscr: int): seq<Rename>
  {
    PlanFor(files, x => Contains(x, subjpre), x => FileTarget(x, undscr))
  }

  datatype FolderRenamed = FolderRenamed(path: string, renamed: Renamed)

  /** What both passes report and leave behind. */
  datatype Dropped = Dropped(dirs: Renamed, files: seq<FolderRenamed>)

  /** The second pass on one folder; any error in it is re-raised as the IOError
      'Sessions are not yet supported'. */
  function FolderPass(folder: Folder, subjpre: string, noTest: bool, undscr: int): Result<FolderRenamed>
  {
    match folder.listing
    case None => Failure(IOError(SESSIONS_MESSAGE))
    case Some(files) =>
      match Perform(files, FilePlan(files, subjpre, undscr), noTest)
      case Failure(_) => Failure(IOError(SESSIONS_MESSAGE))
      case Success(rn) => Success(FolderRenamed(folder.path, rn))
  }

  /** The second pass over the folders in glob order, stopping at the first error. */
  function FilesPass(folders: seq<Folder>, subjpre: string, noTest: bool, undscr: int): Result<seq<FolderRenamed>>
  {
    if folders == [] then Success([])
    else
      match FilesPass(folders[..|folders| - 1], subjpre, noTest, undscr)
      case Failure(e) => Failure(e)
      case Success(done) =>
        match FolderPass(folders[|folders| - 1], subjpre, noTest, undscr)
        case Failure(e) => Failure(e)
        case Success(f) => Success(done + [f])
  }

  /** Both passes. The first lists the data directory and its `sourcedata` folder (None
      when that is missing, where `os.listdir` raises OSError), and renames inside the data
      directory itself, which is the working directory it resolves names against. */
  function DropUnderscoreSpec(root: seq<string>, sourcedata: Option<seq<string>>, folders: seq<Folder>,
                              subjpre: string, noTest: bool, undscr: int): Result<Dropped>
  {
    match sourcedata
    case None => Failure(OSError)
    case Some(src) =>
      match Perform(root, DirPlan(root + src, subjpre, undscr), noTest)
      case Failure(e) => Failure(e)
      case Success(dirs) =>
        match FilesPass(folders, subjpre, noTest, undscr)
        case Failure(e) => Failure(e)
        case Success(files) => Success(Dropped(dirs, files))
  }

  lemma {:induction false} FilesPassFailureStays(a: seq<Folder>, b: seq<Folder>, subjpre: string, noTest: bool, undscr: int)
    requires FilesPass(a, subjpre, noTest, undscr).Failure?
    ensures FilesPass(a + b, subjpre, noTest, undscr) == FilesPass(a, subjpre, noTest, undscr)
    decreases |b|
  {
    if b == [] {
      assert a + b == a;
    } else {
      assert (a + b)[..|a + b| - 1] == a + b[..|b| - 1];
      FilesPassFailureStays(a, b[..|b| - 1], subjpre, noTest, undscr);
    }
  }

  /** A rename of the plan that fails makes the whole plan fail. */
  lemma PlanPrefixFails(names: seq<string>, entries: seq<string>, i: nat,
                        keep: string -> bool, target: string -> string)
    requires i < |entries|
    requires ApplyPlan(names, PlanFor(entries[..i + 1], keep, target)).None?
    ensures ApplyPlan(names, PlanFor(entries, keep, target)).None?
  {
    assert entries == entries[..i + 1] + entries[i + 1..];
    PlanForAppend(entries[..i + 1], entries[i + 1..], keep, target);
    ApplyPlanAppend(names, PlanFor(entries[..i + 1], keep, target), PlanFor(entries[i + 1..], keep, target));
  }

  /** The rename loop both passes share: go through `entries` in order and rename every
      one `keep` selects to `target` of it, inside the directory listed by `names`; the
      renames happen only with `noTest`, and the first one that fails raises OSError. */
  method RenameEach(names: seq<string>, entries: seq<string>, keep: string -> bool,
                    target: string -> string, noTest: bool) returns (r: Result<Renamed>)
    ensures r == Perform(names, PlanFor(entries, keep, target), noTest)
  {
    var plan: seq<Rename> := [];
    var current := names;
    for i := 0 to |entries|
      invariant plan == PlanFor(entries[..i], keep, target)
      invariant noTest ==> ApplyPlan(names, plan) == Some(current)
      invariant !noTest ==> current == names
    {
      assert entries[..i + 1][..i] == entries[..i];
      var x := entries[i];
      if keep(x) {
        var step := Rename(x, target(x));
        ApplyPlanAppend(names, plan, [step]);
        plan := plan + [step];
        if noTest {
          match RenameIn(current, step)
          case None =>
            PlanPrefixFails(names, entries, i, keep, target);
            return Failure(OSError);
          case Some(n) =>
            current := n;
        }
      }
    }
    assert entries[..|entries|] == entries;
    return Success(Renamed(plan, current));
  }

  /** The second pass on one folder. */
  method RenameFolder(folder: Folder, subjpre: string, noTest: bool, undscr: int) returns (r: Result<FolderRenamed>)
    ensures r == FolderPass(folder, subjpre, noTest, undscr)
  {
    if folder.listing.None? {
      return Failure(IOError(SESSIONS_MESSAGE));
    }
    var files := folder.listing.value;
    var keep := x => Contains(x, subjpre);
    var target := x => FileTarget(x, undscr);
    assert FilePlan(files, subjpre, undscr) == PlanFor(files, keep, target);
    var rn := RenameEach(files, files, keep, target, noTest);
    if rn.Failure? {
      return Failure(IOError(SESSIONS_MESSAGE));
    }
    return Success(FolderRenamed(folder.path, rn.value));
  }

  /** `drop_underscore(data_dir, subjpre, no_test, undscr)` on the listings of the data
      directory (`root`), of its `sourcedata` folder and of the paths `glob` matches. */
  method DropUnderscore(root: seq<string>, sourcedata: Option<seq<string>>, folders: seq<Folder>,
                        subjpre: string, noTest: bool, undscr: int) returns (r: Result<Dropped>)
    ensures r == DropUnderscoreSpec(root, sourcedata, folders, subjpre, noTest, undscr)
  {
    if sourcedata.None? {
      return Failure(OSError);
    }
    var entries := root + sourcedata.value;
    var keep := x => Contains(x, subjpre);
    var target := x => DirTarget(x, undscr);
    assert DirPlan(entries, subjpre, undscr) == PlanFor(entries, keep, target);
    var dirs := RenameEach(root, entries, keep, target, noTest);
    if dirs.Failure? {
      return Failure(dirs.error);
    }

    var done: seq<FolderRenamed> := [];
    for j := 0 to |folders|
      invariant FilesPass(folders[..j], subjpre, noTest, undscr) == Success(done)
    {
      assert folders[..j + 1][..j] == folders[..j];
      var f := RenameFolder(folders[j], subjpre, noTest, undscr);
      if f.Failure? {
        FilesPassFailureStays(folders[..j + 1], folders[j + 1..], subjpre, noTest, undscr);
        assert folders[..j + 1] + folders[j + 1..] == folders;
        return Failure(f.error);
      }
      done := done + [f.value];
    }
    assert folders[..|folders|] == folders;
    return Success(Dropped(dirs.value, done));
  }

  /** The first pass renames exactly the entries that mention `subjpre`, each to its
      underscore-free folder name. */
  lemma DirPlanSpec(entries: seq<string>, subjpre: string, undscr: int)
    ensures forall k :: 0 <= k < |DirPlan(entries, subjpre, undscr)| ==>
              && DirPlan(entries, subjpre, undscr)[k].src in entries
              && Contains(DirPlan(entries, subjpre, undscr)[k].src, subjpre)
              && DirPlan(entries, subjpre, undscr)[k].dst == DirTarget(DirPlan(entries, subjpre, undscr)[k].src, undscr)
              && '_' !in DirPlan(entries, subjpre, undscr)[k].dst
    ensures forall x :: x in entries && Contains(x, subjpre) ==>
              exists k :: 0 <= k < |DirPlan(entries, subjpre, undscr)| && DirPlan(entries, subjpre, undscr)[k].src == x
  {
    var keep, target := x => Contains(x, subjpre), x => DirTarget(x, undscr);
    PlanForSpec(entries, keep, target);
    assert DirPlan(entries, subjpre, undscr) == PlanFor(entries, keep, target);
    forall x ensures '_' !in DirTarget(x, undscr) {
      DirTargetSpec(x, undscr);
    }
  }

  /** The second pass renames, in one folder, exactly the files that mention `subjpre`,
      each to a name with the same characters apart from '_'. */
  lemma FilePlanSpec(files: seq<string>, subjpre: string, undscr: int)
    ensures forall k :: 0 <= k < |FilePlan(files, subjpre, undscr)| ==>
              && FilePlan(files, subjpre, undscr)[k].src in files
              && Contains(FilePlan(files, subjpre, undscr)[k].src, subjpre)
              && FilePlan(files, subjpre, undscr)[k].dst == FileTarget(FilePlan(files, subjpre, undscr)[k].src, undscr)
              && DeleteAll(FilePlan(files, subjpre, undscr)[k].dst, '_') == DeleteAll(FilePlan(files, subjpre, undscr)[k].src, '_')
    ensures forall x :: x in files && Contains(x, subjpre) ==>
              exists k :: 0 <= k < |FilePlan(files, subjpre, undscr)| && FilePlan(files, subjpre, undscr)[k].src == x
  {
    var keep, target := x => Contains(x, subjpre), x => FileTarget(x, undscr);
    PlanForSpec(files, keep, target);
    assert FilePlan(files, subjpre, undscr) == PlanFor(files, keep, target);
    forall x ensures DeleteAll(FileTarget(x, undscr), '_') == DeleteAll(x, '_') {
      FileTargetSpec(x, undscr);
    }
  }

  /** Without `no_test` the second pass only reports: it fails exactly when some matched
      path is not a directory, and otherwise leaves every listing as it was. */
  lemma {:induction false} FilesPassDryRun(folders: seq<Folder>, subjpre: string, undscr: int)
    ensures FilesPass(folders, subjpre, false, undscr).Success? <==>
              forall i :: 0 <= i < |folders| ==> folders[i].listing.Some?
    ensures FilesPass(folders, subjpre, false, undscr).Success? ==>
              var done := FilesPass(folders, subjpre, false, undscr).value;
              && |done| == |folders|
              && forall i :: 0 <= i < |done| ==>
                   done[i] == FolderRenamed(folders[i].path,
                                            Renamed(FilePlan(folders[i].listing.value, subjpre, undscr),
                                                    folders[i].listing.value))
    decreases |folders|
  {
    if folders != [] {
      var init := folders[..|folders| - 1];
      FilesPassDryRun(init, subjpre, undscr);
      assert forall i :: 0 <= i < |init| ==> init[i] == folders[i];
    }
  }

  /** Without `no_test` nothing is renamed: both passes only report, and they fail only on
      a missing `sourcedata` folder or a matched path that is not a directory. */
  lemma DropUnderscoreDryRun(root: seq<string>, sourcedata: Option<seq<string>>, folders: seq<Folder>,
                             subjpre: string, undscr: int)
    ensures var r := DropUnderscoreSpec(root, sourcedata, folders, subjpre, false, undscr);
            && (r.Success? <==> sourcedata.Some? && forall i :: 0 <= i < |folders| ==> folders[i].listing.Some?)
            && (r.Success? ==>
                  && r.value.dirs == Renamed(DirPlan(root + sourcedata.value, subjpre, undscr), root)
                  && |r.value.files| == |folders|
                  && forall i :: 0 <= i < |folders| ==> r.value.files[i].renamed.listing == folders[i].listing.value)
  {
    FilesPassDryRun(folders, subjpre, undscr);
  }

  /** A subject folder listed both in the data directory and in `sourcedata` whose name has
      a '_' makes the live run fail: both entries are renamed in the data directory, and
      the second rename finds the folder gone. */
  lemma SourcedataTwinFails(root: seq<string>, src: seq<string>, folders: seq<Folder>,
                            subjpre: string, undscr: int, x: string)
    requires x in root && x in src && Contains(x, subjpre) && '_' in x
    ensures DropUnderscoreSpec(root, Some(src), folders, subjpre, true, undscr) == Failure(OSError)
  {
    TwinRenamedTwice(root, src, subjpre, undscr, x);
  }

  lemma TwinRenamedTwice(root: seq<string>, src: seq<string>, subjpre: string, undscr: int, x: string)
    requires x in root && x in src && Contains(x, subjpre) && '_' in x
    ensures ApplyPlan(root, DirPlan(root + src, subjpre, undscr)).None?
  {
    var keep, target := x => Contains(x, subjpre), x => DirTarget(x, undscr);
    assert DirPlan(root + src, subjpre, undscr) == PlanFor(root + src, keep, target);
    forall y ensures target(y) != x {
      DirTargetSpec(y, undscr);
    }
    PlanForTwiceFails(root, root, src, keep, target, x);
  }
}

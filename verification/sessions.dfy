/** `groupSes` and `remove_extra` (makebids.py): two helpers that only report. `groupSes`
    announces which session folders would be moved under which subject folder, and
    `remove_extra` computes names with a substring deleted; the moves and renames they
    would do are absent from the code. */
module Sessions {
  import opened Results
  import opened Strings
  import opened Renames

  /** A line `groupSes` prints. */
  datatype Event =
    | Making(path: string)
    | Moving(dr: string, dest: string)

  /** `os.path.join(xdir, 'sub-' + sub)`. */
  function SubPath(xdir: string, sub: string): string
  {
    PathJoin(xdir, "sub-" + sub)
  }

  /** A folder of `ls` goes with subject `sub`: it is a session folder and
      `"sub-" + dr[:4] == sub`. */
  predicate Matches(dr: string, sub: string)
  {
    Contains(dr, "SESSION") && "sub-" + Take(dr, 4) == sub
  }

  /** The inner loop of `groupSes` for one subject. */
  function MoveEvents(sub: string, ls: seq<string>, xdir: string): seq<Event>
  {
    if ls == [] then []
    else
      var dr := ls[|ls| - 1];
      MoveEvents(sub, ls[..|ls| - 1], xdir) + (if Matches(dr, sub) then [Moving(dr, SubPath(xdir, sub))] else [])
  }

  /** One pass of the outer loop; `existing` is the set of paths that exist. */
  function SubjectEvents(sub: string, ls: seq<string>, xdir: string, existing: set<string>): seq<Event>
  {
    (if SubPath(xdir, sub) !in existing then [Making(SubPath(xdir, sub))] else []) + MoveEvents(sub, ls, xdir)
  }

  /** Everything `groupSes(subjs, ls, xdir)` prints, in order. */
  function GroupSesEvents(subjs: seq<string>, ls: seq<string>, xdir: string, existing: set<string>): seq<Event>
  {
    if subjs == [] then []
    else GroupSesEvents(subjs[..|subjs| - 1], ls, xdir, existing) + SubjectEvents(subjs[|subjs| - 1], ls, xdir, existing)
  }

  /** The inner loop of `groupSes`: the session folders of `ls` that belong to `sub`. */
  method SubjectMoves(sub: string, ls: seq<string>, xdir: string) returns (moves: seq<Event>)
    ensures moves == MoveEvents(sub, ls, xdir)
  {
    moves := [];
    var subpath := PathJoin(xdir, "sub-" + sub);
    for j := 0 to |ls|
      invariant moves == MoveEvents(sub, ls[..j], xdir)
    {
      assert ls[..j + 1][..j] == ls[..j];
      var dr := ls[j];
      if Contains(dr, "SESSION") {
        var sid := "sub-" + Take(dr, 4);
        if sid == sub {
          moves := moves + [Moving(dr, subpath)];
        }
      }
    }
    assert ls[..|ls|] == ls;
  }

  /** `groupSes(subjs, ls, xdir)`. It creates and moves nothing: it only reports. */
  method GroupSes(subjs: seq<string>, ls: seq<string>, xdir: string, existing: set<string>) returns (events: seq<Event>)
    ensures events == GroupSesEvents(subjs, ls, xdir, existing)
  {
    events := [];
    for i := 0 to |subjs|
      invariant events == GroupSesEvents(subjs[..i], ls, xdir, existing)
    {
      assert subjs[..i + 1][..i] == subjs[..i];
      var sub := subjs[i];
      var subpath := PathJoin(xdir, "sub-" + sub);
      if subpath !in existing {
        events := events + [Making(subpath)];
      }
      var moves := SubjectMoves(sub, ls, xdir);
      events := events + moves;
    }
    assert subjs[..|subjs|] == subjs;
  }

  lemma {:induction false} MoveEventsSpec(sub: string, ls: seq<string>, xdir: string)
    ensures forall e :: e in MoveEvents(sub, ls, xdir) <==>
              e.Moving? && e.dr in ls && Matches(e.dr, sub) && e.dest == SubPath(xdir, sub)
    decreases |ls|
  {
    if ls != [] {
      MoveEventsSpec(sub, ls[..|ls| - 1], xdir);
      assert forall x :: x in ls <==> x in ls[..|ls| - 1] || x == ls[|ls| - 1];
    }
  }

  /** A move is announced exactly for a session folder of `ls` and a subject of `subjs` with
      `sub == "sub-" + dr[:4]`, and its destination is that subject's folder; a folder is
      announced as made exactly when a subject's folder does not exist. */
  lemma {:induction false} GroupSesSpec(subjs: seq<string>, ls: seq<string>, xdir: string, existing: set<string>)
    ensures forall dr, dest :: Moving(dr, dest) in GroupSesEvents(subjs, ls, xdir, existing) <==>
              dr in ls && Contains(dr, "SESSION") && "sub-" + Take(dr, 4) in subjs && dest == SubPath(xdir, "sub-" + Take(dr, 4))
    ensures forall p :: Making(p) in GroupSesEvents(subjs, ls, xdir, existing) <==>
              p !in existing && exists sub :: sub in subjs && p == SubPath(xdir, sub)
    decreases |subjs|
  {
    if subjs != [] {
      var init, sub := subjs[..|subjs| - 1], subjs[|subjs| - 1];
      GroupSesSpec(init, ls, xdir, existing);
      MoveEventsSpec(sub, ls, xdir);
      assert forall x :: x in subjs <==> x in init || x == sub;
    }
  }

  /** The destination of every announced move names the subject twice: 'sub-' is put in
      front of a subject id that already starts with 'sub-'. */
  lemma MoveDestinationDoubled(xdir: string, dr: string)
    ensures Contains(SubPath(xdir, "sub-" + Take(dr, 4)), "sub-sub-")
  {
    var b := "sub-" + ("sub-" + Take(dr, 4));
    var p := SubPath(xdir, "sub-" + Take(dr, 4));
    assert b[..8] == "sub-sub-";
    if xdir == [] || xdir[|xdir| - 1] == '/' {
      assert p == xdir + b;
      assert p[|xdir|..|xdir| + 8] == "sub-sub-";
      assert OccursAt(p, "sub-sub-", |xdir|);
    } else {
      assert p == xdir + "/" + b;
      assert p[|xdir| + 1..|xdir| + 9] == "sub-sub-";
      assert OccursAt(p, "sub-sub-", |xdir| + 1);
    }
  }

  /** `''.join(fl.split(xtra))`: `fl` with every occurrence of `xtra` found left to right
      deleted. */
  function Stripped(fl: string, xtra: string): string
    requires |xtra| > 0
  {
    Concat(Split(fl, xtra))
  }

  lemma {:induction false} JoinLength<T>(sep: seq<T>, parts: seq<seq<T>>)
    requires |parts| >= 1
    ensures |Join(sep, parts)| == |Concat(parts)| + (|parts| - 1) * |sep|
    decreases |parts|
  {
    if |parts| > 1 {
      JoinLength(sep, parts[1..]);
    }
  }

  /** The name is cut at the occurrences of `xtra` and put back together without them:
      joining the pieces with `xtra` gives `fl` again, no piece holds `xtra`, the name is
      shorter by one `xtra` per cut, and for a one-character `xtra` every occurrence of
      that character is gone. */
  lemma {:induction false} StrippedSpec(fl: string, xtra: string)
    requires |xtra| > 0
    ensures Join(xtra, Split(fl, xtra)) == fl
    ensures forall k :: 0 <= k < |Split(fl, xtra)| ==> !Contains(Split(fl, xtra)[k], xtra)
    ensures |Stripped(fl, xtra)| == |fl| - (|Split(fl, xtra)| - 1) * |xtra|
    ensures |xtra| == 1 ==> Stripped(fl, xtra) == DeleteAll(fl, xtra[0])
  {
    var pieces := Split(fl, xtra);
    SplitJoin(fl, xtra);
    SplitPiecesFree(fl, xtra);
    JoinLength(xtra, pieces);
    if |xtra| == 1 {
      var c := xtra[0];
      assert xtra == [c];
      forall k | 0 <= k < |pieces| ensures c !in pieces[k] {
        ContainsChar(pieces[k], c);
      }
      DeleteAllJoin(pieces, c);
    }
  }

  /** A name `remove_extra` computes: the file, its folder and the new path. */
  datatype NewName = NewName(dir: string, file: string, renamed: string)

  /** The files of one folder; `fl.split('')` raises ValueError, and '' is in every name. */
  function FileNames(dir: string, files: seq<string>, xtra: string): Result<seq<NewName>>
  {
    if files == [] then Success([])
    else
      var fl := files[|files| - 1];
      match FileNames(dir, files[..|files| - 1], xtra)
      case Failure(e) => Failure(e)
      case Success(names) =>
        if !Contains(fl, xtra) then Success(names)
        else if xtra == [] then Failure(ValueError)
        else Success(names + [NewName(dir, fl, PathJoin(dir, Stripped(fl, xtra)))])
  }

  /** The folders the glob three levels down matched, in order; listing one that is not a
      directory raises OSError. */
  function ExtraNames(folders: seq<Folder>, xtra: string): Result<seq<NewName>>
  {
    if folders == [] then Success([])
    else
      var folder := folders[|folders| - 1];
      match ExtraNames(folders[..|folders| - 1], xtra)
      case Failure(e) => Failure(e)
      case Success(names) =>
        match folder.listing
        case None => Failure(OSError)
        case Some(files) =>
          match FileNames(folder.path, files, xtra)
          case Failure(e) => Failure(e)
          case Success(more) => Success(names + more)
  }

  lemma {:induction false} FileNamesFailureStays(dir: string, a: seq<string>, b: seq<string>, xtra: string)
    requires FileNames(dir, a, xtra).Failure?
    ensures FileNames(dir, a + b, xtra) == FileNames(dir, a, xtra)
    decreases |b|
  {
    if b == [] {
      assert a + b == a;
    } else {
      assert (a + b)[..|a + b| - 1] == a + b[..|b| - 1];
      FileNamesFailureStays(dir, a, b[..|b| - 1], xtra);
    }
  }

  lemma {:induction false} ExtraNamesFailureStays(a: seq<Folder>, b: seq<Folder>, xtra: string)
    requires ExtraNames(a, xtra).Failure?
    ensures ExtraNames(a + b, xtra) == ExtraNames(a, xtra)
    decreases |b|
  {
    if b == [] {
      assert a + b == a;
    } else {
      assert (a + b)[..|a + b| - 1] == a + b[..|b| - 1];
      ExtraNamesFailureStays(a, b[..|b| - 1], xtra);
    }
  }

  /** The inner loop of `remove_extra` over one folder's files. The file is resolved
      against the folder, which is the working directory after `os.chdir`. */
  method FolderNames(dir: string, files: seq<string>, xtra: string) returns (r: Result<seq<NewName>>)
    ensures r == FileNames(dir, files, xtra)
  {
    var names: seq<NewName> := [];
    for i := 0 to |files|
      invariant FileNames(dir, files[..i], xtra) == Success(names)
    {
      assert files[..i + 1][..i] == files[..i];
      var fl := files[i];
      if Contains(fl, xtra) {
        if xtra == [] {
          FileNamesFailureStays(dir, files[..i + 1], files[i + 1..], xtra);
          assert files[..i + 1] + files[i + 1..] == files;
          return Failure(ValueError);
        }
        names := names + [NewName(dir, fl, PathJoin(dir, Stripped(fl, xtra)))];
      }
    }
    assert files[..|files|] == files;
    return Success(names);
  }

  /** `remove_extra(xdir, xtra)`: the names it computes. Nothing is renamed. */
  method RemoveExtra(folders: seq<Folder>, xtra: string) returns (r: Result<seq<NewName>>)
    ensures r == ExtraNames(folders, xtra)
  {
    var names: seq<NewName> := [];
    for i := 0 to |folders|
      invariant ExtraNames(folders[..i], xtra) == Success(names)
    {
      assert folders[..i + 1][..i] == folders[..i];
      var folder := folders[i];
      if folder.listing.None? {
        ExtraNamesFailureStays(folders[..i + 1], folders[i + 1..], xtra);
        assert folders[..i + 1] + folders[i + 1..] == folders;
        return Failure(OSError);
      }
      var more := FolderNames(folder.path, folder.listing.value, xtra);
      if more.Failure? {
        ExtraNamesFailureStays(folders[..i + 1], folders[i + 1..], xtra);
        assert folders[..i + 1] + folders[i + 1..] == folders;
        return Failure(more.error);
      }
      names := names + more.value;
    }
    assert folders[..|folders|] == folders;
    return Success(names);
  }

  /** In one folder a name is computed exactly for each file that holds `xtra`. */
  lemma {:induction false} FileNamesSpec(dir: string, files: seq<string>, xtra: string)
    requires |xtra| > 0
    ensures FileNames(dir, files, xtra).Success?
    ensures forall n :: n in FileNames(dir, files, xtra).value <==>
              n.dir == dir && n.file in files && Contains(n.file, xtra) && n.renamed == PathJoin(dir, Stripped(n.file, xtra))
    decreases |files|
  {
    if files != [] {
      FileNamesSpec(dir, files[..|files| - 1], xtra);
      assert forall x :: x in files <==> x in files[..|files| - 1] || x == files[|files| - 1];
    }
  }

  /** With an empty `xtra` the run fails as soon as it meets a file, and fails on any
      matched path that is not a directory. */
  lemma {:induction false} EmptyExtraFails(folders: seq<Folder>)
    ensures ExtraNames(folders, "").Success? <==> forall i :: 0 <= i < |folders| ==> folders[i].listing == Some([])
    decreases |folders|
  {
    if folders != [] {
      var init := folders[..|folders| - 1];
      EmptyExtraFails(init);
      assert forall i :: 0 <= i < |init| ==> init[i] == folders[i];
      var last := folders[|folders| - 1];
      if last.listing.Some? && last.listing.value != [] {
        var files := last.listing.value;
        var k := |files| - 1;
        assert Contains(files[k], "") by {
          assert OccursAt(files[k], "", 0);
        }
        if FileNames(last.path, files[..k], "").Failure? {
          FileNamesFailureStays(last.path, files[..k], [files[k]], "");
          assert files[..k] + [files[k]] == files;
        }
      }
    }
  }
}

/** `write_scantsv` (identical in makebids/makebids.py and makebids.py): for every subject
    of a BIDS directory, a `<subject>_scans.tsv` table listing its NIfTI scans with the
    acquisition date read from the subject's DICOM files. */
module ScanTable {
  import opened Results
  import opened Strings
  import opened Sorting

  const HEADER: seq<string> := ["filename", "acq_time"]

  /** `d[:4] + '-' + d[4:6] + '-' + d[6:]`: the DICOM date YYYYMMDD written YYYY-MM-DD. */
  function FormatDate(d: string): string
  {
    Take(d, 4) + "-" + Slice(d, 4, 6) + "-" + Drop(d, 6)
  }

  /** The two dashes go in after the first four and after the first six characters (or at
      the end of a shorter `d`), and dropping them gives `d` back. */
  lemma FormatDateDashes(d: string)
    ensures var r, a, b := FormatDate(d), Clamp(4, |d|), Clamp(6, |d|);
            && |r| == |d| + 2 && r[a] == '-' && r[b + 1] == '-'
            && r[..a] + r[a + 1..b + 1] + r[b + 2..] == d
  {
    var a, b := Clamp(4, |d|), Clamp(6, |d|);
    var x, y, z := d[..a], d[a..b], d[b..];
    assert FormatDate(d) == x + "-" + y + "-" + z by {
      assert Take(d, 4) == x && Slice(d, 4, 6) == y && Drop(d, 6) == z;
    }
    DashedParts(x, y, z);
    assert d == x + y + z;
  }

  /** The three parts can be read back from between the two dashes. */
  lemma DashedParts(x: string, y: string, z: string)
    ensures var r := x + "-" + y + "-" + z;
            && |r| == |x| + |y| + |z| + 2 && r[|x|] == '-' && r[|x| + |y| + 1] == '-'
            && r[..|x|] == x && r[|x| + 1..|x| + |y| + 1] == y && r[|x| + |y| + 2..] == z
  {
    var p, q := x + "-", y + "-" + z;
    assert x + "-" + y + "-" + z == p + q;
    assert (p + q)[..|x|] == x;
    assert (p + q)[|p|..] == q;
    assert q[..|y|] == y && q[|y|] == '-' && q[|y| + 1..] == z;
  }

  /** On an eight-character date the result is ten characters long, with dashes at
      positions 4 and 7, and deleting the dashes undoes it. */
  lemma FormatDateEight(d: string)
    requires |d| == 8
    ensures FormatDate(d) == d[..4] + "-" + d[4..6] + "-" + d[6..]
    ensures |FormatDate(d)| == 10 && FormatDate(d)[4] == '-' && FormatDate(d)[7] == '-'
    ensures '-' !in d ==> DeleteAll(FormatDate(d), '-') == d
  {
    var x, y, z := d[..4], d[4..6], d[6..];
    assert FormatDate(d) == x + "-" + y + "-" + z by {
      assert Take(d, 4) == x && Slice(d, 4, 6) == y && Drop(d, 6) == z;
    }
    if '-' !in d {
      assert '-' !in x && '-' !in y && '-' !in z by {
        assert forall i :: 0 <= i < |x| ==> x[i] == d[i];
        assert forall i :: 0 <= i < |y| ==> y[i] == d[4 + i];
        assert forall i :: 0 <= i < |z| ==> z[i] == d[6 + i];
      }
      calc {
        DeleteAll(x + "-" + y + "-" + z, '-');
      == { DeleteAllAppend(x + "-" + y + "-", z, '-'); }
        DeleteAll(x + "-" + y + "-", '-') + DeleteAll(z, '-');
      == { DeleteAllAppend(x + "-" + y, "-", '-'); }
        DeleteAll(x + "-" + y, '-') + DeleteAll("-", '-') + DeleteAll(z, '-');
      == { DeleteAllAppend(x + "-", y, '-'); }
        DeleteAll(x + "-", '-') + DeleteAll(y, '-') + DeleteAll("-", '-') + DeleteAll(z, '-');
      == { DeleteAllAppend(x, "-", '-'); }
        DeleteAll(x, '-') + DeleteAll("-", '-') + DeleteAll(y, '-') + DeleteAll("-", '-') + DeleteAll(z, '-');
      == { assert DeleteAll("-", '-') == [];
           DeleteAllAbsent(x, '-'); DeleteAllAbsent(y, '-'); DeleteAllAbsent(z, '-'); }
        x + y + z;
      == { assert d == x + y + z; }
        d;
      }
    }
  }


  /** The BIDS entries of the listing: `'sub-' in x`. */
  function SubjectEntries(listing: seq<string>): seq<string>
  {
    Filter(listing, x => Contains(x, "sub-"))
  }

  /** `x[-3:]` of each entry. */
  function LastThree(xs: seq<string>): seq<string>
  {
    seq(|xs|, i requires 0 <= i < |xs| => Drop(xs[i], -3))
  }

  /** `sorted([x[-3:] for x in os.listdir(bids_dir) if 'sub-' in x])`. */
  function SubjectIds(listing: seq<string>): seq<string>
  {
    Sort(LastThree(SubjectEntries(listing)))
  }

  /** The entries kept are exactly the listed names that mention 'sub-'. */
  lemma SubjectEntriesSpec(listing: seq<string>)
    ensures forall x :: x in SubjectEntries(listing) <==> x in listing && Contains(x, "sub-")
  {
    var p := x => Contains(x, "sub-");
    assert SubjectEntries(listing) == Filter(listing, p);
    forall x ensures x in SubjectEntries(listing) <==> x in listing && Contains(x, "sub-") {
      FilterCount(listing, p, x);
    }
  }

  /** The subject ids are sorted, and they are the last three characters of the entries
      that mention 'sub-', each taken as often as such an entry is listed. */
  lemma SubjectIdsSpec(listing: seq<string>)
    ensures Sorted(SubjectIds(listing))
    ensures multiset(SubjectIds(listing)) == multiset(LastThree(SubjectEntries(listing)))
    ensures forall id :: id in SubjectIds(listing) <==>
              exists x :: x in listing && Contains(x, "sub-") && id == Drop(x, -3)
    ensures forall id :: id in SubjectIds(listing) ==> |id| <= 3
  {
    var entries := SubjectEntries(listing);
    var ids := LastThree(entries);
    var sorted := SubjectIds(listing);
    assert sorted == Sort(ids);
    SortSorted(ids);
    SubjectEntriesSpec(listing);
    LastThreeMembers(entries);
    forall id ensures id in sorted <==> id in ids {
      assert id in sorted <==> id in multiset(sorted);
      assert id in ids <==> id in multiset(ids);
    }
  }

  /** The ids taken from some entries are the last three characters of those entries. */
  lemma LastThreeMembers(xs: seq<string>)
    ensures forall id :: id in LastThree(xs) <==> exists x :: x in xs && id == Drop(x, -3)
    ensures forall id :: id in LastThree(xs) ==> |id| <= 3
  {
    var ids := LastThree(xs);
    forall id | id in ids ensures exists x :: x in xs && id == Drop(x, -3) {
      var i :| 0 <= i < |ids| && ids[i] == id;
      assert xs[i] in xs;
    }
    forall x | x in xs ensures Drop(x, -3) in ids {
      var i :| 0 <= i < |xs| && xs[i] == x;
      assert ids[i] == Drop(x, -3);
    }
  }

  /** `'/'.join(scan.split('/')[-2:])`: the scan named relative to the subject folder. */
  function ScanEntry(scan: string): string
  {
    Join("/", Drop(Split(scan, "/"), -2))
  }

  /** The entry is made of the last two '/' components of the path (all of them when there
      are fewer): splitting it again gives exactly those. */
  lemma ScanEntryComponents(scan: string)
    ensures Split(ScanEntry(scan), "/") == Drop(Split(scan, "/"), -2)
    ensures |Split(ScanEntry(scan), "/")| == if |Split(scan, "/")| < 2 then |Split(scan, "/")| else 2
  {
    var pieces := Split(scan, "/");
    var last := Drop(pieces, -2);
    SplitPiecesFree(scan, "/");
    forall k | 0 <= k < |last| ensures '/' !in last[k] {
      assert last[k] == pieces[|pieces| - |last| + k];
      ContainsChar(last[k], '/');
    }
    assert "/" == ['/'];
    JoinSplitChar(last, '/');
  }

  /** `os.path.join(bids_dir, paths[-3], paths[-3] + '_scans.tsv')`; a path of fewer than
      three components has no `paths[-3]`. */
  function OutName(bidsDir: string, scan: string): (r: Result<string>)
    ensures r.Failure? <==> |Split(scan, "/")| < 3
    ensures r.Failure? ==> r.error == IndexError
  {
    var pieces := Split(scan, "/");
    if |pieces| < 3 then Failure(IndexError)
    else
      var subject := pieces[|pieces| - 3];
      Success(PathJoin(PathJoin(bidsDir, subject), subject + "_scans.tsv"))
  }

  /** The scan entries collected for one subject, and `outname` as the loop leaves it. */
  datatype Collected = Collected(scans: seq<string>, outname: Option<string>)

  /** The inner loop over the subject's scans, from the `outname` a previous subject left. */
  function Collect(bidsDir: string, outname: Option<string>, paths: seq<string>): Result<Collected>
  {
    if paths == [] then Success(Collected([], outname))
    else
      var scan := paths[|paths| - 1];
      match Collect(bidsDir, outname, paths[..|paths| - 1])
      case Failure(e) => Failure(e)
      case Success(c) =>
        match OutName(bidsDir, scan)
        case Failure(e) => Failure(e)
        case Success(o) => Success(Collected(c.scans + [ScanEntry(scan)], Some(o)))
  }

  /** The entries the scan loop collects for `paths`, in order. */
  function Entries(paths: seq<string>): seq<string>
  {
    seq(|paths|, i requires 0 <= i < |paths| => ScanEntry(paths[i]))
  }

  /** A scan loop that goes through collects one entry per path, in order, whatever
      `outname` it starts from. */
  lemma {:induction false} CollectEntries(bidsDir: string, outname: Option<string>, paths: seq<string>)
    requires Collect(bidsDir, outname, paths).Success?
    ensures Collect(bidsDir, outname, paths).value.scans == Entries(paths)
    decreases |paths|
  {
    if paths != [] {
      var init, last := paths[..|paths| - 1], paths[|paths| - 1];
      CollectEntries(bidsDir, outname, init);
      assert init + [last] == paths;
      EntriesSnoc(init, last);
    }
  }

  /** One more path adds its entry at the end. */
  lemma EntriesSnoc(init: seq<string>, last: string)
    ensures Entries(init + [last]) == Entries(init) + [ScanEntry(last)]
  {
    var paths := init + [last];
    forall k | 0 <= k < |paths| ensures Entries(paths)[k] == (Entries(init) + [ScanEntry(last)])[k] {
      if k < |init| {
        assert paths[k] == init[k];
      }
    }
  }

  /** The rows written to a subject's table: the header, then `[scan, date]` for each scan
      in sorted order. */
  function TableRows(scans: seq<string>, date: string): seq<seq<string>>
  {
    [HEADER] + DatedRows(Sort(scans), date)
  }

  /** `[scan, date]` for each scan, in order. */
  function DatedRows(scans: seq<string>, date: string): seq<seq<string>>
  {
    seq(|scans|, i requires 0 <= i < |scans| => [scans[i], date])
  }

  /** A table is the header and then one `[scan, date]` row per scan, in sorted order. */
  lemma TableRowsShape(scans: seq<string>, date: string)
    ensures var rows := TableRows(scans, date);
            && |rows| == |scans| + 1 && rows[0] == HEADER
            && forall i :: 1 <= i < |rows| ==> rows[i] == [Sort(scans)[i - 1], date]
  {
    var sorted := Sort(scans);
    var body := DatedRows(sorted, date);
    var rows := [HEADER] + body;
    assert TableRows(scans, date) == rows;
    forall i | 1 <= i < |rows| ensures rows[i] == [sorted[i - 1], date] {
      assert rows[i] == body[i - 1];
    }
  }

  /** A table is the header and one row per scan. Every row after the header holds the subject's date; the scan column is sorted and
      holds the subject's scans, each as often as collected. */
  lemma TableRowsSorted(scans: seq<string>, date: string)
    ensures var rows := TableRows(scans, date);
            && |rows| == |scans| + 1 && rows[0] == HEADER
            && (forall i :: 1 <= i < |rows| ==> |rows[i]| == 2 && rows[i][1] == date)
            && (forall i, j :: 1 <= i < j < |rows| ==> LexLeq(rows[i][0], rows[j][0]))
            && multiset(seq(|rows| - 1, i requires 0 <= i < |rows| - 1 => rows[i + 1][0])) == multiset(scans)
  {
    var rows := TableRows(scans, date);
    var sorted := Sort(scans);
    TableRowsShape(scans, date);
    SortSorted(scans);
    forall i, j | 1 <= i < j < |rows| ensures LexLeq(rows[i][0], rows[j][0]) {
      assert rows[i][0] == sorted[i - 1] && rows[j][0] == sorted[j - 1];
    }
    var column := seq(|rows| - 1, i requires 0 <= i < |rows| - 1 => rows[i + 1][0]);
    assert column == sorted by {
      forall i | 0 <= i < |sorted| ensures column[i] == sorted[i] {
        assert rows[i + 1] == [sorted[i], date];
      }
    }
  }

  datatype Table = Table(path: string, rows: seq<seq<string>>)

  /** What `date`, `outname` and the written tables are after some subjects. */
  datatype ScanState = ScanState(date: Option<string>, outname: Option<string>, tables: seq<Table>)

  /** What a run leaves: the tables written and the date printed last. */
  datatype ScanReport = ScanReport(tables: seq<Table>, date: string)

  /** The NIfTI paths the glob for `sid` matches (none for an id not in the map). */
  function ScansOf(scanPaths: map<string, seq<string>>, sid: string): seq<string>
  {
    if sid in scanPaths then scanPaths[sid] else []
  }

  /** One pass of the outer loop. `acqDates` maps a subject id to the AcquisitionDate of the
      last DICOM file the glob for it matches; an id without one is the IndexError of
      `glob(...)[-1]`. The table is written only when `noTest`, to `outname` as the scan loop
      left it. */
  function SubjectStep(st: ScanState, sid: string, acqDates: map<string, string>,
                       scanPaths: map<string, seq<string>>, bidsDir: string, noTest: bool): Result<ScanState>
  {
    if sid !in acqDates then Failure(IndexError)
    else
      var date := FormatDate(acqDates[sid]);
      match Collect(bidsDir, st.outname, ScansOf(scanPaths, sid))
      case Failure(e) => Failure(e)
      case Success(c) =>
        if !noTest then Success(ScanState(Some(date), c.outname, st.tables))
        else match c.outname
          case None => Failure(NameError("outname"))
          case Some(o) => Success(ScanState(Some(date), Some(o), st.tables + [Table(o, TableRows(c.scans, date))]))
  }

  /** The outer loop over the subject ids, stopping at the first error. */
  function Subjects(st: ScanState, sids: seq<string>, acqDates: map<string, string>,
                    scanPaths: map<string, seq<string>>, bidsDir: string, noTest: bool): Result<ScanState>
  {
    if sids == [] then Success(st)
    else
      match Subjects(st, sids[..|sids| - 1], acqDates, scanPaths, bidsDir, noTest)
      case Failure(e) => Failure(e)
      case Success(s) => SubjectStep(s, sids[|sids| - 1], acqDates, scanPaths, bidsDir, noTest)
  }

  /** The whole run; printing `date` after the loop fails when there was no subject. */
  function WriteScanTsvSpec(listing: seq<string>, acqDates: map<string, string>,
                            scanPaths: map<string, seq<string>>, bidsDir: string, noTest: bool): Result<ScanReport>
  {
    match Subjects(ScanState(None, None, []), SubjectIds(listing), acqDates, scanPaths, bidsDir, noTest)
    case Failure(e) => Failure(e)
    case Success(st) =>
      match st.date
      case None => Failure(NameError("date"))
      case Some(d) => Success(ScanReport(st.tables, d))
  }

  lemma {:induction false} CollectFailureStays(bidsDir: string, outname: Option<string>, a: seq<string>, b: seq<string>)
    requires Collect(bidsDir, outname, a).Failure?
    ensures Collect(bidsDir, outname, a + b) == Collect(bidsDir, outname, a)
    decreases |b|
  {
    if b == [] {
      assert a + b == a;
    } else {
      assert (a + b)[..|a + b| - 1] == a + b[..|b| - 1];
      CollectFailureStays(bidsDir, outname, a, b[..|b| - 1]);
    }
  }

  /** The inner loop one scan further on: the scan's entry is appended and `outname` is
      recomputed from it, and when that fails, so does the whole loop. */
  lemma CollectNext(bidsDir: string, outname: Option<string>, paths: seq<string>, j: nat, c: Collected)
    requires j < |paths| && Collect(bidsDir, outname, paths[..j]) == Success(c)
    ensures OutName(bidsDir, paths[j]).Success? ==>
              Collect(bidsDir, outname, paths[..j + 1])
                == Success(Collected(c.scans + [ScanEntry(paths[j])], Some(OutName(bidsDir, paths[j]).value)))
    ensures OutName(bidsDir, paths[j]).Failure? ==>
              Collect(bidsDir, outname, paths) == Failure(OutName(bidsDir, paths[j]).error)
  {
    var prefix := paths[..j + 1];
    assert prefix[..|prefix| - 1] == paths[..j] && prefix[|prefix| - 1] == paths[j];
    if OutName(bidsDir, paths[j]).Failure? {
      CollectFailureStays(bidsDir, outname, prefix, paths[j + 1..]);
      assert prefix + paths[j + 1..] == paths;
    }
  }

  lemma {:induction false} SubjectsFailureStays(st: ScanState, a: seq<string>, b: seq<string>, acqDates: map<string, string>,
                                                scanPaths: map<string, seq<string>>, bidsDir: string, noTest: bool)
    requires Subjects(st, a, acqDates, scanPaths, bidsDir, noTest).Failure?
    ensures Subjects(st, a + b, acqDates, scanPaths, bidsDir, noTest) == Subjects(st, a, acqDates, scanPaths, bidsDir, noTest)
    decreases |b|
  {
    if b == [] {
      assert a + b == a;
    } else {
      assert (a + b)[..|a + b| - 1] == a + b[..|b| - 1];
      SubjectsFailureStays(st, a, b[..|b| - 1], acqDates, scanPaths, bidsDir, noTest);
    }
  }

  /** The outer loop one subject further on: the next step's result, and when that step
      fails, the result of the whole loop. */
  lemma SubjectsNext(st: ScanState, sids: seq<string>, i: nat, cur: ScanState, acqDates: map<string, string>,
                     scanPaths: map<string, seq<string>>, bidsDir: string, noTest: bool)
    requires i < |sids| && Subjects(st, sids[..i], acqDates, scanPaths, bidsDir, noTest) == Success(cur)
    ensures Subjects(st, sids[..i + 1], acqDates, scanPaths, bidsDir, noTest)
              == SubjectStep(cur, sids[i], acqDates, scanPaths, bidsDir, noTest)
    ensures SubjectStep(cur, sids[i], acqDates, scanPaths, bidsDir, noTest).Failure? ==>
              Subjects(st, sids, acqDates, scanPaths, bidsDir, noTest)
                == SubjectStep(cur, sids[i], acqDates, scanPaths, bidsDir, noTest)
  {
    var prefix := sids[..i + 1];
    assert prefix[..|prefix| - 1] == sids[..i] && prefix[|prefix| - 1] == sids[i];
    var next := SubjectStep(cur, sids[i], acqDates, scanPaths, bidsDir, noTest);
    assert Subjects(st, prefix, acqDates, scanPaths, bidsDir, noTest) == next;
    if next.Failure? {
      SubjectsFailureStays(st, prefix, sids[i + 1..], acqDates, scanPaths, bidsDir, noTest);
      assert prefix + sids[i + 1..] == sids;
    }
  }

  /** The inner loop of `write_scantsv`: each scan's entry is appended and `outname` is
      recomputed from it. */
  method CollectScans(bidsDir: string, outname: Option<string>, paths: seq<string>) returns (r: Result<Collected>)
    ensures r == Collect(bidsDir, outname, paths)
  {
    var scans: seq<string> := [];
    var out := outname;
    for j := 0 to |paths|
      invariant Collect(bidsDir, outname, paths[..j]) == Success(Collected(scans, out))
    {
      var scan := paths[j];
      var name := OutName(bidsDir, scan);
      CollectNext(bidsDir, outname, paths, j, Collected(scans, out));
      if name.Failure? {
        return Failure(name.error);
      }
      scans := scans + [ScanEntry(scan)];
      out := Some(name.value);
    }
    assert paths[..|paths|] == paths;
    return Success(Collected(scans, out));
  }

  /** The body of the outer loop of `write_scantsv` for the subject `sid`: its date, its
      scans and, when `noTest`, its table. */
  method ScanSubject(st: ScanState, sid: string, acqDates: map<string, string>,
                     scanPaths: map<string, seq<string>>, bidsDir: string, noTest: bool) returns (r: Result<ScanState>)
    ensures r == SubjectStep(st, sid, acqDates, scanPaths, bidsDir, noTest)
  {
    if sid !in acqDates {
      return Failure(IndexError);
    }
    var d := FormatDate(acqDates[sid]);
    var collected := CollectScans(bidsDir, st.outname, ScansOf(scanPaths, sid));
    if collected.Failure? {
      return Failure(collected.error);
    }
    var scans := collected.value.scans;
    var outname := collected.value.outname;
    var tables := st.tables;
    if noTest {
      if outname.None? {
        return Failure(NameError("outname"));
      }
      tables := tables + [Table(outname.value, TableRows(scans, d))];
    }
    return Success(ScanState(Some(d), outname, tables));
  }

  /** `write_scantsv(bids_dir, dicom_dir, pre, no_test)` on the listing of `bids_dir`, the
      acquisition dates the DICOM files give and the scans the NIfTI glob matches. */
  method WriteScanTsv(listing: seq<string>, acqDates: map<string, string>,
                      scanPaths: map<string, seq<string>>, bidsDir: string, noTest: bool) returns (r: Result<ScanReport>)
    ensures r == WriteScanTsvSpec(listing, acqDates, scanPaths, bidsDir, noTest)
  {
    var subs := SubjectIds(listing);
    var st := ScanState(None, None, []);
    ghost var init := st;
    for i := 0 to |subs|
      invariant Subjects(init, subs[..i], acqDates, scanPaths, bidsDir, noTest) == Success(st)
    {
      var step := ScanSubject(st, subs[i], acqDates, scanPaths, bidsDir, noTest);
      SubjectsNext(init, subs, i, st, acqDates, scanPaths, bidsDir, noTest);
      if step.Failure? {
        return Failure(step.error);
      }
      st := step.value;
    }
    assert subs[..|subs|] == subs;
    if st.date.None? {
      return Failure(NameError("date"));
    }
    return Success(ScanReport(st.tables, st.date.value));
  }

  /** A subject whose glob matches no scan reuses the `outname` of the subject before it:
      when `noTest`, that subject's table is rewritten with the header row alone. */
  lemma StaleOutnameOverwrites(st: ScanState, sid: string, acqDates: map<string, string>,
                               scanPaths: map<string, seq<string>>, bidsDir: string)
    requires sid in acqDates && ScansOf(scanPaths, sid) == [] && st.outname.Some?
    ensures SubjectStep(st, sid, acqDates, scanPaths, bidsDir, true) ==
              Success(ScanState(Some(FormatDate(acqDates[sid])), st.outname,
                                st.tables + [Table(st.outname.value, [HEADER])]))
  {
    var rows := TableRows([], FormatDate(acqDates[sid]));
    assert rows == [HEADER];
  }

  /** With no subject before it, such a subject makes the live run fail on the unbound
      `outname`. */
  lemma FirstSubjectWithoutScans(st: ScanState, sid: string, acqDates: map<string, string>,
                                 scanPaths: map<string, seq<string>>, bidsDir: string)
    requires sid in acqDates && ScansOf(scanPaths, sid) == [] && st.outname.None?
    ensures SubjectStep(st, sid, acqDates, scanPaths, bidsDir, true) == Failure(NameError("outname"))
  {
  }

  /** Without `no_test` no table is written. */
  lemma {:induction false} DryRunWritesNothing(st: ScanState, sids: seq<string>, acqDates: map<string, string>,
                                               scanPaths: map<string, seq<string>>, bidsDir: string)
    requires Subjects(st, sids, acqDates, scanPaths, bidsDir, false).Success?
    ensures Subjects(st, sids, acqDates, scanPaths, bidsDir, false).value.tables == st.tables
    decreases |sids|
  {
    if sids != [] {
      DryRunWritesNothing(st, sids[..|sids| - 1], acqDates, scanPaths, bidsDir);
    }
  }

  /** `t` is the table of one of `sids`: the rows of its collected scans and its date. */
  ghost predicate WrittenFor(t: Table, sids: seq<string>, acqDates: map<string, string>,
                             scanPaths: map<string, seq<string>>)
  {
    exists sid :: sid in sids && sid in acqDates &&
      t.rows == TableRows(Entries(ScansOf(scanPaths, sid)), FormatDate(acqDates[sid]))
  }

  /** Every table written is the header followed by two-cell rows; more precisely, each new
      table is that of one subject: one row per collected scan, in sorted order, all
      carrying the date of that subject (so `TableRowsSorted` applies to it). */
  lemma {:induction false} TablesWellFormed(st: ScanState, sids: seq<string>, acqDates: map<string, string>,
                                            scanPaths: map<string, seq<string>>, bidsDir: string, noTest: bool)
    requires forall t :: t in st.tables ==>
               |t.rows| >= 1 && t.rows[0] == HEADER && forall i :: 1 <= i < |t.rows| ==> |t.rows[i]| == 2
    requires Subjects(st, sids, acqDates, scanPaths, bidsDir, noTest).Success?
    ensures forall t :: t in Subjects(st, sids, acqDates, scanPaths, bidsDir, noTest).value.tables ==>
              |t.rows| >= 1 && t.rows[0] == HEADER && forall i :: 1 <= i < |t.rows| ==> |t.rows[i]| == 2
    ensures forall t :: t in Subjects(st, sids, acqDates, scanPaths, bidsDir, noTest).value.tables ==>
              t in st.tables || WrittenFor(t, sids, acqDates, scanPaths)
    decreases |sids|
  {
    if sids != [] {
      var init, sid := sids[..|sids| - 1], sids[|sids| - 1];
      TablesWellFormed(st, init, acqDates, scanPaths, bidsDir, noTest);
      var prev := Subjects(st, init, acqDates, scanPaths, bidsDir, noTest).value;
      var after := Subjects(st, sids, acqDates, scanPaths, bidsDir, noTest).value;
      assert SubjectStep(prev, sid, acqDates, scanPaths, bidsDir, noTest) == Success(after);
      forall t | t in after.tables && t !in st.tables ensures WrittenFor(t, sids, acqDates, scanPaths) {
        if t in prev.tables {
          var w :| w in init && w in acqDates &&
                   t.rows == TableRows(Entries(ScansOf(scanPaths, w)), FormatDate(acqDates[w]));
          assert w in sids;
        } else {
          CollectEntries(bidsDir, prev.outname, ScansOf(scanPaths, sid));
          assert sid in sids;
        }
      }
    }
  }

  /** A listing without subjects fails when the date is printed after the loop. */
  lemma NoSubjectsNoDate(listing: seq<string>, acqDates: map<string, string>,
                         scanPaths: map<string, seq<string>>, bidsDir: string, noTest: bool)
    requires forall x :: x in listing ==> !Contains(x, "sub-")
    ensures WriteScanTsvSpec(listing, acqDates, scanPaths, bidsDir, noTest) == Failure(NameError("date"))
  {
    SubjectIdsSpec(listing);
    var ids := SubjectIds(listing);
    forall id ensures multiset(ids)[id] == 0 {
      assert id !in ids;
    }
    assert multiset(ids) == multiset{};
    assert |ids| == |multiset(ids)|;
  }
}

# make_bids in Dafny

make_bids is a Python 2 command-line helper. It reshapes a directory of converted MRI data
into the BIDS layout. Its operations are:

- prefixing subject folders with `sub-` (`add_sub`);
- removing underscores from subject folder and file names (`drop_underscore`);
- writing each subject's `*_scans.tsv` table of scans and acquisition date (`write_scantsv`);
- merging fields into JSON sidecars (`add_metadata`, `add_taskname`);
- pointing EPI fieldmaps at the runs they correct (`fix_fieldmaps`, `choose`);
- reading BIDS entities off a path (`BidsFileStructure`);
- two reporting helpers of the top-level script (`groupSes`, `remove_extra`).

This project models the deterministic layer under the filesystem and JSON calls, and proves
what that layer promises.

Modelling choices:

- **Filesystem as values.** A directory is its listing (`seq<string>`), and the JSON
  sidecars are a store `map<string, Json>`. An operation returns the renames it plans (a
  `seq<Rename>`). When `noTest` is set, that plan is applied to the listing with
  `os.rename`'s semantics: a missing source raises OSError, and an existing target is
  replaced. The model then returns the listing the plan leaves behind.
- **Python exceptions.** The exceptions the code can raise are a `Result` failure with the
  Python exception class:
  - OSError: renaming a missing entry, or listing a missing folder;
  - IOError: a missing sidecar, or the re-raised 'Sessions are not yet supported';
  - IndexError: `paths[-3]` of a short path;
  - NameError: an unbound `outname`, `date` or `search`;
  - AttributeError: `.items()` of a non-object, or `.group` of a failed match;
  - ValueError: `split('')`.
- **Python 2 string semantics, written out.**
  - `in` is a substring test.
  - `split` cuts at the leftmost non-overlapping occurrences.
  - Slices clamp out-of-range bounds.
  - `sorted` compares code points lexicographically.
  - `filter` over a `str` returns a `str`.
  - A Python 2 `str` is a byte string: each Dafny `char` stands for one byte, so
    `x[-3:]`, `isdigit` and the ASCII `\w` class all work byte by byte.
- **Loops.** Most loops of the source are methods with a `for` loop. Each such method is
  proved equal to a left-recursive function of the input that consumes one element per
  step; the lemmas about that function state what the operation promises. Two loops stay
  functions. The `for fmap in fmaps` loop of `fix_fieldmaps` returns after its first pass,
  so `FixFieldmapsWithSearch` handles only the first fieldmap. The row-writing loop of
  `write_scantsv` writes one row per sorted scan, and `TableRows` builds those rows.
- **One model for duplicated code.** `makebids/makebids.py` and the older top-level
  `makebids.py` share `add_sub`, `drop_underscore`, `write_scantsv` and `add_taskname`
  line for line (`makebids.py` lines 32-95), so each is modelled once, and the rows below
  cite the package copy.

Modules:

- `Results`: Option and Result.
- `Strings`: `in`, `split`, `join`, slices, `os.path.join`/`basename`.
- `Sorting`: `sorted` and `filter`.
- `Metadata`: JSON values and the dict merge.
- `Entities`: `BidsFileStructure`.
- `Renames`: rename plans and their application.
- `SubjectPrefix`: `add_sub`.
- `DropUnderscores`: `drop_underscore`.
- `ScanTable`: `write_scantsv`.
- `TaskName`: `add_taskname`.
- `Fieldmaps`: `fix_fieldmaps`, `choose`.
- `Sessions`: `groupSes`, `remove_extra`.

Three behaviours of the code are easy to miss, and the model keeps each of them:

- **`drop_underscore` in a dry run.** It reports every candidate rename; it does not stop
  after the first one.
- **How `drop_underscore` renames files.** Its second pass renames every entry of the
  folders two levels down whose name mentions the subject prefix.
- **A fieldmap name without an `acq-` tag.** The regular-expression search finds nothing,
  `.group(0)` then raises, and the run stops.

## Model

| member | source | states |
|---|---|---|
| Strings.FindFirst | makebids/makebids.py:53 | the position `split` cuts at is an occurrence of the separator |
| Strings.FindFirstSpec | makebids/makebids.py:53 | no occurrence starts before that position, and None means there is no occurrence at all |
| Strings.FindContains | makebids/makebids.py:40 | an occurrence is found exactly when Python's substring `in` holds |
| Strings.Split | makebids/makebids.py:53 | `str.split(sep)` returns at least one piece |
| Strings.SplitAbsent | makebids/makebids.py:53 | a name without the separator splits into itself alone |
| Strings.SplitJoin | makebids/makebids.py:53-54 | joining the pieces of a split with the separator gives the string back |
| Strings.JoinSplitChar | makebids/makebids.py:66 | splitting pieces joined by a character none of them holds gives those pieces back |
| Strings.SplitLeftmost | makebids/makebids.py:53 | every cut is at the leftmost occurrence, so no piece, extended by less than a separator, contains one |
| Strings.SplitPiecesFree | makebids/makebids.py:53 | no piece of a split contains the separator |
| Strings.SplitFirst | makebids/makebids.py:110 | `split(sep)[0]` is a prefix of the string |
| Strings.SplitLastSuffix | makebids.py:22 | `split(sep)[-1]` is a suffix of the string |
| Strings.JoinLastSuffix | makebids.py:22 | the last piece joined ends the joined string |
| Strings.JoinLastSep | makebids.py:22 | with two pieces or more, the separator sits right before the last piece in the joined string |
| Strings.SplitCuts | makebids.py:22 | a separator that occurs cuts the string into two pieces or more |
| Strings.SplitLastSep | makebids.py:22 | when the separator occurs, `split(sep)[-1]` comes right after an occurrence of it |
| Strings.DeleteAllJoin | makebids/makebids.py:66 | deleting the separator from pieces joined by it gives their concatenation |
| Strings.ConcatAvoids | makebids/makebids.py:54 | concatenating pieces without a character gives a string without it |
| Sorting.LexLeqTotal | makebids/makebids.py:40 | the string order `sorted` uses is total |
| Sorting.LexLeqTransitive | makebids/makebids.py:40 | the string order is transitive |
| Sorting.LexLeqAntisymmetric | makebids/makebids.py:40 | the string order is antisymmetric |
| Sorting.Insert | makebids/makebids.py:40 | inserting adds exactly that element |
| Sorting.InsertSorted | makebids/makebids.py:40 | inserting into a sorted list keeps it sorted |
| Sorting.Sort | makebids/makebids.py:40 | `sorted` returns a permutation of its input |
| Sorting.SortSorted | makebids/makebids.py:40 | `sorted` returns an ordered permutation of its input |
| Sorting.SortedUnique | makebids/makebids.py:77 | two ordered permutations of the same list are equal, so the sorted order is unique |
| Sorting.FilterCount | makebids/makebids.py:40 | a list comprehension with a condition keeps each kept element as often as listed, and no other |
| Sorting.FilterSorted | makebids/makebids.py:40 | filtering a sorted list keeps it sorted |
| Metadata.IntoAppend | makebids/makebids.py:34 | building a dict from `a + b` is building it from `a`, then updating with `b` |
| Metadata.IntoAgreeing | makebids/makebids.py:34 | pairs that agree with a dict override exactly the keys they list |
| Metadata.ItemsUnion | makebids/makebids.py:34 | `dict(meta.items() + add.items())` is the merge, whichever order `items()` lists keys in |
| Metadata.ItemsOfRebuilds | makebids/makebids.py:34 | `dict(m.items())` rebuilds `m` |
| Metadata.MergeIdempotent | makebids/makebids.py:99 | merging the same addition twice equals merging it once |
| Metadata.AddMetadata | makebids/makebids.py:23-37 | succeeds exactly on an existing object sidecar, and IOError on a missing one; only that sidecar changes, to its merge with the addition |
| Entities.After | makebids.py:22 | `split(marker)[-1]` is a suffix without the marker; it is the whole path when the marker is absent, and otherwise comes right after an occurrence of the marker |
| Entities.Field | makebids.py:22 | the entity value holds no '_' and runs from the last marker up to the next '_' |
| Entities.NonDigits | makebids.py:25 | `filter(not isdigit)` keeps, in order, every non-digit character exactly as often as it occurs, and no digit |
| Entities.BidsFileStructure.HasSes | makebids.py:17-18 | true exactly when 'ses' occurs in the path |
| Entities.BidsFileStructure.TaskName | makebids.py:20-22 | None exactly when 'task' is absent; otherwise an '_'-free value running from the last '_task-' to the next '_' |
| Entities.BidsFileStructure.SubjPrefix | makebids.py:24-25 | the digit-free subsequence of the subject id, with every non-digit character kept |
| Renames.DistinctCounts | makebids/makebids.py:40 | a listing has no repeated name exactly when every name is counted at most once |
| Renames.Replace | makebids/makebids.py:46 | after `os.rename(src, dst)` the listing holds `dst` plus every other name except `src` |
| Renames.RenameIn | makebids/makebids.py:46 | renaming fails exactly when the source is missing; otherwise the new listing is as `Replace` states |
| Renames.ApplyPlanNames | makebids/makebids.py:41-46 | after a plan goes through, every name is a target of the plan, or was there before and was no source |
| Renames.ApplyPlanSucceeds | makebids/makebids.py:41-46 | a plan with every source present and no source renamed twice goes through |
| Renames.ApplyPlanAppend | makebids/makebids.py:51-57 | applying `p + q` is applying `p`, then `q` |
| Renames.AbsentSourceFails | makebids/makebids.py:57 | a rename of a name that is missing and that no rename produces makes the plan fail |
| Renames.RenameTwiceFails | makebids/makebids.py:57 | renaming one entry twice fails unless a rename brings the name back |
| Renames.PlanForAppend | makebids/makebids.py:51-57 | the plan of `a + b` is the plan of `a` followed by the plan of `b` |
| Renames.PlanForSpec | makebids/makebids.py:51-57 | the rename loop plans exactly the selected entries, each to its target |
| Renames.PlanForTwiceFails | makebids/makebids.py:51 | an entry listed twice and selected makes the plan fail when no target is that entry |
| SubjectPrefix.AddSub | makebids/makebids.py:39-46 | the run performs the plan; with `no_test` unset the listing is unchanged |
| SubjectPrefix.CandidatesSelect | makebids/makebids.py:40 | the selected names are sorted, and are exactly the entries with `subjpre` and without 'sub-', each as often as listed |
| SubjectPrefix.AddSubTargets | makebids/makebids.py:42-43 | every rename takes a selected name to 'sub-' + that name, so the target carries 'sub-' and the source did not |
| SubjectPrefix.AddSubSucceeds | makebids/makebids.py:46 | on a listing without repeated names every rename goes through |
| SubjectPrefix.AddSubRerunSelectsNothing | makebids/makebids.py:40-43 | after the renames, a second run selects nothing |
| SubjectPrefix.RenamedNotCandidate | makebids/makebids.py:40-43 | no name left by the renames is selectable again |
| DropUnderscores.DirTargetSpec | makebids/makebids.py:53-54 | the folder name has no '_', is a prefix of the name with '_' deleted, and is all of it when there are at most `undscr+1` pieces |
| DropUnderscores.PiecesLackUnderscore | makebids/makebids.py:53 | no piece of `split('_')` holds '_' |
| DropUnderscores.DeleteAllPieces | makebids/makebids.py:53-54 | joining all pieces of `split('_')` deletes every '_' |
| DropUnderscores.FileTargetSpec | makebids/makebids.py:65-69 | the file name starts with the first `undscr+1` pieces joined; it is the rejoined name, less one trailing '_' if it had one; and deleting '_' from it gives the original name with '_' deleted |
| DropUnderscores.DropTrailing | makebids/makebids.py:68-69 | dropping one trailing '_' keeps every prefix before it and every character other than '_' |
| DropUnderscores.DeleteJoinedParts | makebids/makebids.py:66 | the rejoined name is the original pieces once '_' is deleted |
| DropUnderscores.FileJoinedKeepsCharacters | makebids/makebids.py:65-66 | rejoining keeps every character other than '_' in order |
| DropUnderscores.DirTargetIdempotent | makebids/makebids.py:53-54 | a rewritten folder name rewrites to itself |
| DropUnderscores.FilesPassFailureStays | makebids/makebids.py:60-74 | the second pass stops at the first failing folder |
| DropUnderscores.PlanPrefixFails | makebids/makebids.py:57 | a failing rename fails the whole loop |
| DropUnderscores.RenameEach | makebids/makebids.py:51-57 | the rename loop returns the plan for the selected entries, and with `no_test` the listing it leaves or OSError |
| DropUnderscores.RenameFolder | makebids/makebids.py:61-74 | one folder of the second pass, where any error becomes IOError('Sessions are not yet supported') |
| DropUnderscores.DropUnderscore | makebids/makebids.py:48-74 | both passes as the specification function states; a missing `sourcedata` is OSError |
| DropUnderscores.DirPlanSpec | makebids/makebids.py:51-57 | the first pass renames exactly the entries mentioning `subjpre`, each to an '_'-free name |
| DropUnderscores.FilePlanSpec | makebids/makebids.py:62-72 | the second pass renames exactly the files mentioning `subjpre`, each keeping its characters other than '_' |
| DropUnderscores.FilesPassDryRun | makebids/makebids.py:60-74 | without `no_test` the second pass fails only on a missing folder, reports every plan, and leaves every listing unchanged |
| DropUnderscores.DropUnderscoreDryRun | makebids/makebids.py:48-74 | without `no_test` the run fails only on a missing folder, reports every planned rename, and changes nothing |
| DropUnderscores.SourcedataTwinFails | makebids/makebids.py:51-57 | a subject folder with '_' listed both in the data directory and in `sourcedata` makes the live run fail, because it is renamed twice |
| DropUnderscores.TwinRenamedTwice | makebids/makebids.py:51-57 | the plan for such a twin does not go through |
| ScanTable.FormatDateDashes | makebids/makebids.py:80 | the date gains two dashes, at the clamped positions 4 and 6, and removing them gives the date back |
| ScanTable.FormatDateEight | makebids/makebids.py:80 | an 8-character date becomes `YYYY-MM-DD`, 10 characters long, and deleting the dashes gives it back |
| ScanTable.SubjectEntriesSpec | makebids/makebids.py:77 | the entries kept are exactly the listed names containing 'sub-' |
| ScanTable.LastThreeMembers | makebids/makebids.py:77 | the ids are exactly the last three characters of the kept entries, each at most 3 characters long |
| ScanTable.SubjectIdsSpec | makebids/makebids.py:77 | the ids are sorted; they are the last three characters of the 'sub-' entries, as often as listed; each has at most 3 characters |
| ScanTable.ScanEntryComponents | makebids/makebids.py:83-84 | a scan entry is made of the last two '/' components of its path |
| ScanTable.OutName | makebids/makebids.py:85 | IndexError exactly when the path has fewer than three components |
| ScanTable.TableRowsSorted | makebids/makebids.py:88-91 | a table is the header and one row per scan; every row after the header holds the date; the scan column is sorted and is a permutation of the collected scans |
| ScanTable.CollectFailureStays | makebids/makebids.py:82-85 | the inner loop stops at the first failure |
| ScanTable.SubjectsFailureStays | makebids/makebids.py:78-92 | the outer loop stops at the first failure |
| ScanTable.CollectEntries | makebids/makebids.py:82-84 | a scan loop that goes through collects `'/'.join(paths[-2:])` of each path, in order, whatever `outname` it starts from |
| ScanTable.CollectNext | makebids/makebids.py:82-85 | one more scan appends its entry and recomputes `outname`; an IndexError there ends the whole loop |
| ScanTable.SubjectsNext | makebids/makebids.py:78-91 | one more subject is one more step; a failing step ends the whole loop |
| ScanTable.ScanSubject | makebids/makebids.py:79-91 | one subject's date, scans and, with `no_test`, table, as the step function states |
| ScanTable.CollectScans | makebids/makebids.py:81-85 | the inner loop collects the scan entries, recomputing `outname` from each |
| ScanTable.WriteScanTsv | makebids/makebids.py:76-93 | the whole run as the specification function states |
| ScanTable.StaleOutnameOverwrites | makebids/makebids.py:82-91 | a subject without scans rewrites the previous subject's table with the header alone |
| ScanTable.FirstSubjectWithoutScans | makebids/makebids.py:85-87 | a live run whose first subject has no scans fails with NameError on `outname` |
| ScanTable.DryRunWritesNothing | makebids/makebids.py:86 | without `no_test` no table is written |
| ScanTable.TablesWellFormed | makebids/makebids.py:77-91 | every table written is the header plus two-cell rows, and each new one is the table of one subject: its collected scan entries sorted, each with that subject's formatted acquisition date |
| ScanTable.NoSubjectsNoDate | makebids/makebids.py:93 | a listing without subjects fails with NameError on `date` |
| TaskName.TaskRunFailureStays | makebids/makebids.py:96-102 | the loop stops at the first failing sidecar |
| TaskName.AddTaskname | makebids/makebids.py:95-102 | the loop computes the store the specification function states |
| TaskName.TaskRunSpec | makebids/makebids.py:96-102 | succeeds exactly when every selected sidecar exists and is an object, and then leaves each selected sidecar merged with the tag when `no_test` |
| TaskName.TaggedSnoc | makebids/makebids.py:97-102 | tagging one more selected sidecar merges the tag into it, leaving an already-tagged sidecar as it was |
| TaskName.TaggedFields | makebids/makebids.py:97-102 | a written sidecar gains `TaskName` = the task and keeps every other field; no other sidecar changes; nothing changes without `no_test` |
| TaskName.TaskRunIdempotent | makebids/makebids.py:95-102 | a second live run changes nothing |
| Fieldmaps.ReplaceChar | makebids/makebids.py:111 | `replace('_', ' ')` changes exactly the matching characters |
| Fieldmaps.WordRun | makebids/makebids.py:111 | greedy `\w+`: the longest prefix of word characters |
| Fieldmaps.SearchFrom | makebids/makebids.py:111 | the leftmost position where `(?<=acq-)\w` matches, or none |
| Fieldmaps.AcqTagSpec | makebids/makebids.py:111 | there is a match exactly when the pattern matches somewhere; the tag is non-empty, '_'-free, made of word characters, and is the whole greedy `\w` run at the leftmost match position |
| Fieldmaps.TargetsSpec | makebids/makebids.py:112-114 | the candidate runs are exactly the listed files that mention the tag and not 'fmap', as often as listed |
| Fieldmaps.Relative | makebids/makebids.py:117 | `split(subj + '/')[-1]` is a suffix without `subj/`; it is the whole path when `subj/` is absent, and otherwise comes right after an occurrence of `subj/` |
| Fieldmaps.BestSpec | makebids/makebids.py:148-155 | the match is the first option of maximal score, and that score is positive; there is none exactly when no score is positive |
| Fieldmaps.Choose | makebids/makebids.py:139-157 | the target branch's loop returns the best match, or AttributeError when there is none |
| Fieldmaps.FixFieldmaps | makebids/makebids.py:104-126 | as written: NameError on `search` exactly when there is a fieldmap, and nothing written |
| Fieldmaps.FixFieldmapsUnboundSearch | makebids/makebids.py:111 | an example run with one fieldmap fails with NameError |
| Fieldmaps.OnlyFirstFieldmap | makebids/makebids.py:126 | with `search` bound, only the first fieldmap is handled |
| Fieldmaps.FixFieldmapsWithSearchWrites | makebids/makebids.py:110-125 | with `search` bound, a live run gives the first fieldmap's sidecar `IntendedFor` (the runs `Intended` picks for the name's `acq-` tag and subject) and `TotalReadoutTime`, keeps its other fields, and changes no other sidecar; a dry run changes nothing |
| Fieldmaps.IntendedFunctional | makebids/makebids.py:112-117 | for a functional acquisition, `IntendedFor` lists every candidate run relative to the subject folder, in order; a value is listed exactly when it is `Relative(n, subj)` for a listed NIfTI file `n` that mentions the tag and not 'fmap' |
| Sessions.SubjectMoves | makebids.py:103-109 | the inner loop reports the moves the specification function states for one subject |
| Sessions.GroupSes | makebids.py:97-109 | the loop reports the events the specification function states, and creates and moves nothing |
| Sessions.MoveEventsSpec | makebids.py:103-109 | for one subject, a move is reported exactly for each session folder whose first four characters, prefixed with 'sub-', are the subject |
| Sessions.GroupSesSpec | makebids.py:97-109 | a move is reported exactly for a 'SESSION' entry whose 'sub-' + first four characters is a subject, into that subject's folder; a folder is reported as made exactly for a subject whose folder does not exist |
| Sessions.MoveDestinationDoubled | makebids.py:99 | every reported destination contains 'sub-sub-' |
| Sessions.JoinLength | makebids.py:118 | a joined string's length is the pieces' lengths plus one separator between each pair |
| Sessions.StrippedSpec | makebids.py:118 | the new name is the old one with each left-to-right occurrence of `xtra` deleted; it is shorter by one `xtra` per cut; for one character, every occurrence is gone |
| Sessions.FileNamesFailureStays | makebids.py:114-118 | the file loop stops at the first failure |
| Sessions.ExtraNamesFailureStays | makebids.py:112-118 | the folder loop stops at the first failure |
| Sessions.FolderNames | makebids.py:114-118 | one folder's names, as the specification function states |
| Sessions.RemoveExtra | makebids.py:111-118 | the names computed over all folders, with nothing renamed |
| Sessions.FileNamesSpec | makebids.py:114-118 | a new name is computed exactly for each file containing `xtra`, inside that file's folder |
| Sessions.EmptyExtraFails | makebids.py:115-118 | with an empty `xtra` the run succeeds exactly when every matched folder is an empty directory |

## Left out

- Filesystem and process effects are left out: `os.listdir`, `glob`, `os.chdir`,
  `os.path.exists`, `os.path.abspath`/`realpath`, file writes and `print`. Listings,
  glob results, the set of existing paths and the sidecar store are inputs, and what the
  code prints is returned or left out. Symbolic links are not resolved.
- Two effects are not modelled:
  - A rename onto a non-empty directory, which fails on POSIX. In the model the target
    is simply replaced. The same holds for a name starting with '_' when `undscr` is 0:
    `DirTarget` gives "", and `os.rename(.., abspath(''))` would target the data
    directory itself and fail. The model renames the entry to "".
  - Renames done before an error are not rolled back. On error the model returns only
    the failure, not the partly renamed state.
- DropUnderscores.DropUnderscore: the folders of the second pass are an input, not derived
  from the listings the first pass leaves behind.
- JSON parsing, serialisation, indentation and `sort_keys` are left out. Sidecars are
  parsed values.
- The DICOM header read (pydicom) is an input map from subject id to `AcquisitionDate`.
  A subject whose glob matches no DICOM file is the IndexError of `[-1]`. In
  `makebids/makebids.py`, `dicom` is imported only inside `main`, so the module-level
  `write_scantsv` would raise NameError on it. The model assumes `dicom` is bound.
- `BIDSLayout` queries are inputs: the fieldmap list and the NIfTI files listed for the
  subject.
- `calc_readout` is floating-point arithmetic over nested JSON. Its result, or its error,
  is a `Result<real>` input.
- Fieldmaps.Choose: the `SequenceMatcher` ratio is an uninterpreted score function
  `sim`. The source never imports `SequenceMatcher` either, so as written the target
  branch would raise NameError whenever there is at least one option. With no options
  it reaches `os.path.basename(None)`, which raises AttributeError, as `ChooseSpec` gives. The interactive branch (no target, `raw_input`) is not
  modelled, and the method requires a non-empty target.
- The menus, argument parsing and `sys.exit` (`main`, `makebids`) are not part of this
  model. Neither is `load_json` beyond a missing file or a non-object document.
- TaskName.AddTaskname: the task name is a string. A `taskname` of None (no `-t` flag)
  would make `taskname in scan` raise TypeError, which is not modelled.
- SubjectPrefix.AddSub: the unused `ses` argument is dropped, as is the unused `ses` of
  `drop_underscore`.
- Sessions.GroupSes: the commented-out `os.makedirs` and `shutil.move` are not modelled.
  The loop only reports.
- Sessions.RemoveExtra: the file's folder stands for `os.path.dirname(os.path.realpath(fl))`.
- `setup.py` and `makebids/tests` are not part of this model.

## Findings

| source | as written | input that shows it | evidently intended | confidence | as-written member | corrected member |
|---|---|---|---|---|---|---|
| makebids/makebids.py:111 | `search` is called but never imported, so every run with a fieldmap raises NameError before writing | one fieldmap, e.g. `sub-01_acq-func_epi.json` | `from re import search`, so the `acq-` label is read and `IntendedFor`/`TotalReadoutTime` are written to the first fieldmap | high, not executed | Fieldmaps.FixFieldmaps | Fieldmaps.FixFieldmapsWithSearch |

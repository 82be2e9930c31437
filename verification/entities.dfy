/** `BidsFileStructure` (makebids.py): the BIDS entities read off a file path by
    string matching. The class only stores the path it is built with, so it is a value. */
module Entities {
  import opened Results
  import opened Strings

  /** `path.split(marker)[-1]`: what follows the last occurrence of `marker` (all of
      `path` when there is none). It ends `path`, holds no `marker`, and when `marker`
      occurs in `path` it comes right after an occurrence of `marker`. */
  function After(path: string, marker: string): (r: string)
    requires |marker| > 0
    ensures |r| <= |path| && path[|path| - |r|..] == r
    ensures !Contains(r, marker)
    ensures !Contains(path, marker) ==> r == path
    ensures Contains(path, marker) ==>
              |r| + |marker| <= |path| && OccursAt(path, marker, |path| - |r| - |marker|)
  {
    SplitLastSuffix(path, marker);
    SplitPiecesFree(path, marker);
    var r := Last(Split(path, marker));
    if Contains(path, marker) then SplitLastSep(path, marker); r else r
  }

  /** `path.split(marker)[-1].split('_')[0]`: the entity value after the last `marker`,
      up to the next '_'. */
  function Field(path: string, marker: string): (r: string)
    requires |marker| > 0
    ensures '_' !in r
    ensures r <= After(path, marker)
    ensures r == After(path, marker) || After(path, marker)[|r|] == '_'
  {
    var tail := After(path, marker);
    FirstPiece(tail);
    Split(tail, "_")[0]
  }

  lemma FirstPiece(s: string)
    ensures var p := Split(s, "_")[0];
            '_' !in p && p <= s && (p == s || s[|p|] == '_')
  {
    var p := Split(s, "_")[0];
    SplitFirst(s, "_");
    SplitPiecesFree(s, "_");
    ContainsChar(p, '_');
    if p != s {
      assert OccursAt(s, "_", |p|);
      assert s[|p|..|p| + 1] == "_";
    }
  }

  /** `x.isdigit()` for a one-character string. */
  predicate IsDigit(c: char)
  {
    '0' <= c <= '9'
  }

  /** `a` can be obtained from `b` by deleting characters. */
  predicate IsSubsequence(a: string, b: string)
  {
    a == [] || (b != [] && (if a[0] == b[0] then IsSubsequence(a[1..], b[1..]) else IsSubsequence(a, b[1..])))
  }

  /** `filter(lambda x: not x.isdigit(), s)` on a Python 2 string: the characters of `s`
      that are not digits, in order. */
  function NonDigits(s: string): (r: string)
    ensures forall c :: c in r ==> !IsDigit(c)
    ensures IsSubsequence(r, s)
    ensures forall c :: !IsDigit(c) ==> multiset(r)[c] == multiset(s)[c]
  {
    if s == [] then []
    else
      assert s == [s[0]] + s[1..];
      if IsDigit(s[0]) then NonDigits(s[1..]) else [s[0]] + NonDigits(s[1..])
  }

  datatype BidsFileStructure = BidsFileStructure(path: string)
  {
    /** `has_ses`: the path mentions a session. */
    function HasSes(): (r: bool)
      ensures r <==> exists i :: OccursAt(path, "ses", i)
    {
      Contains(path, "ses")
    }

    /** `taskname`: None when 'task' is absent; otherwise the text after the last
        '_task-' up to the next '_', which therefore holds no '_'. */
    function TaskName(): (r: Option<string>)
      ensures r.None? <==> !Contains(path, "task")
      ensures r.Some? ==> '_' !in r.value
      ensures r.Some? ==> var tail := After(path, "_task-");
                          r.value <= tail && (r.value == tail || tail[|r.value|] == '_')
    {
      if Contains(path, "task") then Some(Field(path, "_task-")) else None
    }

    /** `subjprefix`: the non-digit characters, in order, of the subject id (the text
        between the last 'sub-' and the next '_'). */
    function SubjPrefix(): (r: string)
      ensures forall c :: c in r ==> !IsDigit(c)
      ensures IsSubsequence(r, Field(path, "sub-"))
      ensures forall c :: !IsDigit(c) ==> multiset(r)[c] == multiset(Field(path, "sub-"))[c]
    {
      NonDigits(Field(path, "sub-"))
    }
  }
}

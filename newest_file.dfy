/** Choosing the workbook to load from a directory listing: keep the `.xlsx` names,
    sort them by creation time, newest first, with Python's stable `sorted`, and take
    the head (utilities/utils.py, `get_newest_excel_file`, lines 68-81). */
module NewestFile {
  import opened Wrappers

  /** One directory entry: its name (from `os.listdir`) and its creation time
      (from `os.path.getctime`). */
  datatype Entry = Entry(name: string, ctime: real)

  /** Python's `s.endswith(suffix)`. */
  predicate EndsWith(s: string, suffix: string)
  {
    |suffix| <= |s| && s[|s| - |suffix|..] == suffix
  }

  predicate IsXlsx(e: Entry)
  {
    EndsWith(e.name, ".xlsx")
  }

  /** `[f for f in os.listdir(folder_path) if f.endswith('.xlsx')]`, in listing order. */
  function Candidates(listing: seq<Entry>): (files: seq<Entry>)
    ensures forall e :: e in files <==> e in listing && IsXlsx(e)
  {
    if listing == [] then []
    else (if IsXlsx(listing[0]) then [listing[0]] else []) + Candidates(listing[1..])
  }

  /** The filter keeps every `.xlsx` entry as often as it is listed, and drops the rest. */
  lemma {:induction false} CandidatesKeepMultiplicity(listing: seq<Entry>, e: Entry)
    ensures multiset(Candidates(listing))[e] == if IsXlsx(e) then multiset(listing)[e] else 0
  {
    if listing != [] {
      assert listing == [listing[0]] + listing[1..];
      CandidatesKeepMultiplicity(listing[1..], e);
    }
  }

  /** Newest first: every entry is at least as new as every later one. */
  ghost predicate NewestFirst(s: seq<Entry>)
  {
    forall i, j :: 0 <= i < j < |s| ==> s[i].ctime >= s[j].ctime
  }

  /** One insertion step of a stable descending sort: `x`, which came before every
      entry of `s` in the input, goes in front of the first entry that is not newer. */
  function InsertNewestFirst(x: Entry, s: seq<Entry>): (r: seq<Entry>)
    ensures multiset(r) == multiset(s) + multiset{x}
  {
    if s == [] || x.ctime >= s[0].ctime then [x] + s
    else
      assert s == [s[0]] + s[1..];
      [s[0]] + InsertNewestFirst(x, s[1..])
  }

  /** Putting in front of a newest-first list an entry at least as new as all of it
      gives a newest-first list. */
  lemma PrependKeepsNewestFirst(y: Entry, t: seq<Entry>)
    requires NewestFirst(t)
    requires forall j :: 0 <= j < |t| ==> y.ctime >= t[j].ctime
    ensures NewestFirst([y] + t)
  {
    var r := [y] + t;
    forall i, j | 0 <= i < j < |r| ensures r[i].ctime >= r[j].ctime {
      assert r[j] == t[j - 1];
      if i > 0 { assert r[i] == t[i - 1]; }
    }
  }

  /** An entry newer than `x` and at least as new as every entry of a list is at least
      as new as every entry after inserting `x` into that list. */
  lemma InsertBelow(y: Entry, x: Entry, s: seq<Entry>)
    requires y.ctime > x.ctime
    requires forall j :: 0 <= j < |s| ==> y.ctime >= s[j].ctime
    ensures forall j :: 0 <= j < |InsertNewestFirst(x, s)| ==> y.ctime >= InsertNewestFirst(x, s)[j].ctime
  {
    var t := InsertNewestFirst(x, s);
    forall j | 0 <= j < |t| ensures y.ctime >= t[j].ctime {
      assert t[j] in multiset(t);
      if t[j] != x {
        assert t[j] in multiset(s);
        var k :| 0 <= k < |s| && s[k] == t[j];
      }
    }
  }

  /** Inserting into a newest-first list keeps it newest-first. */
  lemma {:induction false} InsertKeepsNewestFirst(x: Entry, s: seq<Entry>)
    requires NewestFirst(s)
    ensures NewestFirst(InsertNewestFirst(x, s))
  {
    if s == [] || x.ctime >= s[0].ctime {
      PrependKeepsNewestFirst(x, s);
    } else {
      var t := InsertNewestFirst(x, s[1..]);
      InsertKeepsNewestFirst(x, s[1..]);
      InsertBelow(s[0], x, s[1..]);
      PrependKeepsNewestFirst(s[0], t);
    }
  }

  /** `sorted(files, key=getctime, reverse=True)`: a permutation of the input, newest
      first. Entries with equal creation times keep their input order, as Python's
      sort is stable also with `reverse=True`. */
  function SortNewestFirst(s: seq<Entry>): (r: seq<Entry>)
    ensures multiset(r) == multiset(s)
    ensures |r| == |s|
    ensures NewestFirst(r)
  {
    if s == [] then []
    else
      assert s == [s[0]] + s[1..];
      var sortedRest := SortNewestFirst(s[1..]);
      InsertKeepsNewestFirst(s[0], sortedRest);
      InsertNewestFirst(s[0], sortedRest)
  }

  /** `sorted_files[0]`, or nothing when there is no candidate (the caller raises). */
  function Newest(listing: seq<Entry>): (r: Option<Entry>)
    ensures r.None? <==> Candidates(listing) == []
    ensures r.Some? ==> r.value in listing && IsXlsx(r.value)
  {
    var files := Candidates(listing);
    if files == [] then None
    else
      var latest := SortNewestFirst(files)[0];
      assert latest in multiset(SortNewestFirst(files));
      assert latest in files;
      Some(latest)
  }

  /** How `Newest` evolves when one entry is put in front of a listing. */
  lemma NewestCons(x: Entry, rest: seq<Entry>)
    ensures !IsXlsx(x) ==> Newest([x] + rest) == Newest(rest)
    ensures IsXlsx(x) ==>
      Newest([x] + rest) ==
        (if Newest(rest).None? || x.ctime >= Newest(rest).value.ctime then Some(x) else Newest(rest))
  {
    var l := [x] + rest;
    assert l[0] == x && l[1..] == rest;
    if IsXlsx(x) {
      assert Candidates(l) == [x] + Candidates(rest);
    } else {
      assert Candidates(l) == Candidates(rest);
    }
  }

  /** Position `i` of the listing holds an `.xlsx` entry that is at least as new as
      every `.xlsx` entry, and strictly newer than every `.xlsx` entry listed before it. */
  ghost predicate EarliestLatestAt(listing: seq<Entry>, i: int)
  {
    0 <= i < |listing| && IsXlsx(listing[i]) &&
    (forall j :: 0 <= j < |listing| && IsXlsx(listing[j]) ==> listing[j].ctime <= listing[i].ctime) &&
    (forall j :: 0 <= j < i && IsXlsx(listing[j]) ==> listing[j].ctime < listing[i].ctime)
  }

  /** The selected file is an `.xlsx` entry of the listing whose creation time is the
      greatest among the `.xlsx` entries; every `.xlsx` entry listed before it is
      strictly older, so on a tie the earliest-listed file wins. There is a selection
      exactly when some entry is an `.xlsx` file. */
  lemma {:induction false} NewestIsEarliestLatest(listing: seq<Entry>)
    ensures Newest(listing).None? <==> forall e :: e in listing ==> !IsXlsx(e)
    ensures Newest(listing).Some? ==>
      exists i :: EarliestLatestAt(listing, i) && listing[i] == Newest(listing).value
  {
    NewestNoneIffNoXlsx(listing);
    if listing != [] && Newest(listing).Some? {
      var x, rest := listing[0], listing[1..];
      assert listing == [x] + rest;
      NewestIsEarliestLatest(rest);
      NewestCons(x, rest);
      if IsXlsx(x) && (Newest(rest).None? || x.ctime >= Newest(rest).value.ctime) {
        FrontIsEarliestLatest(listing);
        assert listing[0] == Newest(listing).value;
      } else {
        var k :| EarliestLatestAt(rest, k) && rest[k] == Newest(rest).value;
        ShiftEarliestLatest(listing, k);
      }
    }
  }

  /** There is no selection exactly when no entry is an `.xlsx` file. */
  lemma NewestNoneIffNoXlsx(listing: seq<Entry>)
    ensures Newest(listing).None? <==> forall e :: e in listing ==> !IsXlsx(e)
  {
    if Candidates(listing) != [] {
      assert Candidates(listing)[0] in Candidates(listing);
    }
  }

  /** A first entry that is an `.xlsx` file at least as new as the tail's selection
      (or with no selection in the tail) is the earliest latest entry. */
  lemma FrontIsEarliestLatest(listing: seq<Entry>)
    requires listing != [] && IsXlsx(listing[0])
    requires Newest(listing[1..]).Some? ==>
      exists k :: EarliestLatestAt(listing[1..], k) && listing[1..][k] == Newest(listing[1..]).value
    requires Newest(listing[1..]).None? || listing[0].ctime >= Newest(listing[1..]).value.ctime
    ensures EarliestLatestAt(listing, 0)
  {
    var rest := listing[1..];
    NewestNoneIffNoXlsx(rest);
    if Newest(rest).None? {
      FrontIsOnlyXlsx(listing);
    } else {
      var k :| EarliestLatestAt(rest, k) && rest[k] == Newest(rest).value;
      FrontBeatsTail(listing, k);
    }
  }

  /** An `.xlsx` first entry followed by no `.xlsx` entry is the earliest latest entry. */
  lemma FrontIsOnlyXlsx(listing: seq<Entry>)
    requires listing != [] && IsXlsx(listing[0])
    requires forall e :: e in listing[1..] ==> !IsXlsx(e)
    ensures EarliestLatestAt(listing, 0)
  {
    forall j | 1 <= j < |listing| ensures !IsXlsx(listing[j]) {
      assert listing[j] == listing[1..][j - 1];
    }
  }

  /** An `.xlsx` first entry at least as new as the tail's earliest latest entry is the
      earliest latest entry of the whole listing. */
  lemma FrontBeatsTail(listing: seq<Entry>, k: int)
    requires listing != [] && IsXlsx(listing[0])
    requires EarliestLatestAt(listing[1..], k) && listing[0].ctime >= listing[1..][k].ctime
    ensures EarliestLatestAt(listing, 0)
  {
    forall j | 1 <= j < |listing| && IsXlsx(listing[j])
      ensures listing[j].ctime <= listing[0].ctime
    {
      assert listing[j] == listing[1..][j - 1];
    }
  }

  /** If the earliest latest entry of the tail is strictly newer than the first entry
      (or the first entry is no `.xlsx` file), it stays the earliest latest entry. */
  lemma ShiftEarliestLatest(listing: seq<Entry>, k: int)
    requires listing != [] && EarliestLatestAt(listing[1..], k)
    requires IsXlsx(listing[0]) ==> listing[0].ctime < listing[1..][k].ctime
    ensures EarliestLatestAt(listing, k + 1)
  {
    var rest := listing[1..];
    forall j | 0 <= j < |listing| && IsXlsx(listing[j])
      ensures listing[j].ctime <= listing[k + 1].ctime
      ensures j < k + 1 ==> listing[j].ctime < listing[k + 1].ctime
    {
      if j > 0 {
        assert listing[j] == rest[j - 1];
      }
    }
  }
}

// Records of deleted files: the remembered deletion test and the sweep that drops
// them from the index.
module Prune {
  import opened Text

  /** One index entry; `link` is a submodule. */
  datatype Entry = Entry(path: string, link: bool)

  /** The names of the files the account has now. */
  type Live = set<string>

  predicate InDirectory(path: string) { '/' in path }

  /** split_top */
  function Top(path: string): string { path[..IndexOf(path, '/')] }

  /** The data file a name belongs to: its own name, less a `.DICT`. */
  function Base(top: string): string
  {
    if |top| > 5 && top[|top| - 5..] == ".DICT" then top[..|top| - 5] else top
  }

  // ---- was this name a file that has gone --------------------------------

  /** Content of the file, as opposed to the control that declares it. */
  predicate Content(path: string, base: string)
  {
    path != base + ".DICT/%FILE%" && (HasPrefix(path, base + ".DICT/") || HasPrefix(path, base + "/"))
  }

  predicate Tracked(index: seq<Entry>, base: string)
  {
    exists i :: 0 <= i < |index| && Content(index[i].path, base)
  }

  /** The uncached answer for a base name. */
  predicate GoneBase(index: seq<Entry>, live: Live, base: string)
  {
    base !in live && Tracked(index, base)
  }

  predicate Gone(index: seq<Entry>, live: Live, top: string)
  {
    top != "" && Base(top) != "" && GoneBase(index, live, Base(top))
  }

  method ScanTracked(index: seq<Entry>, base: string) returns (found: bool)
    ensures found == Tracked(index, base)
  {
    var i := 0;
    while i < |index|
      invariant 0 <= i <= |index|
      invariant forall k :: 0 <= k < i ==> !Content(index[k].path, base)
    {
      if Content(index[i].path, base) {
        return true;
      }
      i := i + 1;
    }
    return false;
  }

  /** g_gone_memo and g_gone_ans: one remembered answer, None after a reset. */
  class GoneMemo {
    var base: string
    var ans: Option<bool>

    /** The remembered answer is the scan's. */
    predicate Agrees(index: seq<Entry>, live: Live)
      reads this
    {
      ans.Some? ==> ans.value == GoneBase(index, live, base)
    }

    constructor ()
      ensures ans == None
    {
      base := "";
      ans := None;
    }

    method Reset()
      modifies this
      ensures forall index, live :: Agrees(index, live)
    {
      ans := None;
    }

    /** tracked_file_gone: between resets the memo never changes an answer. */
    method TrackedFileGone(index: seq<Entry>, live: Live, top: string) returns (gone: bool)
      requires Agrees(index, live)
      modifies this
      ensures gone == Gone(index, live, top) && Agrees(index, live)
    {
      if top == "" {
        return false;
      }
      var b := Base(top);
      if b == "" {
        return false;
      }
      if ans.Some? && base == b {
        return ans.value;
      }
      gone := false;
      if b !in live {
        gone := ScanTracked(index, b);
      }
      base := b;
      ans := Some(gone);
    }
  }

  // ---- the sweep ---------------------------------------------------------

  /** Every MV file has a dictionary; a plain directory has none. */
  predicate HasDictionary(index: seq<Entry>, top: string)
  {
    exists i :: 0 <= i < |index| && HasPrefix(index[i].path, top + ".DICT/")
  }

  /** The names whose entries go.  A build without records takes every gone name. */
  predicate Selected(index: seq<Entry>, live: Live, noRecords: bool, top: string)
  {
    Gone(index, live, top) && (noRecords || HasDictionary(index, top))
  }

  predicate Sweepable(e: Entry) { !e.link && InDirectory(e.path) }

  predicate Dropped(index: seq<Entry>, live: Live, noRecords: bool, e: Entry)
  {
    Sweepable(e) && Selected(index, live, noRecords, Top(e.path))
  }

  /** The entries of `es` the sweep keeps, judged against `index`. */
  function Kept(es: seq<Entry>, index: seq<Entry>, live: Live, noRecords: bool): seq<Entry>
  {
    if es == [] then []
    else (if Dropped(index, live, noRecords, es[0]) then [] else [es[0]]) + Kept(es[1..], index, live, noRecords)
  }

  /** An index names each path once. */
  predicate Unique(index: seq<Entry>)
  {
    forall i, j :: 0 <= i < j < |index| ==> index[i].path != index[j].path
  }

  /** git_index_remove_bypath */
  function Remove(index: seq<Entry>, path: string): seq<Entry>
  {
    if index == [] then []
    else if index[0].path == path then index[1..]
    else [index[0]] + Remove(index[1..], path)
  }

  lemma {:induction false} RemoveAt(index: seq<Entry>, i: nat)
    requires i < |index| && forall k :: 0 <= k < i ==> index[k].path != index[i].path
    ensures Remove(index, index[i].path) == index[..i] + index[i + 1..]
  {
    if i == 0 {
      assert index[..0] + index[1..] == index[1..];
    } else {
      RemoveAt(index[1..], i - 1);
      assert index[1..][i - 1] == index[i];
      assert index[..i] + index[i + 1..] == [index[0]] + (index[1..][..i - 1] + index[1..][i..]);
    }
  }

  method HasDict(index: seq<Entry>, top: string) returns (isFile: bool)
    ensures isFile == HasDictionary(index, top)
  {
    var j := 0;
    while j < |index|
      invariant 0 <= j <= |index|
      invariant forall k :: 0 <= k < j ==> !HasPrefix(index[k].path, top + ".DICT/")
    {
      if HasPrefix(index[j].path, top + ".DICT/") {
        return true;
      }
      j := j + 1;
    }
    return false;
  }

  /** First the decisions, against the index as it stands. */
  method Decide(index: seq<Entry>, live: Live, noRecords: bool, memo: GoneMemo) returns (gone: seq<string>)
    requires memo.Agrees(index, live)
    modifies memo
    ensures memo.Agrees(index, live)
    ensures forall t :: t in gone ==> Selected(index, live, noRecords, t)
    ensures forall i :: 0 <= i < |index| && Dropped(index, live, noRecords, index[i]) ==> Top(index[i].path) in gone
  {
    hide Selected, Gone, Top;
    gone := [];
    var i := 0;
    while i < |index|
      invariant 0 <= i <= |index| && memo.Agrees(index, live)
      invariant forall t :: t in gone ==> Selected(index, live, noRecords, t)
      invariant forall k :: 0 <= k < i && Dropped(index, live, noRecords, index[k]) ==> Top(index[k].path) in gone
    {
      var e := index[i];
      i := i + 1;
      if e.link || !InDirectory(e.path) {
        continue;
      }
      var top := Top(e.path);
      if top in gone {
        continue;
      }
      var g := memo.TrackedFileGone(index, live, top);
      SelectedIs(index, live, noRecords, top);
      if !g {
        continue;
      }
      if !noRecords {
        var isFile := HasDict(index, top);
        if !isFile {
          continue;
        }
      }
      gone := gone + [top];
    }
  }

  lemma SelectedIs(index: seq<Entry>, live: Live, noRecords: bool, top: string)
    ensures Selected(index, live, noRecords, top) <==>
            Gone(index, live, top) && (noRecords || HasDictionary(index, top))
  {}

  lemma KeptFrom(es: seq<Entry>, i: nat, index: seq<Entry>, live: Live, noRecords: bool)
    requires i < |es|
    ensures Kept(es[i..], index, live, noRecords) ==
      (if Dropped(index, live, noRecords, es[i]) then [] else [es[i]]) + Kept(es[i + 1..], index, live, noRecords)
  {
    assert es[i..][1..] == es[i + 1..];
  }

  /** GITPRUNE: the descending loop removes exactly the entries under the names that
      were selected against the index before any removal, and keeps the rest in order. */
  method Sweep(index: seq<Entry>, live: Live, noRecords: bool, memo: GoneMemo)
    returns (after: seq<Entry>, dropped: nat)
    requires Unique(index)
    modifies memo
    ensures after == Kept(index, index, live, noRecords) && dropped == |index| - |after|
  {
    memo.Reset();
    var gone := Decide(index, live, noRecords, memo);
    hide Dropped, Kept, Remove, Unique, Selected, Top, InDirectory;
    after := index;
    dropped := 0;
    var i := |index|;
    ghost var tail: seq<Entry> := [];
    KeptNone(index, live, noRecords);
    assert index[i..] == [] && index[..i] + tail == index;
    while i > 0
      invariant 0 <= i <= |index| && dropped == |index| - |after|
      invariant after == index[..i] + tail
      invariant tail == Kept(index[i..], index, live, noRecords)
    {
      i := i - 1;
      var e := index[i];
      KeptFrom(index, i, index, live, noRecords);
      DroppedIs(index, live, noRecords, e);
      RemoveMiddle(index, i, tail);
      if !e.link && InDirectory(e.path) && Top(e.path) in gone {
        after := Remove(after, e.path);
        dropped := dropped + 1;
      } else {
        tail := [e] + tail;
      }
    }
    assert index[0..] == index && index[..0] + tail == tail;
  }

  lemma RemoveMiddle(index: seq<Entry>, i: nat, tail: seq<Entry>)
    requires Unique(index) && i < |index|
    ensures var all := index[..i + 1] + tail;
      all == index[..i] + ([index[i]] + tail) && Remove(all, index[i].path) == index[..i] + tail
  {
    var all := index[..i + 1] + tail;
    RemoveAt(all, i);
    assert all[..i] == index[..i] && all[i + 1..] == tail;
  }

  lemma DroppedIs(index: seq<Entry>, live: Live, noRecords: bool, e: Entry)
    ensures Dropped(index, live, noRecords, e) <==> Sweepable(e) && Selected(index, live, noRecords, Top(e.path))
  {}

  lemma KeptNone(index: seq<Entry>, live: Live, noRecords: bool)
    ensures Kept([], index, live, noRecords) == []
  {}

  // ---- what the sweep does and does not take -----------------------------

  /** An entry is still there exactly when it was there and was not dropped. */
  lemma {:induction false} KeptMember(es: seq<Entry>, index: seq<Entry>, live: Live, noRecords: bool, e: Entry)
    ensures e in Kept(es, index, live, noRecords) <==> e in es && !Dropped(index, live, noRecords, e)
  {
    if es == [] {
    } else {
      KeptMember(es[1..], index, live, noRecords, e);
    }
  }

  /** Fewer entries never select more names. */
  lemma SelectedMonotone(small: seq<Entry>, index: seq<Entry>, live: Live, noRecords: bool, top: string)
    requires (forall e :: e in small ==> e in index) && Selected(small, live, noRecords, top)
    ensures Selected(index, live, noRecords, top)
  {
    var i :| 0 <= i < |small| && Content(small[i].path, Base(top));
    assert small[i] in small;
    var k :| 0 <= k < |index| && index[k] == small[i];
    if !noRecords {
      var j :| 0 <= j < |small| && HasPrefix(small[j].path, top + ".DICT/");
      assert small[j] in small;
      var m :| 0 <= m < |index| && index[m] == small[j];
    }
  }

  lemma {:induction false} KeptAll(es: seq<Entry>, index: seq<Entry>, live: Live, noRecords: bool)
    requires forall e :: e in es ==> !Dropped(index, live, noRecords, e)
    ensures Kept(es, index, live, noRecords) == es
  {
    if es == [] {
    } else {
      KeptAll(es[1..], index, live, noRecords);
    }
  }

  /** A second sweep finds nothing left to take. */
  lemma SweepSettles(index: seq<Entry>, live: Live, noRecords: bool)
    ensures var after := Kept(index, index, live, noRecords);
      Kept(after, after, live, noRecords) == after
  {
    hide Dropped, Selected, Kept;
    var after := Kept(index, index, live, noRecords);
    forall e | e in after ensures e in index && !Dropped(index, live, noRecords, e) {
      KeptMember(index, index, live, noRecords, e);
    }
    forall e | e in after ensures !Dropped(after, live, noRecords, e) {
      DroppedIs(index, live, noRecords, e);
      DroppedIs(after, live, noRecords, e);
      if Selected(after, live, noRecords, Top(e.path)) {
        SelectedMonotone(after, index, live, noRecords, Top(e.path));
      }
    }
    KeptAll(after, after, live, noRecords);
  }

  /** In a build with records a dictionary's own entries go only when the index holds a
      dictionary of that dictionary: deleting a file leaves `<file>.DICT` in the index. */
  lemma DictionarySurvives(index: seq<Entry>, live: Live, file: string, e: Entry)
    requires e in index && file != "" && '/' !in file && HasPrefix(e.path, file + ".DICT/")
    ensures e !in Kept(index, index, live, false) <==>
      !e.link && Gone(index, live, file + ".DICT") && HasDictionary(index, file + ".DICT")
  {
    KeptMember(index, index, live, false, e);
    TopOf(e.path, file + ".DICT");
  }

  lemma TopOf(path: string, top: string)
    requires '/' !in top && HasPrefix(path, top + "/")
    ensures InDirectory(path) && Top(path) == top
  {
    var t := path[..|top| + 1];
    assert forall k :: 0 <= k <= |top| ==> path[k] == t[k];
    assert t[|top|] == '/' && forall k :: 0 <= k < |top| ==> t[k] == top[k];
    FirstAt(path, |top|, '/');
    assert path[..|top|] == top;
  }

  /** The ordinary case: the records of a deleted file go, its dictionary stays. */
  lemma OrdinaryDeletion(index: seq<Entry>, live: Live, file: string, e: Entry)
    requires e in index && !e.link && file != "" && '/' !in file && file !in live
    requires Base(file) == file
    requires HasDictionary(index, file) && !HasDictionary(index, file + ".DICT")
    ensures HasPrefix(e.path, file + "/") ==> e !in Kept(index, index, live, false)
    ensures HasPrefix(e.path, file + ".DICT/") ==> e in Kept(index, index, live, false)
  {
    KeptMember(index, index, live, false, e);
    if HasPrefix(e.path, file + "/") {
      TopOf(e.path, file);
      ControlElsewhere(e.path, file);
      assert Content(e.path, file);
      var i :| 0 <= i < |index| && index[i] == e;
      assert Tracked(index, file);
    }
    if HasPrefix(e.path, file + ".DICT/") {
      DictionarySurvives(index, live, file, e);
    }
  }

  lemma ControlElsewhere(path: string, file: string)
    requires HasPrefix(path, file + "/")
    ensures path != file + ".DICT/%FILE%"
  {
    assert path[|file|] == path[..|file| + 1][|file|] == '/';
    assert (file + ".DICT/%FILE%")[|file|] == '.';
  }

  // ---- said of the paths themselves --------------------------------------

  predicate Somewhere(index: seq<Entry>, pre: string) { exists d :: d in index && HasPrefix(d.path, pre) }

  lemma HasDictionaryIs(index: seq<Entry>, top: string)
    ensures HasDictionary(index, top) <==> Somewhere(index, top + ".DICT/")
  {
    if Somewhere(index, top + ".DICT/") {
      var d :| d in index && HasPrefix(d.path, top + ".DICT/");
      var i :| 0 <= i < |index| && index[i] == d;
    }
  }

  /** Whatever else the index holds, a file that is there keeps its records and its
      dictionary. */
  lemma LiveFilesStay(index: seq<Entry>, live: Live, noRecords: bool, e: Entry)
    requires e in index && Base(Top(e.path)) in live
    ensures e in Kept(index, index, live, noRecords)
  {
    KeptMember(index, index, live, noRecords, e);
  }

  /** A record goes exactly when its file is not there and, in a build with records, git
      has the file's dictionary. */
  lemma RecordsGoExactly(index: seq<Entry>, live: Live, noRecords: bool, file: string, e: Entry)
    requires e in index && file != "" && '/' !in file && HasPrefix(e.path, file + "/")
    requires |file| > 5 ==> file[|file| - 5..] != ".DICT"
    ensures e !in Kept(index, index, live, noRecords) <==>
      !e.link && file !in live && (noRecords || Somewhere(index, file + ".DICT/"))
  {
    KeptMember(index, index, live, noRecords, e);
    TopOf(e.path, file);
    ControlElsewhere(e.path, file);
    HasDictionaryIs(index, file);
    assert Content(e.path, file);
    var i :| 0 <= i < |index| && index[i] == e;
    assert Tracked(index, file);
  }

  /** An entry of a dictionary goes exactly when the file is not there, git has a record
      of it or a dictionary item besides the control, and, in a build with records, a
      dictionary of that dictionary. */
  lemma DictionaryGoesExactly(index: seq<Entry>, live: Live, noRecords: bool, file: string, e: Entry)
    requires e in index && file != "" && '/' !in file && HasPrefix(e.path, file + ".DICT/")
    ensures e !in Kept(index, index, live, noRecords) <==>
      && !e.link && file !in live
      && (exists x :: x in index && x.path != file + ".DICT/%FILE%"
                      && (HasPrefix(x.path, file + "/") || HasPrefix(x.path, file + ".DICT/")))
      && (noRecords || Somewhere(index, file + ".DICT.DICT/"))
  {
    hide Kept, HasDictionary, Tracked, HasPrefix, Somewhere, Base, Top;
    var top := file + ".DICT";
    KeptMember(index, index, live, noRecords, e);
    DictionaryName(file);
    TopOf(e.path, top);
    HasDictionaryIs(index, top);
    TrackedIs(index, file);
  }

  lemma DictionaryName(file: string)
    requires file != ""
    ensures Base(file + ".DICT") == file
    ensures file + ".DICT" + ".DICT/" == file + ".DICT.DICT/" && file + ".DICT" + "/" == file + ".DICT/"
    ensures '/' !in file ==> '/' !in file + ".DICT"
  {
    var top := file + ".DICT";
    assert top[|top| - 5..] == ".DICT" && top[..|top| - 5] == file;
  }

  lemma TrackedIs(index: seq<Entry>, base: string)
    ensures Tracked(index, base) <==> exists x :: x in index && Content(x.path, base)
  {
    if x :| x in index && Content(x.path, base) {
      var i :| 0 <= i < |index| && index[i] == x;
    }
  }

  /** What lies in no directory is not the sweep's. */
  lemma TopLevelStays(index: seq<Entry>, live: Live, noRecords: bool, e: Entry)
    requires e in index && '/' !in e.path
    ensures e in Kept(index, index, live, noRecords)
  {
    KeptMember(index, index, live, noRecords, e);
  }
}

// A wholesale add of one file and the status that follows it: two separately
// written filter chains over the same records.
module AddStatus {
  import opened Text
  import opened Paths
  import opened Records
  import opened Trans
  import opened Crossing
  import F = Furniture

  /** Everything about the account and repository that neither add nor status changes:
      the file and its records, the live files, the two renamed items, the commit's
      dictionaries and blobs, and the ignore and stock rules. */
  datatype Account = Account(
    file: string,
    recs: map<string, string>,
    open: bool,
    smAt6: bool,
    files: set<string>,
    names: Names,
    dicts: Dicts,
    head: Index,
    acctIgnored: string -> bool,       // the account's own ignore list, on `<file>` and `<file>/<id>`
    gitIgnored: string -> bool,        // .gitignore, on the repository path
    stock: (string, string) -> bool,
    skipNul: bool)

  predicate IsVoc(a: Account) { SameFold(a.file, "VOC") || SameFold(a.file, "MD") }

  predicate OpenDict(a: Account) { a.open && |a.file| > 5 && HasSuffix(a.file, ".DICT") }

  function BaseFile(a: Account): string
    requires OpenDict(a)
  {
    a.file[..|a.file| - 5]
  }

  /** The committed name of a record, and the record a committed name is read as. */
  function Committed(a: Account, id: string): string { if OpenDict(a) then ToCanon(a.names, id) else id }

  function ReadAs(a: Account, name: string): string { if OpenDict(a) then ToLocal(a.names, name) else name }

  function Path(a: Account, name: string): string { a.file + "/" + name }

  // ---- the rules both sides consult --------------------------------------

  /** mv_voc_class on UniData and UniVerse. */
  function TypeClass(t: string): int
  {
    if SameFold(t, "V") || SameFold(t, "K") || SameFold(t, "C") then 1
    else if SameFold(t, "F") || SameFold(t, "LF") || SameFold(t, "DF") || SameFold(t, "DIR")
         || SameFold(t, "Q") || SameFold(t, "R") then 2
    else 0
  }

  /** The class of a master-file record: the first token of attribute 1. */
  function VocClass(rec: string): int
  {
    var a1 := rec[..IndexOf(rec, AM)];
    TypeClass(a1[..IndexOf(a1, ' ')])
  }

  function Platform(a: Account): F.Platform { if a.smAt6 then F.UniData else F.UniVerse }

  /** A type that never travels, or a pointer to furniture or to a file that is here. */
  predicate DerivedPointer(a: Account, id: string, rec: string)
  {
    IsVoc(a) && (VocClass(rec) == 1 ||
                 (VocClass(rec) == 2 && (F.Furniture(Platform(a), id) || id in a.files)))
  }

  /** record_is_object */
  predicate IsObject(a: Account, id: string, rec: string)
  {
    (|id| > 1 && id[0] == '_' && id[1..] in a.recs) || (a.skipNul && '\0' in rec)
  }

  predicate ProvisionPointer(a: Account, id: string) { SameFold(id, "CATALOG") && IsVoc(a) }

  /** The master file's dictionary; a name may arrive with an account in front. */
  predicate MasterDictionary(file: string)
  {
    var base := LastComponent(file);
    |base| > 5 && HasSuffix(base, ".DICT") && (SameFold(base[..|base| - 5], "VOC") || SameFold(base[..|base| - 5], "MD"))
  }

  function LastComponent(file: string): string
  {
    var m := IndexOf(file, '/');
    if m < |file| then LastComponent(file[m + 1..]) else file
  }

  predicate PlatformRecord(a: Account, id: string)
  {
    MasterDictionary(a.file) && |id| > 1 && (id[0] == 'F' || id[0] == 'f') && IsNum(id[1..])
  }

  predicate Ignored(a: Account, path: string) { a.acctIgnored(path) || a.gitIgnored(path) }

  // ---- add ---------------------------------------------------------------

  /** The records a wholesale add leaves out. */
  predicate Excluded(a: Account, id: string)
    requires id in a.recs
  {
    var rec := a.recs[id];
    || DerivedPointer(a, id, rec)
    || (IsVoc(a) && a.stock(id, rec))
    || PlatformRecord(a, id)
    || Ignored(a, Path(a, id))
    || ProvisionPointer(a, id)
    || IsObject(a, id, rec)
  }

  predicate OpenControl(blob: string)
  {
    (|blob| >= 3 && SameFold(blob[..3], "DIR")) || (|blob| >= 4 && SameFold(blob[..4], "hash"))
  }

  /** A control git already holds in the open form is left where it is. */
  predicate HeldControl(a: Account, index: Index, id: string)
  {
    var p := Path(a, id);
    HasSuffix(p, ".DICT/%FILE%") && p in index && OpenControl(index[p])
  }

  /** The blob open_dict_ispec compares with: the index's under the record's own name,
      then the commit's. */
  function GitsCopy(a: Account, index: Index, id: string): Option<string>
  {
    var p := Path(a, id);
    if p in index then Some(index[p]) else if p in a.head then Some(a.head[p]) else None
  }

  /** What add stages for a record, and what status hashes. */
  function BlobFor(a: Account, index: Index, id: string): string
    requires id in a.recs
  {
    if OpenDict(a) then Staged(a.smAt6, a.dicts, BaseFile(a), a.recs[id], GitsCopy(a, index, id))
    else Translate(a.recs[id], AM, NL)
  }

  function StageOne(a: Account, index: Index, id: string): Index
    requires id in a.recs
  {
    if Excluded(a, id) || HeldControl(a, index, id) then index
    else Put(index, Path(a, Committed(a, id)), BlobFor(a, index, id))
  }

  function StageAll(a: Account, index: Index, ids: seq<string>): Index
    requires forall i :: 0 <= i < |ids| ==> ids[i] in a.recs
    decreases |ids|
  {
    if ids == [] then index else StageAll(a, StageOne(a, index, ids[0]), ids[1..])
  }

  /** How many records add reports as staged, and as ignored. */
  function StagedIn(a: Account, index: Index, ids: seq<string>): nat
    requires forall i :: 0 <= i < |ids| ==> ids[i] in a.recs
    decreases |ids|
  {
    if ids == [] then 0
    else (if Excluded(a, ids[0]) || HeldControl(a, index, ids[0]) then 0 else 1)
         + StagedIn(a, StageOne(a, index, ids[0]), ids[1..])
  }

  function SkippedIn(a: Account, ids: seq<string>): nat
    requires forall i :: 0 <= i < |ids| ==> ids[i] in a.recs
    decreases |ids|
  {
    if ids == [] then 0 else (if Excluded(a, ids[0]) then 1 else 0) + SkippedIn(a, ids[1..])
  }

  /** With no control among them, every record is counted once. */
  lemma {:induction false} EveryRecordCounted(a: Account, index: Index, ids: seq<string>)
    requires forall i :: 0 <= i < |ids| ==> ids[i] in a.recs && '/' !in ids[i] && ids[i] != CONTROL
    ensures StagedIn(a, index, ids) + SkippedIn(a, ids) == |ids|
    decreases |ids|
  {
    hide Excluded, HeldControl, StageOne;
    if ids == [] {
    } else {
      OnlyTheControlIsHeld(a, index, ids[0]);
      EveryRecordCounted(a, StageOne(a, index, ids[0]), ids[1..]);
    }
  }

  predicate UnderFile(a: Account, path: string) { |path| > |a.file| && path[..|a.file| + 1] == a.file + "/" }

  function NameIn(a: Account, path: string): string
    requires UnderFile(a, path)
  {
    path[|a.file| + 1..]
  }

  /** An entry of this file whose record cannot be read any more. */
  predicate Stale(a: Account, path: string)
  {
    UnderFile(a, path) && NameIn(a, path) != CONTROL && ReadAs(a, NameIn(a, path)) !in a.recs
  }

  function Reconciled(a: Account, index: Index): Index
  {
    map p | p in index && !Stale(a, p) :: index[p]
  }

  /** GITADD of the whole file, its records read in the order `ids`. */
  function Added(a: Account, index: Index, ids: seq<string>): Index
    requires forall i :: 0 <= i < |ids| ==> ids[i] in a.recs
  {
    if a.acctIgnored(a.file) then index else Reconciled(a, StageAll(a, index, ids))
  }

  class GitIndex {
    var entries: Index

    constructor (entries: Index)
      ensures this.entries == entries
    {
      this.entries := entries;
    }

    /** mvx_sub_GITADD with no record named, and the counts it reports. */
    method Add(a: Account, ids: seq<string>) returns (staged: nat, skipped: nat, removed: nat)
      requires forall i :: 0 <= i < |ids| ==> ids[i] in a.recs
      modifies this
      ensures entries == Added(a, old(entries), ids)
      ensures if a.acctIgnored(a.file) then staged == skipped == removed == 0 else
        && staged == StagedIn(a, old(entries), ids) && skipped == SkippedIn(a, ids)
        && removed == |StageAll(a, old(entries), ids)| - |entries|
    {
      hide Staged, Excluded, HeldControl, BlobFor, Stale;
      staged, skipped, removed := 0, 0, 0;
      if a.acctIgnored(a.file) {
        return;
      }
      ghost var was := entries;
      var i := 0;
      assert ids[0..] == ids;
      while i < |ids|
        invariant 0 <= i <= |ids|
        invariant StageAll(a, was, ids) == StageAll(a, entries, ids[i..])
        invariant StagedIn(a, was, ids) == staged + StagedIn(a, entries, ids[i..])
        invariant SkippedIn(a, ids) == skipped + SkippedIn(a, ids[i..])
      {
        var id := ids[i];
        assert ids[i..][0] == id && ids[i..][1..] == ids[i + 1..];
        i := i + 1;
        if Excluded(a, id) {
          skipped := skipped + 1;
          continue;
        }
        if HeldControl(a, entries, id) {
          continue;
        }
        var path := Path(a, Committed(a, id));
        entries := Put(entries, path, BlobFor(a, entries, id));
        staged := staged + 1;
      }
      removed := Reconcile(a);
    }

    /** The deletion pass over the entries of the file. */
    method Reconcile(a: Account) returns (removed: nat)
      modifies this
      ensures entries == Reconciled(a, old(entries)) && removed == |old(entries)| - |entries|
    {
      hide Stale;
      removed := 0;
      ghost var was := entries;
      var todo := entries.Keys;
      while todo != {}
        invariant todo <= entries.Keys <= was.Keys && removed == |was| - |entries|
        invariant forall p :: p in entries ==> entries[p] == was[p]
        invariant forall p :: p in was && p !in todo ==> (p in entries <==> !Stale(a, p))
        decreases |todo|
      {
        var p :| p in todo;
        todo := todo - {p};
        if Stale(a, p) {
          ghost var before := entries;
          entries := entries - {p};
          assert entries.Keys == before.Keys - {p};
          removed := removed + 1;
        }
      }
      assert entries == Reconciled(a, was);
    }

    /** The part of mvx_sub_GITSTATUS about this file: its records in the order `ids`,
        then the index's paths in the order `paths`. */
    method Status(a: Account, ids: seq<string>, paths: seq<string>) returns (lines: seq<Line>)
      requires forall i :: 0 <= i < |ids| ==> ids[i] in a.recs
      ensures lines == StatusLines(a, entries, ids, paths)
    {
      hide RecordLine, Walked, Stale;
      lines := [];
      if Walked(a, entries) {
        lines := RecordLines(a, ids);
      }
      var gone := DeletedLines(a, paths);
      lines := lines + gone;
    }

    /** The walk over the live records. */
    method RecordLines(a: Account, ids: seq<string>) returns (lines: seq<Line>)
      requires forall i :: 0 <= i < |ids| ==> ids[i] in a.recs
      ensures lines == LinesOf(a, entries, ids)
    {
      hide RecordLine, LinesOf;
      lines := [];
      var i := 0;
      assert ids[0..] == ids;
      NoLines(a, entries);
      while i < |ids|
        invariant 0 <= i <= |ids|
        invariant lines + LinesOf(a, entries, ids[i..]) == LinesOf(a, entries, ids)
      {
        var l := RecordLine(a, entries, ids[i]);
        FirstLine(a, entries, ids, i);
        if l.Some? {
          lines := lines + [l.value];
        }
        i := i + 1;
      }
    }

    /** The walk over the index for entries whose record is gone. */
    method DeletedLines(a: Account, paths: seq<string>) returns (lines: seq<Line>)
      ensures lines == GoneLines(a, paths)
    {
      hide Stale;
      lines := [];
      var i := 0;
      assert paths[0..] == paths;
      while i < |paths|
        invariant 0 <= i <= |paths|
        invariant lines + GoneLines(a, paths[i..]) == GoneLines(a, paths)
      {
        assert paths[i..][1..] == paths[i + 1..];
        if Stale(a, paths[i]) {
          lines := lines + [Deleted(paths[i])];
        }
        i := i + 1;
      }
    }
  }

  // ---- status ------------------------------------------------------------

  datatype Line = Untracked(path: string) | Modified(path: string) | Deleted(path: string)

  /** An object file's own pointer. */
  predicate ObjectPointer(a: Account, id: string)
  {
    IsVoc(a) && |id| > 2 && HasSuffix(id, ".O") && id[..|id| - 2] in a.files
  }

  function TrimRight(s: string): string
  {
    StripTail(s, {'\n', '\r', ' ', '\t'})
  }

  /** control_open: the class a control declares, None when it is not one. */
  function ControlClass(c: string): Option<string>
  {
    var t := TrimRight(c);
    if |t| >= 3 && SameFold(t[..3], "DIR") && (|t| == 3 || t[3] == ' ' || t[3] == '\t') then Some("DIR")
    else if |t| >= 4 && SameFold(t[..4], "hash") then Some("hash")
    else if |t| >= 5 && t[..4] == "FILE" && t[4] == VM then
      var kind := t[5..][..IndexOf(t[5..], VM)];
      Some(if SameFold(kind, "dir") then "DIR" else "hash")
    else None
  }

  /** blob_is_record: one trailing newline on the committed side is forgiven. */
  predicate SameBlob(have: string, want: string)
  {
    have == want || (have != "" && have[|have| - 1] == NL && have[..|have| - 1] == want)
  }

  /** What status compares a tracked record's blob with. */
  function Wanted(a: Account, index: Index, id: string): string
    requires id in a.recs
  {
    if a.open && id == CONTROL && ControlClass(a.recs[id]).Some? then Translate(ControlClass(a.recs[id]).value, AM, NL)
    else BlobFor(a, index, id)
  }

  /** A control whose committed class is the live one is clean. */
  predicate SameClass(a: Account, index: Index, id: string, path: string)
    requires id in a.recs && path in index
  {
    a.open && id == CONTROL && ControlClass(a.recs[id]).Some? && ControlClass(index[path]) == ControlClass(a.recs[id])
  }

  /** The line for one live record, if there is one. */
  function RecordLine(a: Account, index: Index, id: string): Option<Line>
    requires id in a.recs
  {
    var rec := a.recs[id];
    var path := Path(a, Committed(a, id));
    if DerivedPointer(a, id, rec) || ObjectPointer(a, id) || IsObject(a, id, rec) || !Storable(path) then None
    else if path !in index then
      if (IsVoc(a) && a.stock(id, rec)) || Ignored(a, path) || ProvisionPointer(a, id) then None
      else Some(Untracked(path))
    else if SameClass(a, index, id, path) || SameBlob(index[path], Wanted(a, index, id)) then None
    else Some(Modified(path))
  }

  /** Status walks the records of a file it knows from the index, furniture aside. */
  predicate Walked(a: Account, index: Index)
  {
    (exists p :: p in index && (p == a.file || UnderFile(a, p))) && !F.Furniture(Platform(a), a.file)
  }

  ghost predicate Reports(a: Account, index: Index, l: Line)
  {
    || (Walked(a, index) && exists id :: id in a.recs && RecordLine(a, index, id) == Some(l))
    || (l.Deleted? && l.path in index && Stale(a, l.path))
  }

  function LinesOf(a: Account, index: Index, ids: seq<string>): seq<Line>
    requires forall i :: 0 <= i < |ids| ==> ids[i] in a.recs
    decreases |ids|
  {
    if ids == [] then []
    else
      (match RecordLine(a, index, ids[0]) { case Some(l) => [l] case None => [] }) + LinesOf(a, index, ids[1..])
  }

  lemma FirstLine(a: Account, index: Index, ids: seq<string>, i: nat)
    requires i < |ids| && forall k :: 0 <= k < |ids| ==> ids[k] in a.recs
    ensures LinesOf(a, index, ids[i..]) ==
      (match RecordLine(a, index, ids[i]) { case Some(l) => [l] case None => [] }) + LinesOf(a, index, ids[i + 1..])
  {
    hide RecordLine;
    assert ids[i..][1..] == ids[i + 1..];
  }

  lemma NoLines(a: Account, index: Index)
    ensures LinesOf(a, index, []) == []
  {}

  function GoneLines(a: Account, paths: seq<string>): seq<Line>
  {
    if paths == [] then [] else (if Stale(a, paths[0]) then [Deleted(paths[0])] else []) + GoneLines(a, paths[1..])
  }

  function StatusLines(a: Account, index: Index, ids: seq<string>, paths: seq<string>): seq<Line>
    requires forall i :: 0 <= i < |ids| ==> ids[i] in a.recs
  {
    (if Walked(a, index) then LinesOf(a, index, ids) else []) + GoneLines(a, paths)
  }

  lemma {:induction false} InLinesOf(a: Account, index: Index, ids: seq<string>, l: Line)
    requires forall i :: 0 <= i < |ids| ==> ids[i] in a.recs
    ensures l in LinesOf(a, index, ids) <==> exists i :: 0 <= i < |ids| && RecordLine(a, index, ids[i]) == Some(l)
    decreases |ids|
  {
    hide RecordLine;
    if ids == [] {
    } else {
      InLinesOf(a, index, ids[1..], l);
      assert forall i :: 0 < i < |ids| ==> ids[i] == ids[1..][i - 1];
    }
  }

  lemma {:induction false} InGoneLines(a: Account, paths: seq<string>, l: Line)
    ensures l in GoneLines(a, paths) <==> l.Deleted? && l.path in paths && Stale(a, l.path)
  {
    hide Stale;
    if paths == [] {
    } else {
      InGoneLines(a, paths[1..], l);
    }
  }

  /** However records and paths are listed, status prints the lines of the file and no
      other. */
  lemma StatusReports(a: Account, index: Index, ids: seq<string>, paths: seq<string>, l: Line)
    requires (forall i :: 0 <= i < |ids| ==> ids[i] in a.recs) && forall id :: id in a.recs ==> id in ids
    requires forall p :: p in paths <==> p in index
    ensures l in StatusLines(a, index, ids, paths) <==> Reports(a, index, l)
  {
    hide RecordLine, Walked, Stale;
    InLinesOf(a, index, ids, l);
    InGoneLines(a, paths, l);
    if exists id :: id in a.recs && RecordLine(a, index, id) == Some(l) {
      var id :| id in a.recs && RecordLine(a, index, id) == Some(l);
      assert id in ids;
      var k :| 0 <= k < |ids| && ids[k] == id;
    }
  }

  // ---- the two agree -----------------------------------------------------

  predicate PlainName(s: string) { Component(s) && '/' !in s }

  /** Ids that are single path components, none bearing a canonical name this platform
      spells differently. */
  predicate PlainIds(a: Account)
  {
    PlainName(a.file) && forall id :: id in a.recs ==> PlainName(id) && ReadAs(a, id) == id
  }

  /** The ignore rules do not tell a local name from its canonical one. */
  predicate BlindRules(a: Account)
  {
    forall id :: id in a.recs ==> Ignored(a, Path(a, id)) == Ignored(a, Path(a, Committed(a, id)))
  }

  /** Each I-type of the dictionary can be staged twice alike. */
  predicate DictionaryFits(a: Account, index: Index)
  {
    OpenDict(a) ==> forall id :: id in a.recs ==>
      Restageable(a.smAt6, a.dicts, BaseFile(a), a.recs[id], GitsCopy(a, index, id))
  }

  ghost predicate Listing(a: Account, ids: seq<string>)
  {
    && (forall i, j :: 0 <= i < j < |ids| ==> ids[i] != ids[j])
    && forall id :: id in ids <==> id in a.recs
  }

  function PathOf(a: Account, id: string): string { Path(a, Committed(a, id)) }

  lemma CommittedBack(a: Account, id: string)
    requires PlainIds(a) && id in a.recs
    ensures ReadAs(a, Committed(a, id)) == id && PlainName(Committed(a, id))
  {}

  lemma PathInjective(a: Account, x: string, y: string)
    ensures Path(a, x) == Path(a, y) <==> x == y
  {
    var p, q := Path(a, x), Path(a, y);
    assert p[|a.file| + 1..] == x && q[|a.file| + 1..] == y;
  }

  /** No record is staged where another is, nor where another's own name is looked up. */
  lemma NoClash(a: Account, x: string, y: string)
    requires PlainIds(a) && x in a.recs && y in a.recs && x != y
    ensures PathOf(a, x) != PathOf(a, y) && Path(a, x) != PathOf(a, y)
  {
    CommittedBack(a, x);
    CommittedBack(a, y);
    PathInjective(a, Committed(a, x), Committed(a, y));
    PathInjective(a, x, Committed(a, y));
  }

  lemma PlainStorable(a: Account, name: string)
    requires PlainName(a.file) && PlainName(name)
    ensures Storable(Path(a, name))
  {
    var p := Path(a, name);
    assert p[|a.file|] == '/' && forall k :: 0 <= k < |a.file| ==> p[k] == a.file[k];
    FirstAt(p, |a.file|, '/');
    assert p[..|a.file|] == a.file && p[|a.file| + 1..] == name;
    FirstAt(name, |name|, '/');
    assert name[..|name|] == name;
  }

  lemma OnlyTheControlIsHeld(a: Account, index: Index, id: string)
    requires '/' !in id && id != CONTROL
    ensures !HeldControl(a, index, id)
  {
    var p, suf := Path(a, id), ".DICT/%FILE%";
    if HasSuffix(p, suf) {
      SuffixName(a.file, id);
    }
  }

  lemma SuffixName(file: string, id: string)
    requires '/' !in id && HasSuffix(file + "/" + id, ".DICT/%FILE%")
    ensures id == CONTROL
  {
    var p, suf := file + "/" + id, ".DICT/%FILE%";
    var off := |p| - |suf|;
    assert forall k :: 0 <= k < |suf| ==> p[off..][k] == p[off + k];
    assert p[|file|] == '/' && p[off + 5] == suf[5];
    assert forall k :: |file| < k < |p| ==> p[k] == id[k - |file| - 1];
    assert |file| >= off + 5;
    assert forall k :: 6 <= k < 12 ==> suf[k] != '/';
    assert id == p[|file| + 1..] == p[off..][6..] == suf[6..] == CONTROL;
  }

  lemma {:induction false} Untouched(a: Account, index: Index, ids: seq<string>, p: string)
    requires forall i :: 0 <= i < |ids| ==> ids[i] in a.recs
    requires forall i :: 0 <= i < |ids| ==> Excluded(a, ids[i]) || p != PathOf(a, ids[i])
    ensures var r := StageAll(a, index, ids);
      (p in r <==> p in index) && (p in index ==> r[p] == index[p])
    decreases |ids|
  {
    hide Excluded, HeldControl, BlobFor, Storable;
    if ids == [] {
    } else {
      Untouched(a, StageOne(a, index, ids[0]), ids[1..], p);
    }
  }

  /** Each record is staged as the index stood before the add. */
  lemma {:induction false} StagedAsBefore(a: Account, index: Index, ids: seq<string>, i: nat)
    requires PlainIds(a) && i < |ids| && forall k :: 0 <= k < |ids| ==> ids[k] in a.recs
    requires forall k, m :: 0 <= k < m < |ids| ==> ids[k] != ids[m]
    requires !Excluded(a, ids[i]) && ids[i] != CONTROL
    ensures var r := StageAll(a, index, ids);
      PathOf(a, ids[i]) in r && r[PathOf(a, ids[i])] == BlobFor(a, index, ids[i])
    decreases |ids|
  {
    hide Excluded, Staged, HeldControl;
    var first := StageOne(a, index, ids[0]);
    var p := PathOf(a, ids[i]);
    if i > 0 {
      assert ids[1..][i - 1] == ids[i];
      StagedAsBefore(a, first, ids[1..], i - 1);
      NoClash(a, ids[i], ids[0]);
      assert GitsCopy(a, first, ids[i]) == GitsCopy(a, index, ids[i]);
    } else {
      CommittedBack(a, ids[0]);
      PlainStorable(a, Committed(a, ids[0]));
      OnlyTheControlIsHeld(a, index, ids[0]);
      forall k | 0 <= k < |ids[1..]| ensures p != PathOf(a, ids[1..][k]) {
        assert ids[1..][k] == ids[k + 1];
        NoClash(a, ids[0], ids[k + 1]);
      }
      Untouched(a, first, ids[1..], p);
    }
  }

  lemma NotStale(a: Account, id: string)
    requires PlainIds(a) && id in a.recs
    ensures !Stale(a, PathOf(a, id)) && !Stale(a, Path(a, id))
  {
    CommittedBack(a, id);
    assert NameIn(a, Path(a, id)) == id && NameIn(a, PathOf(a, id)) == Committed(a, id);
  }

  /** The index holds for a staged record what add computed against the old index. */
  lemma AfterAdd(a: Account, index: Index, ids: seq<string>, id: string)
    requires PlainIds(a) && Listing(a, ids) && !a.acctIgnored(a.file)
    requires id in a.recs && id != CONTROL && !Excluded(a, id)
    ensures var after := Added(a, index, ids);
      PathOf(a, id) in after && after[PathOf(a, id)] == BlobFor(a, index, id)
  {
    hide Excluded, BlobFor, Stale;
    assert id in ids;
    var i :| 0 <= i < |ids| && ids[i] == id;
    StagedAsBefore(a, index, ids, i);
    NotStale(a, id);
  }

  /** A path no record is staged at, of a record that is still there, keeps its entry. */
  lemma AfterAddElsewhere(a: Account, index: Index, ids: seq<string>, p: string)
    requires Listing(a, ids) && !Stale(a, p)
    requires forall id :: id in a.recs && !Excluded(a, id) ==> p != PathOf(a, id)
    ensures var after := Added(a, index, ids);
      (p in after <==> p in index) && (p in index ==> after[p] == index[p])
  {
    hide Excluded, BlobFor, Stale;
    forall i | 0 <= i < |ids| ensures ids[i] in a.recs && (Excluded(a, ids[i]) || p != PathOf(a, ids[i])) {
      assert ids[i] in ids;
    }
    Untouched(a, index, ids, p);
  }

  /** Status computes after the add the blob add staged. */
  lemma BlobStable(a: Account, index: Index, ids: seq<string>, id: string)
    requires PlainIds(a) && Listing(a, ids) && !a.acctIgnored(a.file) && DictionaryFits(a, index)
    requires id in a.recs && id != CONTROL && !Excluded(a, id)
    ensures BlobFor(a, Added(a, index, ids), id) == BlobFor(a, index, id)
  {
    hide Excluded, Staged, Restageable, Stale, Added;
    var after := Added(a, index, ids);
    AfterAdd(a, index, ids, id);
    if OpenDict(a) {
      if Committed(a, id) == id {
        StagedStable(a.smAt6, a.dicts, BaseFile(a), a.recs[id], GitsCopy(a, index, id));
        assert GitsCopy(a, after, id) == Some(BlobFor(a, index, id));
      } else {
        PathInjective(a, id, Committed(a, id));
        forall x | x in a.recs && !Excluded(a, x) ensures Path(a, id) != PathOf(a, x) {
          if x != id {
            NoClash(a, id, x);
          }
        }
        NotStale(a, id);
        AfterAddElsewhere(a, index, ids, Path(a, id));
        assert GitsCopy(a, after, id) == GitsCopy(a, index, id);
      }
    }
  }

  /** After a wholesale add, status has no line for any record add did not leave out,
      the control aside. */
  lemma AddThenStatusClean(a: Account, index: Index, ids: seq<string>, id: string)
    requires PlainIds(a) && Listing(a, ids) && !a.acctIgnored(a.file) && DictionaryFits(a, index)
    requires id in a.recs && id != CONTROL && !Excluded(a, id)
    ensures RecordLine(a, Added(a, index, ids), id) == None
  {
    hide Excluded, BlobFor, Stale, Storable;
    AfterAdd(a, index, ids, id);
    BlobStable(a, index, ids, id);
  }

  /** For a record add leaves out, status says after the add what it said before; if
      git was not tracking it, that is nothing. */
  lemma ExcludedUnchanged(a: Account, index: Index, ids: seq<string>, id: string)
    requires PlainIds(a) && Listing(a, ids) && !a.acctIgnored(a.file) && BlindRules(a)
    requires !MasterDictionary(a.file)
    requires id in a.recs && id != CONTROL && Excluded(a, id)
    ensures RecordLine(a, Added(a, index, ids), id) == RecordLine(a, index, id)
    ensures PathOf(a, id) !in index ==> RecordLine(a, Added(a, index, ids), id) == None
  {
    hide Staged, Stale, Storable, Added, TypeClass;
    forall x | x in a.recs && !Excluded(a, x) ensures PathOf(a, id) != PathOf(a, x) && Path(a, id) != PathOf(a, x) {
      NoClash(a, id, x);
    }
    NotStale(a, id);
    AfterAddElsewhere(a, index, ids, PathOf(a, id));
    AfterAddElsewhere(a, index, ids, Path(a, id));
    assert GitsCopy(a, Added(a, index, ids), id) == GitsCopy(a, index, id);
  }

  /** What is left to say about a record after a wholesale add: nothing when it was
      staged, what was said before when it was left out. */
  function LineLeft(a: Account, index: Index, after: Index, id: string): Option<Line>
    requires id in a.recs
  {
    if id == CONTROL then RecordLine(a, after, id)
    else if Excluded(a, id) then RecordLine(a, index, id)
    else None
  }

  lemma LineAfter(a: Account, index: Index, ids: seq<string>, id: string)
    requires PlainIds(a) && Listing(a, ids) && !a.acctIgnored(a.file) && DictionaryFits(a, index) && BlindRules(a)
    requires !MasterDictionary(a.file) && id in a.recs
    ensures RecordLine(a, Added(a, index, ids), id) == LineLeft(a, index, Added(a, index, ids), id)
  {
    hide Excluded, RecordLine, Added, DictionaryFits, BlindRules, PlainIds, Listing;
    if id != CONTROL {
      if Excluded(a, id) {
        ExcludedUnchanged(a, index, ids, id);
      } else {
        AddThenStatusClean(a, index, ids, id);
      }
    }
  }

  /** The whole of status after a wholesale add: the lines of the left-out records as
      they were, and no other, the control aside. */
  lemma StatusAfterAdd(a: Account, index: Index, ids: seq<string>, l: Line)
    requires PlainIds(a) && Listing(a, ids) && !a.acctIgnored(a.file) && DictionaryFits(a, index) && BlindRules(a)
    requires !MasterDictionary(a.file)
    ensures var after := Added(a, index, ids);
      Reports(a, after, l) <==>
        Walked(a, after) && exists id :: id in a.recs && LineLeft(a, index, after, id) == Some(l)
  {
    hide Excluded, RecordLine, Walked, StageAll, LineLeft, DictionaryFits, BlindRules, PlainIds;
    var after := Added(a, index, ids);
    assert forall p :: p in after ==> !Stale(a, p);
    forall id | id in a.recs ensures RecordLine(a, after, id) == LineLeft(a, index, after, id) {
      LineAfter(a, index, ids, id);
    }
  }

  /** When git tracks nothing add leaves out, there is no untracked, modified or deleted
      line for any record but the control. */
  lemma StatusClean(a: Account, index: Index, ids: seq<string>, l: Line)
    requires PlainIds(a) && Listing(a, ids) && !a.acctIgnored(a.file) && DictionaryFits(a, index) && BlindRules(a)
    requires !MasterDictionary(a.file)
    requires forall id :: id in a.recs && Excluded(a, id) ==> PathOf(a, id) !in index
    ensures Reports(a, Added(a, index, ids), l) ==>
      CONTROL in a.recs && RecordLine(a, Added(a, index, ids), CONTROL) == Some(l)
  {
    hide Excluded, RecordLine, Walked, StageAll, Reconciled, DictionaryFits, BlindRules, PlainIds, Reports;
    StatusAfterAdd(a, index, ids, l);
    var after := Added(a, index, ids);
    if Reports(a, after, l) {
      var id :| id in a.recs && LineLeft(a, index, after, id) == Some(l);
      if id != CONTROL {
        ExcludedUnchanged(a, index, ids, id);
      }
    }
  }

  /** An ignored record that git tracks stays modified however often it is added. */
  lemma TrackedIgnoredStays(a: Account, index: Index, ids: seq<string>, id: string)
    requires PlainIds(a) && Listing(a, ids) && !a.acctIgnored(a.file) && BlindRules(a)
    requires !MasterDictionary(a.file) && id in a.recs && id != CONTROL && Ignored(a, Path(a, id))
    ensures RecordLine(a, index, id) == Some(Modified(PathOf(a, id))) ==>
      RecordLine(a, Added(a, index, ids), id) == Some(Modified(PathOf(a, id)))
  {
    hide RecordLine, Added, Stale;
    ExcludedUnchanged(a, index, ids, id);
  }

  // ---- where they part: the MVX build -----------------------------------

  /** In the MVX build add stages a dictionary item as it stands and status compares it
      projected: clean exactly when an associated item has its flag and the item ends in
      at most one empty attribute. */
  lemma MvxAddThenStatus(a: seq<string>)
    requires IsDictItem(a) && Free(a, AM) && Free(a, NL) && |a| <= 40
    ensures SameBlob(Translate(Join(a, AM), AM, NL), Translate(Project(false, Join(a, AM)), AM, NL)) <==>
      (AttrIn(a, 6) != "" ==> AttrIn(a, 7) != "") && |a| <= |TrimEmpty(a)| + 1
  {
    hide Project, Translate, TrimEmpty, Split, Join, DeriveIn;
    var p := Projected(false, a);
    ProjectJoin(false, a);
    TranslateJoin(a, AM, NL);
    TranslateJoin(p, AM, NL);
    ProjectedFree(a);
    JoinSame(a, p);
    DeriveAttrs(a, 7);
    assert AttrIn(p, 7) == AttrIn(DeriveIn(a, 7, 6), 7);
    if AttrIn(a, 6) != "" && AttrIn(a, 7) == "" {
      assert AttrIn(p + [""], 7) == AttrIn(p, 7) == "M";
    } else {
      assert p == TrimEmpty(a) by {
        NotDerived(a);
      }
      OneEmpty(a, p);
    }
  }

  lemma NotDerived(a: seq<string>)
    requires AttrIn(a, 6) != "" ==> AttrIn(a, 7) != ""
    ensures DeriveIn(a, 7, 6) == a
  {}

  /** A trimmed list and the list it was trimmed from. */
  lemma OneEmpty(a: seq<string>, p: seq<string>)
    requires a != [] && p == TrimEmpty(a)
    ensures (a == p || a == p + [""]) <==> |a| <= |p| + 1
  {
    hide TrimEmpty;
    var n := |p|;
    assert p == a[..n];
    if |a| == n + 1 {
      assert AttrIn(a, |a|) == AttrIn(p, |a|) == "";
      assert a == a[..n] + [a[n]];
    }
  }

  lemma ProjectedFree(a: seq<string>)
    requires a != [] && Free(a, NL)
    ensures Free(Projected(false, a), NL) && Projected(false, a) != []
  {}

  /** Two lists whose blobs status takes for the same. */
  lemma JoinSame(a: seq<string>, p: seq<string>)
    requires a != [] && p != [] && Free(a, NL) && Free(p, NL)
    ensures SameBlob(Join(a, NL), Join(p, NL)) <==> a == p || a == p + [""]
  {
    hide Join, Split;
    JoinConcat(p, [""], NL);
    assert Join([""], NL) == "" by {
      JoinSplit("", NL);
      SplitPiece("", NL);
    }
    var have, want := Join(a, NL), Join(p, NL);
    assert want + [NL] + "" == want + [NL];
    if SameBlob(have, want) {
      if have == want {
        JoinInjective(a, p);
      } else {
        assert have == want + [NL];
        JoinInjective(a, p + [""]);
      }
    }
  }

  // ---- what add and status decide, said outright -------------------------

  function At(index: Index, p: string): Option<string> { if p in index then Some(index[p]) else None }

  /** Whatever is staged before and after it, a record's own entry is as if it had been
      staged alone. */
  lemma {:induction false} StagedAlone(a: Account, index: Index, ids: seq<string>, i: nat)
    requires PlainIds(a) && i < |ids| && forall k :: 0 <= k < |ids| ==> ids[k] in a.recs
    requires forall k, m :: 0 <= k < m < |ids| ==> ids[k] != ids[m]
    ensures var p := PathOf(a, ids[i]);
      At(StageAll(a, index, ids), p) == At(StageOne(a, index, ids[i]), p)
    decreases |ids|
  {
    hide Excluded, Staged, OpenControl, Storable;
    var first := StageOne(a, index, ids[0]);
    var p := PathOf(a, ids[i]);
    if i == 0 {
      forall k | 0 <= k < |ids[1..]| ensures p != PathOf(a, ids[1..][k]) {
        assert ids[1..][k] == ids[k + 1];
        NoClash(a, ids[0], ids[k + 1]);
      }
      Untouched(a, first, ids[1..], p);
    } else {
      assert ids[1..][i - 1] == ids[i];
      StagedAlone(a, first, ids[1..], i - 1);
      NoClash(a, ids[i], ids[0]);
      assert At(first, Path(a, ids[i])) == At(index, Path(a, ids[i])) && At(first, p) == At(index, p);
    }
  }

  /** The whole index after a wholesale add, path by path: entries of records that are gone
      go, a record's entry is what staging it alone makes it, and nothing else moves. */
  lemma AddedAt(a: Account, index: Index, ids: seq<string>, p: string)
    requires PlainIds(a) && Listing(a, ids) && !a.acctIgnored(a.file)
    ensures Stale(a, p) ==> p !in Added(a, index, ids)
    ensures forall id :: id in a.recs && p == PathOf(a, id) ==>
      At(Added(a, index, ids), p) == At(StageOne(a, index, id), p)
    ensures !Stale(a, p) && (forall id :: id in a.recs ==> p != PathOf(a, id)) ==>
      At(Added(a, index, ids), p) == At(index, p)
  {
    hide Excluded, BlobFor, Stale, StageOne;
    forall id | id in a.recs && p == PathOf(a, id) ensures At(Added(a, index, ids), p) == At(StageOne(a, index, id), p) {
      assert id in ids;
      var i :| 0 <= i < |ids| && ids[i] == id;
      StagedAlone(a, index, ids, i);
      NotStale(a, id);
    }
    if forall id :: id in a.recs ==> p != PathOf(a, id) {
      forall i | 0 <= i < |ids| ensures ids[i] in a.recs && p != PathOf(a, ids[i]) {
        assert ids[i] in ids;
      }
      Untouched(a, index, ids, p);
    }
  }

  /** A compiled object: `_NAME` beside NAME, or, when they are to be skipped, a NUL. */
  lemma ObjectIs(a: Account, id: string, rec: string)
    ensures IsObject(a, id, rec) <==>
      (exists source :: source in a.recs && source != "" && id == "_" + source) || (a.skipNul && '\0' in rec)
  {
    if |id| > 1 && id[0] == '_' && id[1..] in a.recs {
      assert id == "_" + id[1..];
    }
    if source :| source in a.recs && source != "" && id == "_" + source {
      assert id[1..] == source;
    }
  }

  /** An ordinary data file: neither the master file, nor its dictionary, nor a dictionary
      in the open form. */
  predicate DataFile(a: Account) { PlainName(a.file) && !IsVoc(a) && !MasterDictionary(a.file) && !OpenDict(a) }

  /** A record of a data file is left out exactly when one of the two rule sets names it,
      or it is a compiled object. */
  lemma DataRecordLeftOut(a: Account, id: string)
    requires DataFile(a) && id in a.recs
    ensures Excluded(a, id) <==>
      || a.acctIgnored(a.file + "/" + id) || a.gitIgnored(a.file + "/" + id) || IsObject(a, id, a.recs[id])
  {}

  /** A data file after a wholesale add: every record no rule names is in the index as it
      is in the account, marks as newlines; every other keeps the entry it had; and an
      entry whose record is gone is gone. */
  lemma DataFileAdded(a: Account, index: Index, ids: seq<string>, id: string)
    requires DataFile(a) && PlainIds(a) && Listing(a, ids) && !a.acctIgnored(a.file)
    requires '/' !in id && id != "" && id != CONTROL
    ensures var p := a.file + "/" + id;
      At(Added(a, index, ids), p) ==
        if id !in a.recs then None
        else if a.acctIgnored(p) || a.gitIgnored(p) || IsObject(a, id, a.recs[id]) then At(index, p)
        else Some(Translate(a.recs[id], AM, NL))
  {
    hide Excluded, Added, IsObject, Translate, HasSuffix, OpenControl;
    var p := Path(a, id);
    AddedAt(a, index, ids, p);
    if id in a.recs {
      DataRecordLeftOut(a, id);
      OnlyTheControlIsHeld(a, index, id);
      PlainStorable(a, id);
    } else {
      assert p[..|a.file| + 1] == a.file + "/" && NameIn(a, p) == id;
    }
  }

  /** An add leaves every entry of another file, and of the file's directory itself, be. */
  lemma OtherFilesStay(a: Account, index: Index, ids: seq<string>, p: string)
    requires PlainIds(a) && Listing(a, ids) && !UnderFile(a, p)
    ensures At(Added(a, index, ids), p) == At(index, p)
  {
    hide Excluded, StageOne, StageAll;
    if !a.acctIgnored(a.file) {
      forall id | id in a.recs ensures p != PathOf(a, id) {
        assert PathOf(a, id)[..|a.file| + 1] == a.file + "/";
      }
      AddedAt(a, index, ids, p);
    }
  }

  /** A record of a data file in status: not in the index, it is untracked unless a rule
      names it; in the index with another text, one trailing newline aside, it is modified;
      and otherwise there is nothing to say. */
  lemma DataRecordLine(a: Account, index: Index, id: string)
    requires DataFile(a) && id in a.recs && PlainName(id) && id != CONTROL && !IsObject(a, id, a.recs[id])
    ensures var p, want := a.file + "/" + id, Translate(a.recs[id], AM, NL);
      RecordLine(a, index, id) ==
        if p !in index then (if a.acctIgnored(p) || a.gitIgnored(p) then None else Some(Untracked(p)))
        else if index[p] == want || index[p] == want + [NL] then None
        else Some(Modified(p))
  {
    hide Translate, Storable;
    PlainStorable(a, id);
    var p, want := a.file + "/" + id, Translate(a.recs[id], AM, NL);
    if p in index && index[p] != "" && index[p][|index[p]| - 1] == NL {
      assert index[p] == index[p][..|index[p]| - 1] + [NL];
    }
    if p in index && index[p] == want + [NL] {
      assert index[p][..|index[p]| - 1] == want;
    }
  }

  /** What each line of status means, for every file: untracked is a record git has no entry
      for; modified one whose entry is not what the record is compared with; deleted an
      entry, the control aside, with no record behind it. */
  lemma LinesMean(a: Account, index: Index, l: Line)
    requires Reports(a, index, l)
    ensures l.Untracked? <==> l.path !in index
    ensures l.Modified? ==> exists id :: id in a.recs && l.path == PathOf(a, id) && !SameBlob(index[l.path], Wanted(a, index, id))
    ensures l.Untracked? ==> exists id :: id in a.recs && l.path == PathOf(a, id) && !Ignored(a, l.path)
    ensures l.Deleted? ==> UnderFile(a, l.path) && NameIn(a, l.path) != CONTROL && ReadAs(a, NameIn(a, l.path)) !in a.recs
  {
    hide Walked, BlobFor, SameBlob, Wanted, SameClass, DerivedPointer, ObjectPointer, IsObject, Storable, Ignored;
    if !(l.Deleted? && l.path in index && Stale(a, l.path)) {
      var id :| id in a.recs && RecordLine(a, index, id) == Some(l);
      assert l.path == PathOf(a, id);
    }
  }

  // ---- the master file ---------------------------------------------------

  /** The type of a master-file record is the first word of its first attribute. */
  lemma TypeIsFirstWord(word: string, rest: string)
    requires ' ' !in word && AM !in word
    ensures VocClass(word) == VocClass(word + " " + rest) == VocClass(word + [AM] + rest) == TypeClass(word)
  {
    hide TypeClass;
    FirstAt(word, |word|, AM);
    FirstAt(word, |word|, ' ');
    assert word[..|word|] == word;
    var t := word + [AM] + rest;
    assert forall j :: 0 <= j < |word| ==> t[j] == word[j];
    FirstAt(t, |word|, AM);
    assert t[..|word|] == word;
    var u := word + " " + rest;
    var a1 := u[..IndexOf(u, AM)];
    assert forall j :: 0 <= j < |word| ==> u[j] == word[j];
    assert u[|word|] == ' ';
    FirstMark(u, |word|);
    assert forall j :: 0 <= j < |word| ==> a1[j] == word[j];
    FirstAt(a1, |word|, ' ');
    assert a1[..|word|] == word;
  }

  lemma FirstMark(u: string, n: nat)
    requires n < |u| && u[n] != AM && forall j :: 0 <= j < n ==> u[j] != AM
    ensures IndexOf(u, AM) > n
  {
    var m := IndexOf(u, AM);
    assert m < |u| ==> u[m] == AM;
  }

  /** System verbs and keywords never travel, pointers to files only when the file is not
      this account's, and everything else does. */
  lemma TypesOfPointers(t: string)
    ensures TypeClass(t) ==
      if LowerAll(t) in {"v", "k", "c"} then 1
      else if LowerAll(t) in {"f", "lf", "df", "dir", "q", "r"} then 2
      else 0
  {
    assert LowerAll("V") == "v" && LowerAll("K") == "k" && LowerAll("C") == "c";
    assert LowerAll("F") == "f" && LowerAll("LF") == "lf" && LowerAll("DF") == "df" && LowerAll("DIR") == "dir";
    assert LowerAll("Q") == "q" && LowerAll("R") == "r";
  }

  /** A record of the master file is left out exactly when its type never travels, it is a
      file's pointer and the file is furniture or here, it is a stock record or the
      catalog's pointer, a rule names it, or it is a compiled object. */
  lemma MasterRecordLeftOut(a: Account, id: string)
    requires IsVoc(a) && id in a.recs
    ensures Excluded(a, id) <==>
      var rec, kind := a.recs[id], VocClass(a.recs[id]);
      || kind == 1 || (kind == 2 && (F.Furniture(Platform(a), id) || id in a.files))
      || a.stock(id, rec) || SameFold(id, "CATALOG")
      || a.acctIgnored(a.file + "/" + id) || a.gitIgnored(a.file + "/" + id) || IsObject(a, id, rec)
  {
    hide VocClass, IsObject;
    assert |LowerAll(a.file)| == |a.file| <= 3 by {
      assert |LowerAll("VOC")| == 3 && |LowerAll("MD")| == 2;
    }
    ShortBase(a.file);
  }

  lemma {:induction false} ShortBase(file: string)
    ensures |LastComponent(file)| <= |file|
    decreases |file|
  {
    if IndexOf(file, '/') == |file| {
    } else {
      ShortBase(file[IndexOf(file, '/') + 1..]);
    }
  }

  /** The items F1, F2, ... of the master file's dictionary are the platform's, in either
      case, whatever account the name is reached through; no other item is, of any file. */
  lemma PlatformItems(a: Account, account: string, name: string, id: string)
    requires '/' !in name && a.file == account + name && (account == "" || account[|account| - 1] == '/')
    ensures PlatformRecord(a, id) <==>
      && |name| > 5 && HasSuffix(name, ".DICT") && LowerAll(name[..|name| - 5]) in {"voc", "md"}
      && |id| > 1 && id[0] in {'F', 'f'} && forall i :: 1 <= i < |id| ==> Digit(id[i])
  {
    hide IndexOf;
    assert LowerAll("VOC") == "voc" && LowerAll("MD") == "md";
    LastName(account, name);
    if |id| > 1 {
      assert forall i :: 1 <= i < |id| ==> id[1..][i - 1] == id[i];
      assert forall i :: 0 <= i < |id[1..]| ==> id[1..][i] == id[i + 1];
    }
  }

  lemma {:induction false} LastName(account: string, name: string)
    requires '/' !in name && (account == "" || account[|account| - 1] == '/')
    ensures LastComponent(account + name) == name
    decreases |account|
  {
    if account == "" {
      assert account + name == name;
      FirstAt(name, |name|, '/');
    } else {
      var m := IndexOf(account, '/');
      assert account[|account| - 1] == '/';
      assert m < |account|;
      assert forall j :: 0 <= j < m ==> account[..m][j] == account[j];
      FirstAt(account + name, m, '/');
      assert (account + name)[m + 1..] == account[m + 1..] + name;
      LastName(account[m + 1..], name);
    }
  }

  // ---- the control -------------------------------------------------------

  /** A control no rule names: an open one git holds in a dictionary stays, in whatever case
      it is written; any other is staged. */
  lemma ControlAdded(a: Account, index: Index, ids: seq<string>)
    requires PlainIds(a) && Listing(a, ids) && !a.acctIgnored(a.file)
    requires CONTROL in a.recs && !Excluded(a, CONTROL) && Committed(a, CONTROL) == CONTROL
    ensures var p, dict := a.file + "/%FILE%", HasSuffix(a.file, ".DICT");
      At(Added(a, index, ids), p) ==
        if dict && p in index && OpenControl(index[p]) then Some(index[p])
        else Some(BlobFor(a, index, CONTROL))
  {
    hide Excluded, Added, BlobFor, OpenControl, HasSuffix;
    var p := Path(a, CONTROL);
    AddedAt(a, index, ids, p);
    CommittedBack(a, CONTROL);
    PlainStorable(a, CONTROL);
    DictionaryPath(a.file);
    assert p == a.file + "/%FILE%" && NameIn(a, p) == CONTROL;
  }

  lemma DictionaryPath(file: string)
    ensures HasSuffix(file + "/%FILE%", ".DICT/%FILE%") <==> HasSuffix(file, ".DICT")
  {
    var p := file + "/%FILE%";
    if |file| >= 5 {
      assert p[|p| - 12..] == file[|file| - 5..] + "/%FILE%";
      assert (file[|file| - 5..] + "/%FILE%")[..5] == file[|file| - 5..];
      assert ".DICT/%FILE%"[..5] == ".DICT";
      assert ".DICT" + "/%FILE%" == ".DICT/%FILE%";
    }
  }

  /** The two renamed items go under their canonical names, and no other is renamed. */
  lemma RenamedPaths(a: Account)
    requires OpenDict(a)
    ensures PathOf(a, a.names.idItem) == a.file + "/@ID"
    ensures a.names.phItem != a.names.idItem ==> PathOf(a, a.names.phItem) == a.file + "/%PH%"
    ensures forall id :: id != a.names.idItem && id != a.names.phItem ==> PathOf(a, id) == a.file + "/" + id
    ensures ReadAs(a, "@ID") == a.names.idItem && ReadAs(a, "%PH%") == a.names.phItem
  {}

  /** The class a control declares: DIR or hash in the open form, in any case, with whatever
      follows; in the native one the kind after the first value mark. */
  lemma ControlClasses(word: string, rest: string)
    requires |word| == 3 || |word| == 4
    requires TrimRight(word + rest) == word + rest && TrimRight("FILE" + [VM] + word + [VM] + rest) == "FILE" + [VM] + word + [VM] + rest
    ensures LowerAll(word) == "dir" && (rest == "" || rest[0] == ' ' || rest[0] == '\t') ==>
      ControlClass(word + rest) == Some("DIR")
    ensures LowerAll(word) == "hash" ==> ControlClass(word + rest) == Some("hash")
    ensures VM !in word ==>
      ControlClass("FILE" + [VM] + word + [VM] + rest) == Some(if LowerAll(word) == "dir" then "DIR" else "hash")
  {
    hide TrimRight, IndexOf;
    var w, n := word + rest, "FILE" + [VM] + word + [VM] + rest;
    assert LowerAll("DIR") == "dir" == LowerAll("dir") && LowerAll("hash") == "hash" && "hash"[0] == 'h' && "dir"[0] == 'd';
    assert w[..|word|] == word;
    assert LowerAll(word)[..3] == LowerAll(w[..3]);
    var tail := word + ([VM] + rest);
    assert n[..4] == "FILE" && n[4] == VM && n[5..] == tail;
    assert Lower(n[0]) == 'f' && LowerAll(n[..3])[0] == 'f' && LowerAll(n[..4])[0] == 'f';
    if VM !in word {
      assert forall j :: 0 <= j < |word| ==> tail[j] == word[j];
      FirstAt(tail, |word|, VM);
      assert tail[..|word|] == word;
    }
  }

  /** A native control with no kind is hashed. */
  lemma BareControl()
    ensures ControlClass("FILE" + [VM]) == Some("hash")
  {
    var c := "FILE" + [VM];
    assert TrimRight(c) == c && c[..4] == "FILE" && c[5..] == "";
    assert Lower(c[0]) == 'f' && LowerAll(c[..3])[0] == 'f' && LowerAll(c[..4])[0] == 'f';
    assert LowerAll("DIR")[0] == 'd' && LowerAll("hash")[0] == 'h' && |LowerAll("dir")| == 3;
    FirstAt("", 0, VM);
  }

  /** The control in status: clean when git's is of the live class, whatever else it says,
      or is that class by itself. */
  lemma ControlLine(a: Account, index: Index)
    requires a.open && PlainName(a.file) && !IsVoc(a) && CONTROL in a.recs && Committed(a, CONTROL) == CONTROL
    requires !IsObject(a, CONTROL, a.recs[CONTROL]) && ControlClass(a.recs[CONTROL]).Some?
    ensures var p, live := a.file + "/%FILE%", ControlClass(a.recs[CONTROL]);
      RecordLine(a, index, CONTROL) ==
        if p !in index then (if Ignored(a, p) then None else Some(Untracked(p)))
        else if ControlClass(index[p]) == live || index[p] == live.value || index[p] == live.value + [NL] then None
        else Some(Modified(p))
  {
    hide ControlClass, Storable, HasSuffix, Translate;
    PlainStorable(a, CONTROL);
    ClassIsPlain(a.recs[CONTROL]);
    var p, live := a.file + "/%FILE%", ControlClass(a.recs[CONTROL]);
    assert p == Path(a, CONTROL);
    if p in index && index[p] != "" && index[p][|index[p]| - 1] == NL {
      assert index[p] == index[p][..|index[p]| - 1] + [NL];
    }
    if p in index && index[p] == live.value + [NL] {
      assert index[p][..|index[p]| - 1] == live.value;
    }
  }

  lemma ClassIsPlain(c: string)
    ensures ControlClass(c).Some? ==> Translate(ControlClass(c).value, AM, NL) == ControlClass(c).value
  {
    assert AM !in "DIR" && AM !in "hash";
  }

  // ---- which files and items ---------------------------------------------

  /** The master file goes by two names, in any case, and the platform by the build. */
  lemma FilesAre(a: Account)
    ensures IsVoc(a) <==> LowerAll(a.file) in {"voc", "md"}
    ensures OpenDict(a) <==> a.open && exists base :: base != "" && a.file == base + ".DICT"
    ensures OpenDict(a) ==> a.file == BaseFile(a) + ".DICT"
    ensures Platform(a) == F.UniData <==> a.smAt6
  {
    assert LowerAll("VOC") == "voc" && LowerAll("MD") == "md";
    if |a.file| > 5 && HasSuffix(a.file, ".DICT") {
      assert a.file == a.file[..|a.file| - 5] + ".DICT";
    }
    if base :| base != "" && a.file == base + ".DICT" {
      assert a.file[|base|..] == ".DICT";
    }
  }

  /** An open control begins with its class, in any case. */
  lemma OpenControlsAre(blob: string)
    ensures OpenControl(blob) <==> exists word, rest :: blob == word + rest && LowerAll(word) in {"dir", "hash"}
  {
    assert LowerAll("DIR") == "dir" && LowerAll("hash") == "hash";
    if |blob| >= 3 && SameFold(blob[..3], "DIR") {
      assert blob == blob[..3] + blob[3..];
    }
    if |blob| >= 4 && SameFold(blob[..4], "hash") {
      assert blob == blob[..4] + blob[4..];
    }
    forall word, rest | blob == word + rest && LowerAll(word) in {"dir", "hash"} ensures OpenControl(blob) {
      assert |LowerAll(word)| == |word|;
      assert blob[..|word|] == word;
    }
  }

  /** An object file's pointer is its file's name with `.O` behind. */
  lemma ObjectPointersAre(a: Account, id: string)
    ensures ObjectPointer(a, id) <==> IsVoc(a) && exists name :: name != "" && name in a.files && id == name + ".O"
  {
    if |id| > 2 && HasSuffix(id, ".O") {
      assert id == id[..|id| - 2] + ".O";
    }
    if name :| name != "" && name in a.files && id == name + ".O" {
      assert id[|name|..] == ".O" && id[..|name|] == name;
    }
  }

  /** An item of a dictionary is left out exactly when it is the platform's own, a rule names
      it, or it is a compiled object. */
  lemma DictionaryItemLeftOut(a: Account, id: string)
    requires HasSuffix(a.file, ".DICT") && id in a.recs
    ensures Excluded(a, id) <==>
      || PlatformRecord(a, id) || a.acctIgnored(a.file + "/" + id) || a.gitIgnored(a.file + "/" + id)
      || IsObject(a, id, a.recs[id])
  {
    hide PlatformRecord, IsObject;
    FilesAre(a);
    assert |LowerAll(a.file)| == |a.file| >= 5;
  }

  /** An item of an open dictionary in status, under its canonical name: what it is compared
      with is what add would stage. */
  lemma DictionaryItemLine(a: Account, index: Index, id: string)
    requires OpenDict(a) && PlainName(a.file) && PlainName(Committed(a, id)) && id in a.recs && id != CONTROL
    requires !IsObject(a, id, a.recs[id])
    ensures var p := a.file + "/" + Committed(a, id);
      var want := Staged(a.smAt6, a.dicts, BaseFile(a), a.recs[id],
                         if a.file + "/" + id in index then Some(index[a.file + "/" + id])
                         else if a.file + "/" + id in a.head then Some(a.head[a.file + "/" + id]) else None);
      RecordLine(a, index, id) ==
        if p !in index then (if a.acctIgnored(p) || a.gitIgnored(p) then None else Some(Untracked(p)))
        else if index[p] == want || index[p] == want + [NL] then None
        else Some(Modified(p))
  {
    hide Staged, Storable, Committed, IsObject;
    FilesAre(a);
    assert |LowerAll(a.file)| == |a.file| >= 5;
    PlainStorable(a, Committed(a, id));
    var p, want := Path(a, Committed(a, id)), BlobFor(a, index, id);
    if p in index && index[p] != "" && index[p][|index[p]| - 1] == NL {
      assert index[p] == index[p][..|index[p]| - 1] + [NL];
    }
    if p in index && index[p] == want + [NL] {
      assert index[p][..|index[p]| - 1] == want;
    }
  }

  /** A master-file record in status: nothing for what is derived or compiled, tracked or not;
      nothing for an untracked stock record, the catalog's pointer or one a rule names. */
  lemma MasterRecordLine(a: Account, index: Index, id: string)
    requires IsVoc(a) && PlainName(a.file) && PlainName(id) && id in a.recs && id != CONTROL
    ensures var p, rec, want := a.file + "/" + id, a.recs[id], Translate(a.recs[id], AM, NL);
      RecordLine(a, index, id) ==
        if VocClass(rec) == 1 || (VocClass(rec) == 2 && (F.Furniture(Platform(a), id) || id in a.files))
           || (exists name :: name != "" && name in a.files && id == name + ".O") || IsObject(a, id, rec) then None
        else if p !in index then
          (if a.stock(id, rec) || a.acctIgnored(p) || a.gitIgnored(p) || SameFold(id, "CATALOG") then None else Some(Untracked(p)))
        else if index[p] == want || index[p] == want + [NL] then None
        else Some(Modified(p))
  {
    hide Storable, VocClass, IsObject, Translate, ObjectPointer;
    ObjectPointersAre(a, id);
    FilesAre(a);
    assert |LowerAll(a.file)| == |a.file|;
    PlainStorable(a, id);
    var p, want := Path(a, id), Translate(a.recs[id], AM, NL);
    if p in index && index[p] != "" && index[p][|index[p]| - 1] == NL {
      assert index[p] == index[p][..|index[p]| - 1] + [NL];
    }
    if p in index && index[p] == want + [NL] {
      assert index[p][..|index[p]| - 1] == want;
    }
  }

  /** Status looks at the records of a file exactly when git has an entry for it or under it
      and it is not furniture; it looks at the entries of every file. */
  lemma WalkedExactly(a: Account, index: Index, l: Line)
    ensures !l.Deleted? ==>
      (Reports(a, index, l) <==>
        && !F.Furniture(Platform(a), a.file)
        && (a.file in index || exists rest :: a.file + "/" + rest in index)
        && exists id :: id in a.recs && RecordLine(a, index, id) == Some(l))
    ensures l.Deleted? ==>
      (Reports(a, index, l) <==>
        l.path in index && exists name :: name != CONTROL && l.path == a.file + "/" + name && ReadAs(a, name) !in a.recs)
  {
    hide RecordLine, ReadAs;
    forall p | UnderFile(a, p) ensures p == a.file + "/" + p[|a.file| + 1..] {
      assert p == p[..|a.file| + 1] + p[|a.file| + 1..];
    }
    forall rest: string ensures UnderFile(a, a.file + "/" + rest) && NameIn(a, a.file + "/" + rest) == rest {
      var p := a.file + "/" + rest;
      assert p[..|a.file| + 1] == a.file + "/" && p[|a.file| + 1..] == rest;
    }
    assert l.Deleted? ==> !exists id :: id in a.recs && RecordLine(a, index, id) == Some(l) by {
      NeverDeleted(a, index, l);
    }
    if l.Deleted? && Stale(a, l.path) {
      assert l.path == a.file + "/" + NameIn(a, l.path);
    }
  }

  lemma NeverDeleted(a: Account, index: Index, l: Line)
    ensures forall id :: id in a.recs && RecordLine(a, index, id) == Some(l) ==> !l.Deleted?
  {
    hide DerivedPointer, ObjectPointer, IsObject, Storable, Ignored, SameClass, SameBlob, Wanted;
  }
}

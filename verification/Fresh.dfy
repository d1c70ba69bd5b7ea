// A file just checked out, and the status that follows: what a checkout writes is
// what status expects to find.
module Fresh {
  import opened Text
  import opened Paths
  import opened Records
  import opened Trans
  import opened Crossing
  import opened AddStatus
  import C = Checkout

  /** The file of the account and the file of the checkout are the same one, on a
      platform that keeps the single/multi flag at attribute 6, the dictionaries
      committed being the ones checked out. */
  predicate SameFile(a: Account, st: C.Setting, c: C.Commit)
  {
    && a.smAt6 && a.names == st.names && a.open == st.open && a.dicts == c.dicts
    && (st.isDict <==> |a.file| > 5 && HasSuffix(a.file, ".DICT"))
    && (OpenDict(a) ==> st.base == BaseFile(a))
  }

  /** The attributes of a blob, less the one trailing newline that status forgives. */
  function Forgiven(a: seq<string>): seq<string>
  {
    if |a| > 1 && a[|a| - 1] == "" then a[..|a| - 1] else a
  }

  /** An item of an open dictionary that crosses over and back unchanged, as status sees
      it. */
  predicate Crosses(ds: Dicts, base: string, blob: string)
  {
    var a := Split(blob, NL);
    if IsDictItem(a) then Canonical(Forgiven(a)) && SpecSurvives(ds, base, Forgiven(a))
    else Trimmed(a) && !IsIType(Translate(blob, NL, AM)) && (AttrIn(a, 6) == "" <==> AttrIn(a, 7) == "")
  }

  /** An entry whose record status can find again: its name reads back, its text has no
      attribute mark, and in an open dictionary it crosses, an I-type under its own name. */
  predicate Sound(a: Account, st: C.Setting, c: C.Commit, e: Entry)
  {
    C.IsControl(st, e.name) ||
    var id := C.LocalName(st, e.name);
    && e.name != CONTROL && id != CONTROL && Committed(a, id) == e.name && AM !in e.text
    && (OpenDict(a) ==>
          && Crosses(c.dicts, st.base, e.text) && LongSpecPlain(c.dicts, st.base, Split(e.text, NL))
          && (id == e.name || Split(e.text, NL)[0] != "I"))
  }

  /** Every entry is sound and no two go to one record. */
  predicate SoundTree(a: Account, st: C.Setting, c: C.Commit)
  {
    && SameFile(a, st, c) && CleanDicts(c.dicts, AM)
    && (forall i :: 0 <= i < |c.items| ==> Sound(a, st, c, c.items[i]))
    && forall i, j :: 0 <= i < j < |c.items| && !C.IsControl(st, c.items[i].name) && !C.IsControl(st, c.items[j].name) ==>
         C.LocalName(st, c.items[i].name) != C.LocalName(st, c.items[j].name)
  }

  /** The index holds the tree's entries, and nothing else of the file. */
  predicate HoldsTree(a: Account, c: C.Commit, index: Index)
  {
    && (forall i :: 0 <= i < |c.items| ==>
          Path(a, c.items[i].name) in index && index[Path(a, c.items[i].name)] == c.items[i].text)
    && forall p :: p in index && UnderFile(a, p) ==>
         exists i :: 0 <= i < |c.items| && p == Path(a, c.items[i].name)
  }

  // ---- one item ----------------------------------------------------------

  /** A record that is neither a D nor an I item, there and back. */
  lemma OtherItem(ds: Dicts, base: string, isDir: bool, blob: string, committed: Option<string>)
    requires AM !in blob && Crosses(ds, base, blob) && !IsDictItem(Split(blob, NL))
    ensures Staged(true, ds, base, ToNative(ds, base, isDir, blob), committed) == blob
  {
    hide ToUdt, ToOpen, Translate, Join, Split, TrimEmpty;
    var a := Split(blob, NL);
    JoinSplit(blob, NL);
    SplitFromText(blob, NL, AM);
    TranslateJoin(a, NL, AM);
    TranslateJoin(a, AM, NL);
    var rec := Join(a, AM);
    SplitJoin(a, AM);
    TrimMarksJoin(a);
    TrimmedStays(a);
    NoMarkLast(rec, isDir);
    NotSwapped(a);
  }

  lemma NotSwapped(a: seq<string>)
    requires a != [] && Free(a, AM) && !IsDictItem(a) && (AttrIn(a, 6) == "" <==> AttrIn(a, 7) == "")
    ensures Nativise(Join(a, AM)) == Join(a, AM) && Project(true, Join(a, AM)) == TrimMarks(Join(a, AM))
  {
    SplitJoin(a, AM);
    assert Take(a, 32)[0] == a[0];
  }

  lemma TrimmedStays(a: seq<string>)
    requires Trimmed(a)
    ensures TrimEmpty(a) == a
  {}

  lemma NoMarkLast(rec: string, isDir: bool)
    requires TrimMarks(rec) == rec
    ensures DropTerminator(rec, isDir) == rec
  {}

  /** A D item's blob does not depend on what it is compared with. */
  lemma NotCompared(ds: Dicts, base: string, isDir: bool, a: seq<string>, committed: Option<string>)
    requires IsDictItem(a) && !IsI(a) && Free(a, NL) && Free(a, AM) && CleanDicts(ds, AM)
    ensures var rec := ToNative(ds, base, isDir, Join(a, NL));
      Staged(true, ds, base, rec, committed) == Staged(true, ds, base, rec, Some(Join(a, NL)))
  {
    hide ToUdt, ToOpen, ToNative, Join, Split, Projected, Project;
    var r := CheckedOut(ds, base, isDir, a);
    ProjectJoin(true, r);
    ProjectedAttrs(true, r);
    TypeSeen(Projected(true, r));
  }

  /** A D or I item just checked out reads clean exactly when, one trailing newline aside,
      it is canonical and its expression survives. */
  lemma ItemReadsClean(ds: Dicts, base: string, isDir: bool, a: seq<string>)
    requires IsDictItem(a) && Free(a, NL) && Free(a, AM) && CleanDicts(ds, AM) && LongSpecPlain(ds, base, a)
    ensures var blob := Join(a, NL);
      SameBlob(blob, Staged(true, ds, base, ToNative(ds, base, isDir, blob), Some(blob))) <==>
      Canonical(Forgiven(a)) && SpecSurvives(ds, base, Forgiven(a))
  {
    hide ToUdt, ToOpen, Staged, ToNative, Join, Split, LiveSpec, StagedAt, Canonical, SpecSurvives, NativeAt;
    var r := CheckedOut(ds, base, isDir, a);
    assert AttrIn(r, 2) == CheckedAt(ds, base, a, 2);
    var t := StagedAttrs(true, ds, base, a, r);
    StagedPieces(true, ds, base, a, r, t);
    ForgivenAttrs(ds, base, a, r, t);
    SameWhen(ds, base, Forgiven(a), r, t);
    JoinSame(a, t);
    OneForgiven(a, t);
  }

  /** Forgiving the newline changes no attribute. */
  lemma ForgivenAttrs(ds: Dicts, base: string, a: seq<string>, r: seq<string>, t: seq<string>)
    requires IsDictItem(a)
    ensures var b := Forgiven(a);
      && IsDictItem(b) && b[0] == a[0]
      && forall n: int :: CheckedAt(ds, base, b, n) == CheckedAt(ds, base, a, n)
                          && StagedAt(true, ds, base, b, r, n) == StagedAt(true, ds, base, a, r, n)
  {
    hide ToUdt, ToOpen, StagedSpec, LiveSpec;
    var b := Forgiven(a);
    assert forall n: int :: AttrIn(b, n) == AttrIn(a, n);
    SameSwap(b, a);
  }

  lemma OneForgiven(a: seq<string>, t: seq<string>)
    requires a != [] && Trimmed(t)
    ensures (a == t || a == t + [""]) <==> t == Forgiven(a)
  {
    if |a| > 1 && a[|a| - 1] == "" {
      assert a == a[..|a| - 1] + [""];
      assert a == t + [""] ==> a[..|a| - 1] == t;
    }
  }

  /** What add would stage from the record checkout wrote is taken for the committed blob;
      for a D or I item exactly when it crosses. */
  lemma DictionaryItem(ds: Dicts, base: string, isDir: bool, blob: string, committed: Option<string>)
    requires AM !in blob && CleanDicts(ds, AM) && LongSpecPlain(ds, base, Split(blob, NL))
    requires committed == Some(blob) || Split(blob, NL)[0] != "I"
    ensures var same := SameBlob(blob, Staged(true, ds, base, ToNative(ds, base, isDir, blob), committed));
      (Crosses(ds, base, blob) ==> same) && (IsDictItem(Split(blob, NL)) ==> (Crosses(ds, base, blob) <==> same))
  {
    hide ToUdt, ToOpen, Staged, ToNative, Join, Split, LongSpecPlain, Canonical, SpecSurvives;
    var a := Split(blob, NL);
    if IsDictItem(a) {
      JoinSplit(blob, NL);
      SplitFromText(blob, NL, AM);
      ItemReadsClean(ds, base, isDir, a);
      if committed != Some(blob) {
        NotCompared(ds, base, isDir, a, committed);
      }
    } else if Crosses(ds, base, blob) {
      OtherItem(ds, base, isDir, blob, committed);
    }
  }

  /** A data record's blob, less the terminator a directory's record does without. */
  lemma DataRecord(blob: string, isDir: bool)
    requires AM !in blob
    ensures SameBlob(blob, Translate(DropTerminator(Translate(blob, NL, AM), isDir), AM, NL))
  {
    var rec := Translate(blob, NL, AM);
    TranslateBack(blob, NL, AM);
    if isDir && rec != "" && rec[|rec| - 1] == AM {
      var n := |blob| - 1;
      assert blob[n] == NL;
      assert Translate(rec[..n], AM, NL) == blob[..n];
    }
  }

  // ---- one entry ---------------------------------------------------------

  /** Status has no line for a record the checkout wrote, and none for its entry. */
  lemma EntryReadsClean(a: Account, st: C.Setting, c: C.Commit, before: C.RecordFile, keepExtra: bool,
                        index: Index, i: nat)
    requires SoundTree(a, st, c) && HoldsTree(a, c, index)
    requires a.recs == C.CheckedOutFile(st, c, before, keepExtra)
    requires i < |c.items| && !C.IsControl(st, c.items[i].name)
    ensures var e := c.items[i];
      var id := C.LocalName(st, e.name);
      id in a.recs && RecordLine(a, index, id) == None && !Stale(a, Path(a, e.name))
  {
    hide ToNative, Staged, Crosses, CleanDicts, C.Written, C.Seen, C.Targets;
    var e := c.items[i];
    var id := C.LocalName(st, e.name);
    assert Sound(a, st, c, e);
    C.EntryWritten(st, c, c.items, before, i);
    C.SeenTargets(st, c.items);
    C.TargetsAre(st, c.items);
    assert a.recs[id] == C.Image(st, c, e.text);
    PathInjective(a, id, e.name);
    assert ReadAs(a, e.name) == id && NameIn(a, Path(a, e.name)) == e.name;
    if OpenDict(a) {
      DictionaryItem(c.dicts, st.base, c.isDir, e.text, GitsCopy(a, index, id));
    } else {
      DataRecord(e.text, c.isDir);
    }
  }

  /** Exactly, for a D or I item of an open dictionary under its own name: no line if and
      only if it crosses, or is a record status passes over. */
  lemma ItemEntryExactly(a: Account, st: C.Setting, c: C.Commit, index: Index, e: Entry)
    requires SameFile(a, st, c) && OpenDict(a) && CleanDicts(c.dicts, AM)
    requires e.name in a.recs && a.recs[e.name] == C.Image(st, c, e.text)
    requires Committed(a, e.name) == e.name != CONTROL && Path(a, e.name) in index && index[Path(a, e.name)] == e.text
    requires AM !in e.text && IsDictItem(Split(e.text, NL)) && LongSpecPlain(c.dicts, st.base, Split(e.text, NL))
    ensures RecordLine(a, index, e.name) == None <==>
      IsObject(a, e.name, a.recs[e.name]) || !Storable(Path(a, e.name)) || Crosses(c.dicts, st.base, e.text)
  {
    hide ToNative, Staged, Crosses, CleanDicts, Storable, LongSpecPlain, IsObject, Split, IsDictItem;
    DictionaryItem(c.dicts, st.base, c.isDir, e.text, GitsCopy(a, index, e.name));
    NotMaster(a);
  }

  /** A dictionary is not the master file. */
  lemma NotMaster(a: Account)
    requires OpenDict(a)
    ensures !IsVoc(a)
  {
    assert |LowerAll(a.file)| > 5 && |LowerAll("VOC")| == 3 && |LowerAll("MD")| == 2;
  }

  // ---- the whole file ----------------------------------------------------

  /** After a checkout, status has a line only for a record the commit does not carry;
      after a branch switch, only for a stock record or the control. */
  lemma FreshFileReadsClean(a: Account, st: C.Setting, c: C.Commit, before: C.RecordFile, keepExtra: bool,
                            index: Index, l: Line)
    requires SoundTree(a, st, c) && HoldsTree(a, c, index)
    requires a.recs == C.CheckedOutFile(st, c, before, keepExtra)
    ensures Reports(a, index, l) ==>
      exists id :: id in a.recs && id !in C.Targets(st, c.items) && RecordLine(a, index, id) == Some(l)
                   && (!keepExtra ==> id in st.stock || id == CONTROL)
  {
    hide RecordLine, Stale, Walked, C.Written, C.Targets, Sound;
    C.SeenTargets(st, c.items);
    if Reports(a, index, l) {
      if l.Deleted? && l.path in index && Stale(a, l.path) {
        NoneStale(a, st, c, before, keepExtra, index, l.path);
      }
      var id :| id in a.recs && RecordLine(a, index, id) == Some(l);
      if id in C.Targets(st, c.items) {
        C.TargetsAre(st, c.items);
        var i :| 0 <= i < |c.items| && !C.IsControl(st, c.items[i].name) && C.LocalName(st, c.items[i].name) == id;
        EntryReadsClean(a, st, c, before, keepExtra, index, i);
      }
    }
  }

  lemma NoneStale(a: Account, st: C.Setting, c: C.Commit, before: C.RecordFile, keepExtra: bool, index: Index, p: string)
    requires SoundTree(a, st, c) && HoldsTree(a, c, index)
    requires a.recs == C.CheckedOutFile(st, c, before, keepExtra) && p in index
    ensures !Stale(a, p)
  {
    hide Sound, C.CheckedOutFile;
    if UnderFile(a, p) {
      var i :| 0 <= i < |c.items| && p == Path(a, c.items[i].name);
      if C.IsControl(st, c.items[i].name) {
        assert NameIn(a, p) == CONTROL;
      } else {
        EntryReadsClean(a, st, c, before, keepExtra, index, i);
      }
    }
  }

  // ---- what is on disk ---------------------------------------------------

  /** The text of a data record just written: the blob, byte for byte, but that the record of
      a directory-backed file does without the newline its blob ends in. */
  lemma DataRecordWritten(st: C.Setting, c: C.Commit, blob: string)
    requires !(st.isDict && st.open) && AM !in blob
    ensures Translate(C.Image(st, c, blob), AM, NL) ==
      if c.isDir && blob != "" && blob[|blob| - 1] == NL then blob[..|blob| - 1] else blob
    ensures NL !in C.Image(st, c, blob)
  {
    var rec := Translate(blob, NL, AM);
    assert blob != "" ==> (rec[|rec| - 1] == AM <==> blob[|blob| - 1] == NL);
    if c.isDir && rec != "" && rec[|rec| - 1] == AM {
      assert blob[|blob| - 1] == NL;
      assert Translate(rec[..|rec| - 1], AM, NL) == blob[..|blob| - 1];
    } else {
      assert Translate(rec, AM, NL) == blob;
    }
  }

  /** Carried to the file: after a checkout each of the tree's records holds its blob. */
  lemma DataFileWritten(st: C.Setting, c: C.Commit, before: C.RecordFile, keepExtra: bool, i: nat)
    requires !st.isDict && i < |c.items| && AM !in c.items[i].text
    requires forall j :: i < j < |c.items| ==> c.items[j].name != c.items[i].name
    ensures var e, after := c.items[i], C.CheckedOutFile(st, c, before, keepExtra);
      e.name in after && Translate(after[e.name], AM, NL) ==
        if c.isDir && e.text != "" && e.text[|e.text| - 1] == NL then e.text[..|e.text| - 1] else e.text
  {
    hide C.Image, Translate;
    C.EntryWritten(st, c, c.items, before, i);
    C.SeenTargets(st, c.items);
    C.TargetsAre(st, c.items);
    DataRecordWritten(st, c, c.items[i].text);
  }

  /** And in an open dictionary: the attributes of the item written, in native order, with
      the expression translated where it translates; the control is not written. */
  lemma DictionaryItemWritten(st: C.Setting, c: C.Commit, before: C.RecordFile, keepExtra: bool, i: nat)
    returns (r: seq<string>)
    requires st.isDict && st.open && i < |c.items| && CleanDicts(c.dicts, AM)
    requires AM !in c.items[i].text && IsDictItem(Split(c.items[i].text, NL)) && c.items[i].name != CONTROL
    requires forall j :: i < j < |c.items| && c.items[j].name != CONTROL ==>
      ToLocal(st.names, c.items[j].name) != ToLocal(st.names, c.items[i].name)
    ensures var e, after := c.items[i], C.CheckedOutFile(st, c, before, keepExtra);
      var id, a := ToLocal(st.names, e.name), Split(e.text, NL);
      id in after && after[id] == Join(r, AM) && forall n: int :: AttrIn(r, n) == CheckedAt(c.dicts, st.base, a, n)
  {
    hide ToNative, Split, Join, CleanDicts, CheckedAt;
    var text := c.items[i].text;
    C.EntryWritten(st, c, c.items, before, i);
    C.SeenTargets(st, c.items);
    C.TargetsAre(st, c.items);
    JoinSplit(text, NL);
    SplitFromText(text, NL, AM);
    r := CheckedOut(c.dicts, st.base, c.isDir, Split(text, NL));
  }
}

// Account furniture: the recursive name test, and the two filters that drop
// furniture from a file list, one of them compacting its buffer in place.
module Furniture {
  import opened Text

  datatype Platform = Mvx | UniData | UniVerse | JBase

  const UNIDATA_FILES: seq<string> := [
    "__SCHEMA__MAP", "__SCHEMA__PROC", "__V__VIEW", "privilege", "voc", "UD_SQLTABLES",
    "savedlists", "SAVEDLISTS", "CTLG", "MENUFILE"]

  const CATALOG_DIRS: seq<string> := ["CATALOG", "LIB", "CTLG", "bin", "lib"]

  predicate SystemFile(pf: Platform, name: string)
  {
    match pf
    case UniData => (|name| > 6 && name[..6] == "DV_SQL") || name in UNIDATA_FILES
    case UniVerse => name == "VOCLIB"
    case _ => false
  }

  predicate Wrapped(name: string)
  {
    |name| >= 2 && ((name[0] == '_' && name[|name| - 1] == '_') || (name[0] == '&' && name[|name| - 1] == '&'))
  }

  /** mv_account_furniture */
  predicate Furniture(pf: Platform, name: string)
    decreases |name|
  {
    || SystemFile(pf, name)
    || name in CATALOG_DIRS
    || Wrapped(name)
    || name == "VOC.DICT" || name == "MD.DICT"
    || (|name| > 2 && name[..2] == "D_" && Furniture(pf, name[2..]))
    || (|name| > 5 && name[|name| - 5..] == ".DICT" && Furniture(pf, name[..|name| - 5]))
  }

  /** What the recursion bottoms out in. */
  predicate Listed(pf: Platform, name: string)
  {
    SystemFile(pf, name) || name in CATALOG_DIRS || Wrapped(name) || name == "VOC.DICT" || name == "MD.DICT"
  }

  /** Names between two underscores or two ampersands are the system's work files. */
  lemma WrappedIs(name: string)
    ensures Wrapped(name) <==> exists inner :: name == "_" + inner + "_" || name == "&" + inner + "&"
  {
    if Wrapped(name) {
      assert name == [name[0]] + name[1..|name| - 1] + [name[|name| - 1]];
    }
  }

  /** Each system has its own files: `DV_SQL...` and ten by name on UniData, one on UniVerse. */
  lemma SystemFiles(name: string)
    ensures SystemFile(UniData, name) <==> (exists rest :: rest != "" && name == "DV_SQL" + rest) || name in UNIDATA_FILES
    ensures SystemFile(UniVerse, name) <==> name == "VOCLIB"
    ensures !SystemFile(Mvx, name) && !SystemFile(JBase, name)
  {
    if |name| > 6 && name[..6] == "DV_SQL" {
      assert name == "DV_SQL" + name[6..];
    }
    if rest :| rest != "" && name == "DV_SQL" + rest {
      assert name[..6] == "DV_SQL";
    }
  }

  /** The two spellings of a file's dictionary. */
  datatype Spelling = Before | Behind

  function Spell(name: string, d: Spelling): string
  {
    if d.Before? then "D_" + name else name + ".DICT"
  }

  function SpellAll(name: string, ds: seq<Spelling>): string
  {
    if ds == [] then name else Spell(SpellAll(name, ds[1..]), ds[0])
  }

  /** Furniture is what is listed, under any number of dictionary spellings in any
      order, and nothing else. */
  lemma FurnitureIsSpelt(pf: Platform, name: string)
    ensures Furniture(pf, name) <==> exists base, ds :: Listed(pf, base) && base != "" && name == SpellAll(base, ds)
    decreases |name|
  {
    if Furniture(pf, name) {
      var base, ds := SpeltFrom(pf, name);
    }
    forall base, ds | Listed(pf, base) && base != "" && name == SpellAll(base, ds) ensures Furniture(pf, name) {
      StaysFurniture(pf, base, ds);
    }
  }

  lemma {:induction false} SpeltFrom(pf: Platform, name: string) returns (base: string, ds: seq<Spelling>)
    requires Furniture(pf, name)
    ensures Listed(pf, base) && base != "" && name == SpellAll(base, ds)
    decreases |name|
  {
    if Listed(pf, name) {
      base, ds := name, [];
    } else if |name| > 2 && name[..2] == "D_" && Furniture(pf, name[2..]) {
      base, ds := SpeltFrom(pf, name[2..]);
      ds := [Before] + ds;
      assert name == "D_" + name[2..];
    } else {
      base, ds := SpeltFrom(pf, name[..|name| - 5]);
      ds := [Behind] + ds;
      assert name == name[..|name| - 5] + ".DICT";
    }
  }

  lemma {:induction false} StaysFurniture(pf: Platform, base: string, ds: seq<Spelling>)
    requires Listed(pf, base) && base != ""
    ensures Furniture(pf, SpellAll(base, ds)) && SpellAll(base, ds) != ""
  {
    if ds == [] {
    } else {
      StaysFurniture(pf, base, ds[1..]);
      DictionaryOfFurniture(pf, SpellAll(base, ds[1..]));
    }
  }

  /** A dictionary is furniture whenever its file is, in both spellings. */
  lemma DictionaryOfFurniture(pf: Platform, name: string)
    requires name != "" && Furniture(pf, name)
    ensures Furniture(pf, "D_" + name) && Furniture(pf, name + ".DICT")
  {
    var d, x := "D_" + name, name + ".DICT";
    assert d[..2] == "D_" && d[2..] == name;
    assert x[|x| - 5..] == ".DICT" && x[..|x| - 5] == name;
  }

  // ---- the list ----------------------------------------------------------

  /** The entries a scan of the list meets: what stands between marks, a mark at the
      very end opening no further entry. */
  function Entries(list: string): seq<string>
    decreases |list|
  {
    if list == "" then []
    else
      var m := IndexOf(list, AM);
      [list[..m]] + (if m < |list| then Entries(list[m + 1..]) else [])
  }

  /** The name of an entry: up to its value mark. */
  function NameOf(entry: string): string { entry[..IndexOf(entry, VM)] }

  predicate Kept(pf: Platform, entry: string) { !Furniture(pf, NameOf(entry)) }

  function Keep(pf: Platform, es: seq<string>): seq<string>
  {
    if es == [] then [] else (if Kept(pf, es[0]) then [es[0]] else []) + Keep(pf, es[1..])
  }

  /** Appending the way both filters do: a mark first unless nothing is out yet. */
  function Append(out: string, entry: string): string
  {
    if out == "" then entry else out + [AM] + entry
  }

  function AppendAll(out: string, es: seq<string>): string
    decreases |es|
  {
    if es == [] then out else AppendAll(Append(out, es[0]), es[1..])
  }

  /** With no empty entry that is joining with marks. */
  lemma {:induction false} AppendJoins(out: string, es: seq<string>)
    requires out != "" && forall i :: 0 <= i < |es| ==> es[i] != ""
    ensures AppendAll(out, es) == Join([out] + es, AM)
    decreases |es|
  {
    if es == [] {
      assert [out] + es == [out];
    } else {
      AppendJoins(Append(out, es[0]), es[1..]);
      assert [out] + es == [out, es[0]] + es[1..];
      assert [out, es[0]][1..] == [es[0]];
      if |es| == 1 {
        assert [Append(out, es[0])] + es[1..] == [Append(out, es[0])] && [out, es[0]] + es[1..] == [out, es[0]];
      } else {
        JoinConcat([Append(out, es[0])], es[1..], AM);
        JoinConcat([out, es[0]], es[1..], AM);
      }
    }
  }

  predicate NoEmpty(es: seq<string>) { forall i :: 0 <= i < |es| ==> es[i] != "" }

  lemma AppendAllJoins(es: seq<string>)
    requires NoEmpty(es)
    ensures AppendAll("", es) == Join(es, AM)
  {
    if es != [] {
      AppendJoins(es[0], es[1..]);
      assert [es[0]] + es[1..] == es;
    }
  }

  lemma EntriesFrom(list: string, s: nat)
    requires s < |list|
    ensures var m := s + IndexOf(list[s..], AM);
      Entries(list[s..]) == [list[s..m]] + (if m < |list| then Entries(list[m + 1..]) else [])
  {
    hide IndexOf;
    var t := list[s..];
    var k := IndexOf(t, AM);
    assert t != "" && t[..k] == list[s..s + k];
    assert k < |t| ==> t[k + 1..] == list[s + k + 1..];
  }

  /** First offset at or after `s` of `c` below `end`, or `end`. */
  method ScanTo(body: array<char>, s: nat, end: nat, c: char) returns (e: nat)
    requires s <= end <= body.Length
    ensures s <= e <= end && e == s + IndexOf(body[s..end], c)
  {
    e := s;
    while e < end && body[e] != c
      invariant s <= e <= end && forall k :: s <= k < e ==> body[k] != c
    {
      e := e + 1;
    }
    FirstAt(body[s..end], e - s, c);
  }

  /** Mark, then the entry, over bytes already read. */
  method MoveEntry(body: array<char>, out: nat, s: nat, e: nat) returns (next: nat)
    requires (out == 0 || out < s) && s <= e <= body.Length
    modifies body
    ensures next <= e && body[..next] == Append(old(body[..out]), old(body[s..e]))
    ensures body[e..] == old(body[e..])
  {
    next := out;
    if next > 0 {
      body[next] := AM;
      next := next + 1;
    }
    ghost var entry, head := body[s..e], body[..next];
    assert entry == old(body[s..e]) && body[e..] == old(body[e..]);
    assert head == if out == 0 then "" else old(body[..out]) + [AM];
    MoveDown(body, next, s, e);
    next := next + (e - s);
    assert body[..next] == head + entry;
  }

  /** Where the scan resumes after the entry at the front of `t`. */
  function Past(t: string): nat
  {
    var m := IndexOf(t, AM);
    if m < |t| then m + 1 else m
  }

  /** One entry: read to its end, and moved down when it is kept. */
  method NextEntry(pf: Platform, body: array<char>, out: nat, s: nat) returns (next: nat, i: nat)
    requires s < body.Length && (out == 0 || out < s)
    modifies body
    ensures var t := old(body[s..]);
      var entry := t[..IndexOf(t, AM)];
      && i == s + Past(t) && i <= body.Length && body[i..] == t[i - s..]
      && next <= i && (0 < next == i ==> i == body.Length)
      && body[..next] == if Kept(pf, entry) then Append(old(body[..out]), entry) else old(body[..out])
  {
    hide Furniture, Append;
    next := out;
    ghost var t := body[s..];
    assert body[s..body.Length] == t;
    var e := ScanTo(body, s, body.Length, AM);
    var n := ScanTo(body, s, e, VM);
    ghost var entry := t[..e - s];
    assert body[s..e] == entry;
    assert body[s..n] == NameOf(entry);
    if !Furniture(pf, body[s..n]) {
      next := MoveEntry(body, out, s, e);
    }
    i := if e < body.Length then e + 1 else e;
    assert body[e..] == t[e - s..];
    assert body[i..] == t[i - s..];
  }

  /** mv_filelist's filter: entries are moved down over the buffer they are read from.
      No write reaches a byte still to be read (`i` and beyond), and what is left at
      the front is the kept entries. */
  method CompactInPlace(pf: Platform, body: array<char>) returns (out: nat)
    modifies body
    ensures out <= body.Length
    ensures body[..out] == AppendAll("", Keep(pf, Entries(old(body[..]))))
  {
    hide Kept, Entries, Keep, AppendAll, Append;
    ghost var was := body[..];
    ghost var want := AppendAll("", Keep(pf, Entries(was)));
    out := 0;
    var i := 0;
    assert was[0..] == was && body[..0] == "" && body[0..] == was;
    while i < body.Length
      invariant out <= i <= body.Length && (0 < out == i ==> i == body.Length)
      invariant body[i..] == was[i..]
      invariant want == AppendAll(body[..out], Keep(pf, Entries(was[i..])))
    {
      ghost var s, before := i, body[..out];
      Turn(pf, was, s, before);
      out, i := NextEntry(pf, body, out, i);
      assert was[s..][i - s..] == was[i..];
    }
    assert was[i..] == "";
    KeepNone(pf, body[..out]);
  }

  /** What one entry does to the answer. */
  lemma Turn(pf: Platform, was: string, s: nat, out: string)
    requires s < |was|
    ensures var t := was[s..];
      var entry, i := t[..IndexOf(t, AM)], s + Past(t);
      i <= |was| && AppendAll(out, Keep(pf, Entries(t))) ==
        AppendAll(if Kept(pf, entry) then Append(out, entry) else out, Keep(pf, Entries(was[i..])))
  {
    hide Kept, Keep, AppendAll, Append, Entries, IndexOf;
    EntriesFrom(was, s);
    NoEntries();
    var t := was[s..];
    var m := IndexOf(t, AM);
    var rest := was[s + Past(t)..];
    assert was[s..s + m] == t[..m];
    assert s + m == |was| ==> rest == "";
    assert Entries(t) == [t[..m]] + Entries(rest);
    KeepStep(pf, t[..m], Entries(rest), out);
  }

  lemma KeepNone(pf: Platform, out: string)
    ensures AppendAll(out, Keep(pf, Entries(""))) == out && AppendAll(out, Keep(pf, [])) == out
  {}

  lemma KeepStep(pf: Platform, entry: string, rest: seq<string>, out: string)
    ensures AppendAll(out, Keep(pf, [entry] + rest)) ==
            AppendAll(if Kept(pf, entry) then Append(out, entry) else out, Keep(pf, rest))
  {
    assert ([entry] + rest)[1..] == rest;
    var k := Keep(pf, rest);
    assert [] + k == k;
    assert ([entry] + k)[1..] == k;
  }

  /** memmove of [s, e) down to `out`. */
  method MoveDown(body: array<char>, out: nat, s: nat, e: nat)
    requires out <= s <= e <= body.Length
    modifies body
    ensures body[..out + (e - s)] == old(body[..out]) + old(body[s..e])
    ensures body[e..] == old(body[e..])
  {
    var k := 0;
    ghost var was := body[..];
    while k < e - s
      invariant 0 <= k <= e - s
      invariant body[..out + k] == was[..out] + was[s..s + k]
      invariant forall j :: s + k <= j < body.Length ==> body[j] == was[j]
    {
      ghost var below := body[..out + k];
      body[out + k] := body[s + k];
      assert body[..out + k + 1] == below + [was[s + k]];
      assert was[s..s + k + 1] == was[s..s + k] + [was[s + k]];
      k := k + 1;
    }
  }

  // ---- the other filter --------------------------------------------------

  /** mv_git_filter_furniture: the same scan into a fresh buffer, empty entries dropped. */
  method FilterFurniture(pf: Platform, list: string) returns (out: string)
    ensures out == AppendAll("", Keep(pf, NonEmpty(Entries(list))))
  {
    hide Furniture, Entries, Keep, AppendAll, Append, NonEmpty;
    out := "";
    var i := 0;
    assert list[0..] == list;
    while i < |list|
      invariant 0 <= i <= |list|
      invariant AppendAll("", Keep(pf, NonEmpty(Entries(list)))) == AppendAll(out, Keep(pf, NonEmpty(Entries(list[i..]))))
    {
      EntriesFrom(list, i);
      var s := i;
      var e := s + IndexOf(list[s..], AM);
      var entry := list[s..e];
      i := if e < |list| then e + 1 else e;
      NoEntries();
      assert e == |list| ==> list[i..] == "";
      NonEmptyStep(entry, Entries(list[i..]));
      if entry != "" {
        KeepStep(pf, entry, NonEmpty(Entries(list[i..])), out);
      }
      if entry != "" && !Furniture(pf, NameOf(entry)) {
        out := Append(out, entry);
      }
    }
    assert list[i..] == "";
    NoEntries();
    KeepNone(pf, out);
  }

  lemma NoEntries()
    ensures Entries("") == [] && NonEmpty([]) == []
  {}

  function NonEmpty(es: seq<string>): seq<string>
  {
    if es == [] then [] else (if es[0] != "" then [es[0]] else []) + NonEmpty(es[1..])
  }

  lemma NonEmptyStep(entry: string, rest: seq<string>)
    ensures NonEmpty([entry] + rest) == (if entry != "" then [entry] else []) + NonEmpty(rest)
    ensures entry == "" ==> NonEmpty([entry] + rest) == NonEmpty(rest)
  {
    assert ([entry] + rest)[1..] == rest;
    assert [] + NonEmpty(rest) == NonEmpty(rest);
  }

  lemma {:induction false} NonEmptyAll(es: seq<string>)
    requires NoEmpty(es)
    ensures NonEmpty(es) == es
  {
    if es == [] {
    } else {
      NonEmptyAll(es[1..]);
    }
  }

  lemma {:induction false} KeepNoEmpty(pf: Platform, es: seq<string>)
    requires NoEmpty(es)
    ensures NoEmpty(Keep(pf, es))
  {
    if es == [] {
    } else {
      KeepNoEmpty(pf, es[1..]);
    }
  }

  /** For a list with no empty entry the two filters agree, and both are: split at the
      marks, drop the furniture, join again. */
  lemma FiltersAgree(pf: Platform, list: string)
    requires NoEmpty(Entries(list))
    ensures AppendAll("", Keep(pf, Entries(list))) == Join(Keep(pf, Entries(list)), AM)
    ensures AppendAll("", Keep(pf, NonEmpty(Entries(list)))) == AppendAll("", Keep(pf, Entries(list)))
  {
    NonEmptyAll(Entries(list));
    KeepNoEmpty(pf, Entries(list));
    AppendAllJoins(Keep(pf, Entries(list)));
  }

  /** No empty entry stands behind one that is not empty. */
  predicate EmptyOnlyFirst(es: seq<string>)
  {
    forall i, j :: 0 <= i < j < |es| && es[i] != "" ==> es[j] != ""
  }

  lemma {:induction false} KeepNonEmpty(pf: Platform, es: seq<string>)
    ensures Keep(pf, NonEmpty(es)) == NonEmpty(Keep(pf, es))
  {
    if es == [] {
    } else {
      var e, rest := es[0], es[1..];
      KeepNonEmpty(pf, rest);
      assert [e] + rest == es;
      NonEmptyStep(e, rest);
      NonEmptyStep(e, Keep(pf, rest));
      if e != "" {
        assert ([e] + NonEmpty(rest))[1..] == NonEmpty(rest);
      }
      assert [] + Keep(pf, rest) == Keep(pf, rest);
    }
  }

  /** Once something is out, each empty entry adds a mark. */
  lemma {:induction false} EmptiesAdd(a: string, b: string, es: seq<string>)
    requires a != "" && b != ""
    ensures |AppendAll(a, es)| - |a| >= |AppendAll(b, NonEmpty(es))| - |b|
    ensures |AppendAll(a, es)| - |a| == |AppendAll(b, NonEmpty(es))| - |b| ==> NoEmpty(es)
    decreases |es|
  {
    if es == [] {
    } else {
      var e, rest := es[0], es[1..];
      assert es == [e] + rest;
      NonEmptyStep(e, rest);
      EmptiesAdd(Append(a, e), if e != "" then Append(b, e) else b, rest);
      if e != "" {
        assert ([e] + NonEmpty(rest))[1..] == NonEmpty(rest);
      }
    }
  }

  lemma {:induction false} AppendDiffers(es: seq<string>)
    ensures AppendAll("", es) == AppendAll("", NonEmpty(es)) <==> EmptyOnlyFirst(es)
    decreases |es|
  {
    if es == [] {
    } else {
      var e, rest := es[0], es[1..];
      assert es == [e] + rest;
      NonEmptyStep(e, rest);
      assert forall k :: 0 <= k < |rest| ==> rest[k] == es[k + 1];
      if e == "" {
        AppendDiffers(rest);
        assert EmptyOnlyFirst(es) <==> EmptyOnlyFirst(rest) by {
          assert forall k :: 0 < k < |es| ==> es[k] == rest[k - 1];
        }
      } else {
        assert ([e] + NonEmpty(rest))[1..] == NonEmpty(rest);
        EmptiesAdd(e, e, rest);
        if NoEmpty(rest) {
          NonEmptyAll(rest);
          assert forall k :: 0 < k < |es| ==> es[k] == rest[k - 1];
        }
        if EmptyOnlyFirst(es) {
          assert es[0] != "" && NoEmpty(rest);
        }
      }
    }
  }

  /** For every list: the two filters agree exactly when, of the entries kept, no empty
      one stands behind one that is not. */
  lemma FiltersAgreeExactly(pf: Platform, list: string)
    ensures var kept := Keep(pf, Entries(list));
      AppendAll("", kept) == AppendAll("", Keep(pf, NonEmpty(Entries(list)))) <==> EmptyOnlyFirst(kept)
  {
    KeepNonEmpty(pf, Entries(list));
    AppendDiffers(Keep(pf, Entries(list)));
  }

  /** An empty entry between two others makes the difference; one at the front does
      not. */
  lemma EmptyEntryDiffers()
    ensures var list := "A" + [AM] + ([AM] + "B");
      AppendAll("", Keep(Mvx, Entries(list))) != AppendAll("", Keep(Mvx, NonEmpty(Entries(list))))
    ensures var list := [AM] + "B";
      AppendAll("", Keep(Mvx, Entries(list))) == AppendAll("", Keep(Mvx, NonEmpty(Entries(list))))
  {
    hide Entries, AppendAll, NonEmpty, Kept;
    ThreeEntries("A" + [AM] + ([AM] + "B"));
    PlainNames();
    FiltersAgreeExactly(Mvx, "A" + [AM] + ([AM] + "B"));
    FiltersAgreeExactly(Mvx, [AM] + "B");
    KeepAll(Mvx, ["A", "", "B"]);
    KeepAll(Mvx, ["", "B"]);
    var kept := ["A", "", "B"];
    assert kept[0] != "" && kept[1] == "";
  }

  lemma {:induction false} KeepAll(pf: Platform, es: seq<string>)
    requires forall i :: 0 <= i < |es| ==> Kept(pf, es[i])
    ensures Keep(pf, es) == es
  {
    if es == [] {
    } else {
      KeepAll(pf, es[1..]);
    }
  }

  lemma ThreeEntries(list: string)
    requires list == "A" + [AM] + ([AM] + "B")
    ensures Entries(list) == ["A", "", "B"] && Entries([AM] + "B") == ["", "B"]
  {
    hide Entries, IndexOf;
    assert list[0..] == list;
    FirstAt(list, 1, AM);
    EntriesFrom(list, 0);
    var t := [AM] + "B";
    assert list[0..1] == "A" && list[2..] == t && t[0..] == t;
    FirstAt(t, 0, AM);
    EntriesFrom(t, 0);
    assert t[0..0] == "" && t[1..] == "B";
    FirstAt("B", 1, AM);
    assert "B"[0..] == "B";
    EntriesFrom("B", 0);
    assert "B"[0..1] == "B";
  }

  lemma PlainNames()
    ensures Kept(Mvx, "A") && Kept(Mvx, "") && Kept(Mvx, "B")
  {
    FirstAt("A", 1, VM);
    FirstAt("B", 1, VM);
    FirstAt("", 0, VM);
    assert "A"[..1] == "A" && "B"[..1] == "B" && ""[..0] == "";
  }

  /** What follows an entry's value mark does not matter to the filters. */
  lemma NameDecides(pf: Platform, name: string, rest: string)
    requires VM !in name
    ensures Kept(pf, name) == Kept(pf, name + [VM] + rest) == !Furniture(pf, name)
  {
    var e := name + [VM] + rest;
    assert forall j :: 0 <= j < |name| ==> e[j] == name[j];
    FirstAt(e, |name|, VM);
    FirstAt(name, |name|, VM);
    assert e[..|name|] == name[..|name|] == name;
  }
}

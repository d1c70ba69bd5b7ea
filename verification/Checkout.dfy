// Writing one file of a commit into the account, and reconciling what the commit
// no longer has: what is left depends on the last commit alone.
module Checkout {
  import opened Text
  import opened Paths
  import opened Records
  import opened Trans
  import opened Crossing

  type RecordFile = map<string, string>

  /** What is fixed about a file: whether it is a dictionary, of which base file, in an
      open account, the local names of the two renamed items, and the stock ids. */
  datatype Setting = Setting(isDict: bool, base: string, open: bool, names: Names, stock: set<string>)

  /** A commit as this file sees it: every dictionary in the tree, the file's own
      entries, and whether its control says it is directory-backed. */
  datatype Commit = Commit(dicts: Dicts, items: seq<Entry>, isDir: bool)

  function LocalName(st: Setting, name: string): string
  {
    if st.isDict && st.open then ToLocal(st.names, name) else name
  }

  /** The record written for one blob. */
  function Image(st: Setting, c: Commit, blob: string): string
  {
    if st.isDict && st.open then ToNative(c.dicts, st.base, c.isDir, blob)
    else DropTerminator(Translate(blob, NL, AM), c.isDir)
  }

  predicate IsControl(st: Setting, name: string) { st.isDict && name == CONTROL }

  // ---- one checkout ------------------------------------------------------

  function Written(st: Setting, c: Commit, items: seq<Entry>, recs: RecordFile): RecordFile
    decreases |items|
  {
    if items == [] then recs
    else
      var e := items[0];
      Written(st, c, items[1..],
              if IsControl(st, e.name) then recs else recs[LocalName(st, e.name) := Image(st, c, e.text)])
  }

  /** The ids the commit accounts for; a control counts under its own name. */
  function Seen(st: Setting, items: seq<Entry>): set<string>
  {
    if items == [] then {}
    else {if IsControl(st, items[0].name) then items[0].name else LocalName(st, items[0].name)} + Seen(st, items[1..])
  }

  /** How many entries are written. */
  function Writes(st: Setting, items: seq<Entry>): nat
  {
    if items == [] then 0 else (if IsControl(st, items[0].name) then 0 else 1) + Writes(st, items[1..])
  }

  function Reconciled(recs: RecordFile, keep: set<string>): RecordFile
  {
    map id | id in recs && id in keep :: recs[id]
  }

  /** materialize_file; `keepExtra` is a fresh clone. */
  function CheckedOutFile(st: Setting, c: Commit, recs: RecordFile, keepExtra: bool): RecordFile
  {
    var w := Written(st, c, c.items, recs);
    if keepExtra then w else Reconciled(w, Seen(st, c.items) + st.stock)
  }

  class AccountFile {
    var recs: RecordFile

    constructor (recs: RecordFile)
      ensures this.recs == recs
    {
      this.recs := recs;
    }

    /** The write loop; `seen` is what the reconcile pass must leave. */
    method WriteAll(st: Setting, c: Commit) returns (nw: nat, seen: set<string>)
      modifies this
      ensures recs == Written(st, c, c.items, old(recs)) && seen == Seen(st, c.items)
      ensures nw == Writes(st, c.items)
    {
      hide Image, LocalName;
      seen := {};
      nw := 0;
      var i := 0;
      ghost var all := Written(st, c, c.items, recs);
      assert c.items[0..] == c.items;
      while i < |c.items|
        invariant 0 <= i <= |c.items| && nw + Writes(st, c.items[i..]) == Writes(st, c.items)
        invariant all == Written(st, c, c.items[i..], recs)
        invariant seen + Seen(st, c.items[i..]) == Seen(st, c.items)
      {
        var e := c.items[i];
        assert c.items[i..][0] == e && c.items[i..][1..] == c.items[i + 1..];
        if IsControl(st, e.name) {
          seen := seen + {e.name};
        } else {
          var id := LocalName(st, e.name);
          recs := recs[id := Image(st, c, e.text)];
          nw := nw + 1;
          seen := seen + {id};
        }
        i := i + 1;
      }
    }

    /** materialize_file: the write loop, then, unless extras are kept, the delete loop
        over a select of the file in whatever order it lists the ids. */
    method Materialise(st: Setting, c: Commit, keepExtra: bool) returns (nw: nat, nd: nat)
      modifies this
      ensures recs == CheckedOutFile(st, c, old(recs), keepExtra)
      ensures nw == Writes(st, c.items) && nd == |Written(st, c, c.items, old(recs))| - |recs|
    {
      var seen;
      nw, seen := WriteAll(st, c);
      nd := 0;
      if !keepExtra {
        nd := Drop(seen + st.stock);
      }
    }

    method Drop(keep: set<string>) returns (nd: nat)
      modifies this
      ensures recs == Reconciled(old(recs), keep) && nd == |old(recs)| - |recs|
    {
      nd := 0;
      ghost var was := recs;
      var todo := recs.Keys;
      while todo != {}
        invariant todo <= recs.Keys <= was.Keys && nd == |was| - |recs|
        invariant forall id :: id in recs ==> recs[id] == was[id]
        invariant forall id :: id in was && id !in todo ==> (id in recs <==> id in keep)
        decreases |todo|
      {
        var id :| id in todo;
        todo := todo - {id};
        if id !in keep {
          ghost var before := recs;
          recs := recs - {id};
          assert recs.Keys == before.Keys - {id};
          nd := nd + 1;
        }
      }
      assert recs == Reconciled(was, keep);
    }
  }

  // ---- histories ---------------------------------------------------------

  /** The ids whose content the commits decide. */
  predicate Decided(st: Setting, id: string) { id !in st.stock && !IsControl(st, id) }

  function DecidedPart(st: Setting, recs: RecordFile): RecordFile
  {
    map id | id in recs && Decided(st, id) :: recs[id]
  }

  /** What the commit alone says the decided part is. */
  function TreePart(st: Setting, c: Commit): RecordFile { DecidedPart(st, Written(st, c, c.items, map[])) }

  /** Writing the same entries over different files differs only where they wrote nothing. */
  lemma {:induction false} WritesDecide(st: Setting, c: Commit, items: seq<Entry>, a: RecordFile, b: RecordFile, id: string)
    ensures var x, y := Written(st, c, items, a), Written(st, c, items, b);
      if id in Targets(st, items) then id in x && id in y && x[id] == y[id]
      else (id in x <==> id in a) && (id in a ==> x[id] == a[id])
    decreases |items|
  {
    if items == [] {
    } else {
      var e := items[0];
      var t := LocalName(st, e.name);
      var a1 := if IsControl(st, e.name) then a else a[t := Image(st, c, e.text)];
      var b1 := if IsControl(st, e.name) then b else b[t := Image(st, c, e.text)];
      WritesDecide(st, c, items[1..], a1, b1, id);
      if id !in Targets(st, items[1..]) {
        WritesDecide(st, c, items[1..], b1, a1, id);
      }
    }
  }

  /** The ids a checkout writes. */
  function Targets(st: Setting, items: seq<Entry>): set<string>
  {
    if items == [] then {}
    else (if IsControl(st, items[0].name) then {} else {LocalName(st, items[0].name)}) + Targets(st, items[1..])
  }

  lemma {:induction false} TargetsAre(st: Setting, items: seq<Entry>)
    ensures forall id :: id in Targets(st, items) <==>
      exists i :: 0 <= i < |items| && !IsControl(st, items[i].name) && LocalName(st, items[i].name) == id
  {
    if items == [] {
    } else {
      TargetsAre(st, items[1..]);
      assert forall i :: 0 < i < |items| ==> items[i] == items[1..][i - 1];
    }
  }

  lemma {:induction false} SeenTargets(st: Setting, items: seq<Entry>)
    ensures forall id :: id in Seen(st, items) <==>
      id in Targets(st, items) || (st.isDict && id == CONTROL && exists i :: 0 <= i < |items| && items[i].name == CONTROL)
  {
    if items == [] {
    } else {
      SeenTargets(st, items[1..]);
      forall id ensures id in Seen(st, items) <==>
        id in Targets(st, items) || (st.isDict && id == CONTROL && exists i :: 0 <= i < |items| && items[i].name == CONTROL)
      {
        if exists i :: 0 <= i < |items| && items[i].name == CONTROL {
          var i :| 0 <= i < |items| && items[i].name == CONTROL;
          assert i > 0 ==> items[1..][i - 1] == items[i];
        }
        if exists i :: 0 <= i < |items[1..]| && items[1..][i].name == CONTROL {
          var i :| 0 <= i < |items[1..]| && items[1..][i].name == CONTROL;
          assert items[i + 1].name == CONTROL;
        }
      }
    }
  }

  /** After a branch switch the decided part is exactly what the commit says, whatever
      the file held before. */
  lemma CheckoutDecides(st: Setting, c: Commit, recs: RecordFile)
    ensures DecidedPart(st, CheckedOutFile(st, c, recs, false)) == TreePart(st, c)
  {
    var x, y := DecidedPart(st, CheckedOutFile(st, c, recs, false)), TreePart(st, c);
    SeenTargets(st, c.items);
    forall id ensures (id in x <==> id in y) && (id in x ==> x[id] == y[id]) {
      WritesDecide(st, c, c.items, recs, map[], id);
      WritesDecide(st, c, c.items, map[], recs, id);
    }
    assert x.Keys == y.Keys;
  }

  function After(st: Setting, commits: seq<Commit>, recs: RecordFile): RecordFile
    decreases |commits|
  {
    if commits == [] then recs else After(st, commits[1..], CheckedOutFile(st, commits[0], recs, false))
  }

  /** Branch switching is history-independent: after any sequence of checkouts the
      file's non-stock records (its control aside) are exactly the last commit's. */
  lemma {:induction false} HistoryIndependent(st: Setting, commits: seq<Commit>, recs: RecordFile)
    requires commits != []
    ensures DecidedPart(st, After(st, commits, recs)) == TreePart(st, commits[|commits| - 1])
    decreases |commits|
  {
    if |commits| == 1 {
      assert commits[1..] == [];
      CheckoutDecides(st, commits[0], recs);
    } else {
      HistoryIndependent(st, commits[1..], CheckedOutFile(st, commits[0], recs, false));
    }
  }

  /** There and back again: whatever branches were visited, returning to a commit
      gives the file the decided part it had there. */
  lemma SwitchBack(st: Setting, c: Commit, visited: seq<Commit>, recs: RecordFile)
    ensures var here := CheckedOutFile(st, c, recs, false);
      DecidedPart(st, CheckedOutFile(st, c, After(st, visited, here), false)) == DecidedPart(st, here)
  {
    CheckoutDecides(st, c, recs);
    CheckoutDecides(st, c, After(st, visited, CheckedOutFile(st, c, recs, false)));
  }

  /** No checkout deletes a stock record, nor changes one no commit carries. */
  lemma StockSafe(st: Setting, c: Commit, recs: RecordFile, id: string)
    requires id in st.stock && id in recs
    ensures var r := CheckedOutFile(st, c, recs, false);
      id in r && (id !in Targets(st, c.items) ==> r[id] == recs[id])
  {
    WritesDecide(st, c, c.items, recs, map[], id);
  }

  lemma {:induction false} StockSafeOverHistory(st: Setting, commits: seq<Commit>, recs: RecordFile, id: string)
    requires id in st.stock && id in recs
    ensures id in After(st, commits, recs)
    ensures (forall i :: 0 <= i < |commits| ==> id !in Targets(st, commits[i].items)) ==>
      After(st, commits, recs)[id] == recs[id]
    decreases |commits|
  {
    if commits == [] {
    } else {
      StockSafe(st, commits[0], recs, id);
      StockSafeOverHistory(st, commits[1..], CheckedOutFile(st, commits[0], recs, false), id);
      if forall i :: 0 <= i < |commits| ==> id !in Targets(st, commits[i].items) {
        forall i | 0 <= i < |commits[1..]| ensures id !in Targets(st, commits[1..][i].items) {
          assert commits[1..][i] == commits[i + 1];
        }
      }
    }
  }

  /** A fresh clone deletes nothing, and changes only what it writes. */
  lemma CloneDeletesNothing(st: Setting, c: Commit, recs: RecordFile, id: string)
    requires id in recs
    ensures var r := CheckedOutFile(st, c, recs, true);
      id in r && (id !in Targets(st, c.items) ==> r[id] == recs[id])
  {
    WritesDecide(st, c, c.items, recs, map[], id);
  }

  /** With no two entries under one local name, each entry's image is what is there. */
  lemma {:induction false} EntryWritten(st: Setting, c: Commit, items: seq<Entry>, recs: RecordFile, i: nat)
    requires i < |items| && !IsControl(st, items[i].name)
    requires forall j :: i < j < |items| && !IsControl(st, items[j].name) ==>
      LocalName(st, items[j].name) != LocalName(st, items[i].name)
    ensures var id, w := LocalName(st, items[i].name), Written(st, c, items, recs);
      id in w && w[id] == Image(st, c, items[i].text)
    decreases |items|
  {
    var e := items[0];
    var t := LocalName(st, e.name);
    var r1 := if IsControl(st, e.name) then recs else recs[t := Image(st, c, e.text)];
    if i > 0 {
      assert items[1..][i - 1] == items[i];
      forall j | i - 1 < j < |items[1..]| && !IsControl(st, items[1..][j].name)
        ensures LocalName(st, items[1..][j].name) != LocalName(st, items[i].name)
      {
        assert items[1..][j] == items[j + 1];
      }
      EntryWritten(st, c, items[1..], r1, i - 1);
    } else {
      NotTarget(st, items[1..], t);
      WritesDecide(st, c, items[1..], r1, map[], t);
    }
  }

  lemma {:induction false} NotTarget(st: Setting, items: seq<Entry>, t: string)
    requires forall j :: 0 <= j < |items| && !IsControl(st, items[j].name) ==> LocalName(st, items[j].name) != t
    ensures t !in Targets(st, items)
  {
    if items == [] {
    } else {
      assert forall j :: 0 <= j < |items[1..]| ==> items[1..][j] == items[j + 1];
      NotTarget(st, items[1..], t);
    }
  }

  /** The count of writes is the number of entries that are not the control. */
  lemma {:induction false} WritesCounted(st: Setting, items: seq<Entry>)
    ensures Writes(st, items) == |set i | 0 <= i < |items| && !IsControl(st, items[i].name)|
  {
    var all := set i | 0 <= i < |items| && !IsControl(st, items[i].name);
    if items == [] {
      assert all == {};
    } else {
      var n := |items| - 1;
      var front, last := items[..n], items[n];
      var before := set i | 0 <= i < |front| && !IsControl(st, front[i].name);
      WritesCounted(st, front);
      WritesSnoc(st, front, last);
      assert items == front + [last];
      assert all == if IsControl(st, last.name) then before else before + {n};
    }
  }

  lemma {:induction false} WritesSnoc(st: Setting, items: seq<Entry>, e: Entry)
    ensures Writes(st, items + [e]) == Writes(st, items) + if IsControl(st, e.name) then 0 else 1
  {
    if items == [] {
      assert [e][1..] == [];
    } else {
      assert (items + [e])[1..] == items[1..] + [e];
      WritesSnoc(st, items[1..], e);
    }
  }
}

// A dictionary record between its native layout and the canonical open form:
// attribute access, the SM/association swap, the derived single/multi flag.
module Records {
  import opened Text

  // ---- reading and writing one attribute ---------------------------------

  function AttrIn(a: seq<string>, n: int): string
  {
    if 1 <= n <= |a| then a[n - 1] else ""
  }

  /** Attribute `n` (from 1) of a record, "" when the record is shorter. */
  function Attr(rec: string, sep: char, n: int): string { AttrIn(Split(rec, sep), n) }

  method AttrOf(rec: string, sep: char, n: int, cap: nat) returns (out: string)
    requires cap > 0
    ensures out == Cut(Attr(rec, sep, n), cap)
  {
    hide Split;
    out := "";
    var s, i := 0, 1;
    assert rec[0..] == rec;
    while s <= |rec|
      invariant 0 <= s <= |rec| && i >= 1 && (1 <= n ==> i <= n)
      invariant Attr(rec, sep, n) == AttrIn(Split(rec[s..], sep), n - i + 1)
      invariant out == ""
      decreases |rec| - s
    {
      SplitFrom(rec, sep, s);
      var m := s + IndexOf(rec[s..], sep);
      if i == n {
        return Cut(rec[s..m], cap);
      }
      if m == |rec| {
        return;
      }
      s := m + 1;
      i := i + 1;
    }
  }

  function Take<T>(a: seq<T>, n: nat): seq<T> { if |a| > n then a[..n] else a }

  /** The attribute list with entry `n` (from 1) replaced, padded to reach it. */
  function SetIn(a: seq<string>, n: int, val: string): (r: seq<string>)
    ensures |r| == Max(|a|, n)
    ensures forall i :: 0 <= i < |r| && i != n - 1 ==> r[i] == AttrIn(a, i + 1)
    ensures 1 <= n ==> r[n - 1] == val
  {
    seq(Max(|a|, n), i requires 0 <= i => if i == n - 1 then val else AttrIn(a, i + 1))
  }

  /** What rec_set_attr keeps in its 40 slots, with attribute `n` set. */
  function SetAttr(rec: string, sep: char, n: int, val: string): Option<string>
  {
    var a := Take(Split(rec, sep), 40);
    if Max(|a|, n) > 40 then None else Some(Join(SetIn(a, n, val), sep))
  }

  /** The first `limit` pieces of a record, by repeated memchr. */
  method Pieces(rec: string, sep: char, limit: nat) returns (att: seq<string>)
    requires limit > 0
    ensures att == Take(Split(rec, sep), limit)
  {
    hide Split;
    att := [];
    var s := 0;
    assert rec[0..] == rec;
    while |att| < limit
      invariant 0 <= s <= |rec| && |att| <= limit
      invariant Split(rec, sep) == att + Split(rec[s..], sep)
      decreases limit - |att|
    {
      SplitFrom(rec, sep, s);
      var m := s + IndexOf(rec[s..], sep);
      ghost var before := att;
      att := att + [rec[s..m]];
      if m == |rec| {
        assert Split(rec, sep) == att;
        return;
      }
      assert before + ([rec[s..m]] + Split(rec[m + 1..], sep)) == att + Split(rec[m + 1..], sep);
      s := m + 1;
    }
  }

  lemma JoinSnoc(a: seq<string>, x: string, sep: char)
    ensures Join(a + [x], sep) == if a == [] then x else Join(a, sep) + [sep] + x
  {
    if a != [] {
      JoinConcat(a, [x], sep);
    } else {
      assert a + [x] == [x];
    }
  }

  lemma JoinNone(a: seq<string>, sep: char)
    ensures Join(a[..0], sep) == ""
  {}

  method RecSetAttr(rec: string, sep: char, n: int, val: string) returns (r: Option<string>)
    ensures r == SetAttr(rec, sep, n, val)
  {
    hide Join, Split;
    var att := Pieces(rec, sep, 40);
    var slots := Max(|att|, n);
    if slots > 40 {
      return None;
    }
    var sb := "";
    var i := 0;
    ghost var want := SetIn(att, n, val);
    JoinNone(want, sep);
    while i < slots
      invariant 0 <= i <= slots
      invariant sb == Join(want[..i], sep)
    {
      JoinSnoc(want[..i], want[i], sep);
      assert want[..i + 1] == want[..i] + [want[i]];
      if i > 0 {
        sb := sb + [sep];
      }
      if i == n - 1 {
        sb := sb + val;
      } else if i < |att| {
        sb := sb + att[i];
      }
      i := i + 1;
    }
    assert want[..slots] == want;
    return Some(sb);
  }

  /** Attribute 2 replaced; None when the record has only one attribute. */
  function SetAttr2(rec: string, sep: char, spec: string): Option<string>
  {
    var a := Split(rec, sep);
    if |a| < 2 then None else Some(Join(a[1 := spec], sep))
  }

  lemma SetAttr2Last(p: string, q: string, sep: char, spec: string)
    requires sep !in p && sep !in q
    ensures SetAttr2(p + [sep] + q, sep, spec) == Some(p + [sep] + spec)
  {
    SplitHead(p, q, sep);
    SplitPiece(q, sep);
    var a := Split(p + [sep] + q, sep);
    assert a == [p, q] && a[1 := spec] == [p, spec];
    JoinConcat([p], [spec], sep);
    assert [p] + [spec] == [p, spec];
  }

  lemma SetAttr2Inner(p: string, q: string, t: string, sep: char, spec: string)
    requires sep !in p && sep !in q
    ensures SetAttr2(p + [sep] + (q + [sep] + t), sep, spec) == Some(p + [sep] + spec + [sep] + t)
  {
    SplitHead(p, q + [sep] + t, sep);
    SplitHead(q, t, sep);
    var a := Split(p + [sep] + (q + [sep] + t), sep);
    var tail := Split(t, sep);
    assert a[1 := spec] == [p, spec] + tail;
    JoinSplit(t, sep);
    JoinConcat([p, spec], tail, sep);
    assert [p, spec][1..] == [spec];
  }

  method RecSetAttr2(rec: string, sep: char, spec: string) returns (r: Option<string>)
    ensures r == SetAttr2(rec, sep, spec)
  {
    hide Join, Split, IndexOf;
    var a1e := IndexOf(rec, sep);
    if a1e == |rec| {
      assert rec[..a1e] == rec;
      SplitPiece(rec, sep);
      return None;
    }
    var rest := rec[a1e + 1..];
    var a2e := IndexOf(rest, sep);
    assert rec == rec[..a1e] + [sep] + rest;
    assert rec[..a1e + 1] == rec[..a1e] + [sep];
    if a2e < |rest| {
      assert rest == rest[..a2e] + [sep] + rest[a2e + 1..];
      assert rest[a2e..] == [sep] + rest[a2e + 1..];
      SetAttr2Inner(rec[..a1e], rest[..a2e], rest[a2e + 1..], sep, spec);
      r := Some(rec[..a1e + 1] + spec + rest[a2e..]);
      assert r.value == rec[..a1e] + [sep] + spec + [sep] + rest[a2e + 1..];
    } else {
      assert rest[..a2e] == rest && rest[a2e..] == "";
      SetAttr2Last(rec[..a1e], rest, sep, spec);
      r := Some(rec[..a1e + 1] + spec + rest[a2e..]);
      assert r.value == rec[..a1e] + [sep] + spec;
    }
  }

  // ---- trailing empty attributes -----------------------------------------

  function TrimMarks(s: string): (r: string)
    ensures |r| <= |s| && r == s[..|r|]
    ensures r == "" || r[|r| - 1] != AM
  {
    if s != "" && s[|s| - 1] == AM then TrimMarks(s[..|s| - 1]) else s
  }

  function TrimEmpty(a: seq<string>): (r: seq<string>)
    ensures |r| <= |a| && r == a[..|r|] && (a != [] ==> r != [])
    ensures |r| > 1 ==> r[|r| - 1] != ""
    ensures forall n :: AttrIn(r, n) == AttrIn(a, n)
  {
    if |a| > 1 && a[|a| - 1] == "" then TrimEmpty(a[..|a| - 1]) else a
  }

  lemma {:induction false} TrimMarksJoin(a: seq<string>)
    requires a != [] && Free(a, AM)
    ensures TrimMarks(Join(a, AM)) == Join(TrimEmpty(a), AM)
  {
    var last := a[|a| - 1];
    if |a| == 1 {
      TrimMarksFree(a[0]);
    } else {
      hide Join;
      var init := a[..|a| - 1];
      assert a == init + [last];
      JoinSnoc(init, last, AM);
      if last == "" {
        TrimMarksJoin(init);
        TrimMarksOne(Join(init, AM));
      } else {
        var s := Join(a, AM);
        assert s[|s| - 1] == last[|last| - 1];
      }
    }
  }

  lemma TrimMarksFree(s: string)
    requires AM !in s
    ensures TrimMarks(s) == s
  {}

  lemma TrimMarksOne(s: string)
    ensures TrimMarks(s + [AM] + "") == TrimMarks(s)
  {
    var t := s + [AM] + "";
    assert t[|t| - 1] == AM && t[..|t| - 1] == s;
  }

  // ---- the swap and the projection, on attribute lists -------------------

  predicate IsDictItem(a: seq<string>) { a != [] && (a[0] == "D" || a[0] == "I") }

  /** Attributes 6 and 7 exchanged, in at least seven slots. */
  function Swapped(a: seq<string>): (r: seq<string>)
    ensures |r| == Max(7, |a|)
    ensures forall i :: 0 <= i < |r| ==>
      r[i] == AttrIn(a, if i == 5 then 7 else if i == 6 then 6 else i + 1)
  {
    seq(Max(7, |a|), i requires 0 <= i => AttrIn(a, if i == 5 then 7 else if i == 6 then 6 else i + 1))
  }

  /** dict_item_swap on a live record: D/I items only, and only 32 attributes. */
  function Swap(rec: string): Option<string>
  {
    var a := Take(Split(rec, AM), 32);
    if !IsDictItem(a) then None else Some(TrimMarks(Join(Swapped(a), AM)))
  }

  method DictItemSwap(rec: string) returns (r: Option<string>)
    ensures r == Swap(rec)
  {
    hide Join, Split;
    var att := Pieces(rec, AM, 32);
    if |att| == 0 || |att[0]| != 1 || (att[0][0] != 'D' && att[0][0] != 'I') {
      return None;
    }
    assert att[0] == [att[0][0]];
    var slots := Max(7, |att|);
    var sb := "";
    var i := 0;
    ghost var want := Swapped(att);
    JoinNone(want, AM);
    while i < slots
      invariant 0 <= i <= slots
      invariant sb == Join(want[..i], AM)
    {
      JoinSnoc(want[..i], want[i], AM);
      assert want[..i + 1] == want[..i] + [want[i]];
      var src := if i == 5 then 6 else if i == 6 then 5 else i;
      if i > 0 {
        sb := sb + [AM];
      }
      if src < |att| {
        sb := sb + att[src];
      }
      i := i + 1;
    }
    assert want[..slots] == want;
    sb := DropMarks(sb);
    return Some(sb);
  }

  method DropMarks(s: string) returns (r: string)
    ensures r == TrimMarks(s)
  {
    var l := |s|;
    assert s[..l] == s;
    while l > 0 && s[l - 1] == AM
      invariant 0 <= l <= |s|
      invariant TrimMarks(s) == TrimMarks(s[..l])
    {
      assert s[..l][..l - 1] == s[..l - 1];
      l := l - 1;
    }
    r := s[..l];
  }

  /** The flag at `smAt` becomes "M" when it is empty and `assocAt` is not. */
  function Derive(rec: string, smAt: int, assocAt: int): string
  {
    if Attr(rec, AM, assocAt) != "" && Attr(rec, AM, smAt) == "" then
      match SetAttr(rec, AM, smAt, "M") { case Some(r) => r case None => rec }
    else rec
  }

  /** open_dict_project: a live record in canonical attribute order.  `smAt6` says
      the platform keeps the single/multi flag at attribute 6 (UniData, jBASE). */
  function Project(smAt6: bool, rec: string): string
  {
    var swapped := if smAt6 then (match Swap(rec) { case Some(s) => s case None => rec }) else rec;
    TrimMarks(Derive(swapped, 7, 6))
  }

  method OpenDictProject(smAt6: bool, rec: string) returns (r: string)
    ensures r == Project(smAt6, rec)
  {
    var p := rec;
    if smAt6 {
      var sw := DictItemSwap(p);
      if sw.Some? {
        p := sw.value;
      }
    }
    var asc := AttrOf(p, AM, 6, 128);
    var sm := AttrOf(p, AM, 7, 8);
    if asc != "" && sm == "" {
      var withm := RecSetAttr(p, AM, 7, "M");
      if withm.Some? {
        p := withm.value;
      }
    }
    r := DropMarks(p);
  }

  /** What a checkout does to a dictionary record before the I-type expression:
      every open-dictionary build swaps here, then derives the flag at attribute 6. */
  function Nativise(rec: string): string
  {
    Derive(match Swap(rec) { case Some(s) => s case None => rec }, 6, 7)
  }

  predicate IsIType(rec: string)
  {
    var ty := Attr(rec, AM, 1);
    ty != "" && (ty[0] == 'I' || ty[0] == 'i')
  }

  // ---- the same functions seen on attribute lists ------------------------

  function DeriveIn(a: seq<string>, smAt: int, assocAt: int): seq<string>
  {
    if AttrIn(a, assocAt) != "" && AttrIn(a, smAt) == "" then SetIn(a, smAt, "M") else a
  }

  lemma SwapJoin(a: seq<string>)
    requires IsDictItem(a) && Free(a, AM)
    ensures Swap(Join(a, AM)) == Some(Join(TrimEmpty(Swapped(Take(a, 32))), AM))
    ensures Free(TrimEmpty(Swapped(Take(a, 32))), AM)
  {
    SplitJoin(a, AM);
    TrimMarksJoin(Swapped(Take(a, 32)));
  }

  lemma SetInFree(a: seq<string>, n: int)
    requires Free(a, AM) && 1 <= n
    ensures Free(SetIn(a, n, "M"), AM)
  {
    var d := SetIn(a, n, "M");
    forall i | 0 <= i < |d| ensures AM !in d[i] {
      if i != n - 1 && i < |a| {
        assert d[i] == a[i];
      } else if i != n - 1 {
        assert d[i] == "";
      }
    }
  }

  lemma DeriveJoin(a: seq<string>, smAt: int, assocAt: int)
    requires a != [] && Free(a, AM) && |a| <= 40 && 1 <= smAt <= 40
    ensures Derive(Join(a, AM), smAt, assocAt) == Join(DeriveIn(a, smAt, assocAt), AM)
    ensures Free(DeriveIn(a, smAt, assocAt), AM) && DeriveIn(a, smAt, assocAt) != []
  {
    SetInFree(a, smAt);
    var r := Join(a, AM);
    assert Split(r, AM) == a by { SplitJoin(a, AM); }
    assert Take(a, 40) == a;
    assert SetAttr(r, AM, smAt, "M") == Some(Join(SetIn(a, smAt, "M"), AM));
  }

  /** Attributes after a checkout, before the expression. */
  function Native(a: seq<string>): seq<string> { DeriveIn(TrimEmpty(Swapped(Take(a, 32))), 6, 7) }

  /** Attributes after a projection. */
  function Projected(smAt6: bool, a: seq<string>): seq<string>
  {
    TrimEmpty(DeriveIn(if smAt6 then TrimEmpty(Swapped(Take(a, 32))) else a, 7, 6))
  }

  lemma NativiseJoin(a: seq<string>)
    requires IsDictItem(a) && Free(a, AM)
    ensures Nativise(Join(a, AM)) == Join(Native(a), AM) && Free(Native(a), AM)
  {
    SwapJoin(a);
    DeriveJoin(TrimEmpty(Swapped(Take(a, 32))), 6, 7);
  }

  /** open_dict_project on attributes; without the swap the record must fit the 40
      slots of rec_set_attr. */
  lemma {:induction false} ProjectJoin(smAt6: bool, a: seq<string>)
    requires IsDictItem(a) && Free(a, AM) && (smAt6 || |a| <= 40)
    ensures Project(smAt6, Join(a, AM)) == Join(Projected(smAt6, a), AM) && Free(Projected(smAt6, a), AM)
  {
    hide Swapped, DeriveIn, Derive, TrimEmpty, TrimMarks, Swap;
    var b := if smAt6 then TrimEmpty(Swapped(Take(a, 32))) else a;
    if smAt6 {
      SwapJoin(a);
    } else {
      NoSwapJoin(a);
    }
    DeriveJoin(b, 7, 6);
    TrimMarksJoin(DeriveIn(b, 7, 6));
    TrimFree(DeriveIn(b, 7, 6));
  }

  lemma NoSwapJoin(a: seq<string>)
    requires a != []
    ensures |TrimEmpty(Swapped(Take(a, 32)))| <= 32
  {}

  lemma TrimFree(a: seq<string>)
    requires a != [] && Free(a, AM)
    ensures Free(TrimEmpty(a), AM)
  {}

  /** Setting attribute n: refused past the fortieth; otherwise it reads as set, the others
      up to the fortieth as they did, and what was past that is lost. */
  lemma SetAttrReads(a: seq<string>, sep: char, n: int, val: string)
    requires a != [] && Free(a, sep) && sep !in val && n >= 1
    ensures SetAttr(Join(a, sep), sep, n, val).Some? <==> n <= 40
    ensures n <= 40 ==> forall m: int ::
      Attr(SetAttr(Join(a, sep), sep, n, val).value, sep, m) ==
        if m == n then val else if m <= 40 then AttrIn(a, m) else ""
  {
    hide Join, Split, SetIn, Take;
    SplitJoin(a, sep);
    TakeReads(a, 40);
    var b := Take(a, 40);
    if n <= 40 {
      SetInReads(b, n, val, sep);
      SplitJoin(SetIn(b, n, val), sep);
    }
  }

  lemma TakeReads(a: seq<string>, n: nat)
    requires n > 0 && a != []
    ensures 0 < |Take(a, n)| <= n && forall m: int :: AttrIn(Take(a, n), m) == if m <= n then AttrIn(a, m) else ""
    ensures forall i :: 0 <= i < |Take(a, n)| ==> Take(a, n)[i] in a
  {}

  lemma SetInReads(b: seq<string>, n: int, val: string, sep: char)
    requires n >= 1
    ensures SetIn(b, n, val) != [] && forall m: int :: AttrIn(SetIn(b, n, val), m) == if m == n then val else AttrIn(b, m)
    ensures Free(b, sep) && sep !in val ==> Free(SetIn(b, n, val), sep)
  {}
}

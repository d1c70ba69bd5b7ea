// A committed dictionary item checked out into a live record and added again:
// when the staged blob is the committed one, byte for byte.
module Crossing {
  import opened Text
  import opened Records
  import opened Trans

  // ---- the two ends ------------------------------------------------------

  /** Attribute 2 of an I item as the 512-byte buffers hold it. */
  function SpecOf(rec: string, sep: char): string { Cut(Attr(rec, sep, 2), 512) }

  /** A record with a new expression, when it has an attribute 2 to replace. */
  function WithSpec(rec: string, spec: Option<string>): string
  {
    match spec
    case None => rec
    case Some(s) => (match SetAttr2(rec, AM, s) { case Some(r) => r case None => rec })
  }

  /** A directory-backed file's blob ends in a terminator mark; drop one. */
  function DropTerminator(rec: string, isDir: bool): string
  {
    if isDir && rec != "" && rec[|rec| - 1] == AM then rec[..|rec| - 1] else rec
  }

  /** What materialize_file writes for one item of `<base>.DICT` in an open account. */
  function ToNative(ds: Dicts, base: string, isDir: bool, blob: string): string
  {
    var rec := Nativise(DropTerminator(Translate(blob, NL, AM), isDir));
    WithSpec(rec, if IsIType(rec) then ToUdt(ds, base, SpecOf(rec, AM)) else None)
  }

  /** open_dict_ispec: git's copy when it still translates to what the account holds,
      otherwise the live expression translated back. */
  function CanonSpec(ds: Dicts, base: string, rec: string, committed: Option<string>): Option<string>
  {
    if !IsIType(rec) then None
    else
      var spec := SpecOf(rec, AM);
      if committed.Some? && ToUdt(ds, base, SpecOf(committed.value, NL)) == Some(spec)
      then Some(SpecOf(committed.value, NL))
      else ToOpen(ds, base, spec)
  }

  /** What `add` stages for one record of `<base>.DICT`, and what `status` hashes. */
  function Staged(smAt6: bool, ds: Dicts, base: string, rec: string, committed: Option<string>): string
  {
    var p := Project(smAt6, rec);
    Translate(WithSpec(p, CanonSpec(ds, base, p, committed)), AM, NL)
  }

  // ---- no separator gets into a translated expression --------------------

  /** A character the printer never writes. */
  predicate Foreign(ch: char) { ch == AM || ch == NL }

  predicate CleanDicts(ds: Dicts, ch: char)
  {
    forall f :: f in ds ==> forall i :: 0 <= i < |ds[f]| ==> ch !in ds[f][i].name && ch !in ds[f][i].text
  }

  lemma {:induction false} ArgsFrom(s: string, acc: string, d: int, q: char, ch: char)
    requires ch !in s && ch !in acc
    ensures forall i :: 0 <= i < |Args(s, acc, d, q)| ==> ch !in Args(s, acc, d, q)[i]
  {
    if s == "" {
    } else {
      var c := s[0];
      if q != NOQUOTE {
        ArgsFrom(s[1..], acc + [c], d, if c == q then NOQUOTE else q, ch);
      } else if QuoteChar(c) {
        ArgsFrom(s[1..], acc + [c], d, c, ch);
      } else if c == '(' {
        ArgsFrom(s[1..], acc + [c], d + 1, q, ch);
      } else if c == ')' {
        ArgsFrom(s[1..], acc + [c], d - 1, q, ch);
      } else if c == ',' && d == 0 {
        ArgsFrom(s[1..], "", d, q, ch);
      } else {
        ArgsFrom(s[1..], acc + [c], d, q, ch);
      }
    }
  }

  lemma ArgFrom(spec: string, i: nat, ch: char)
    requires ch !in spec
    ensures ch !in Arg(spec, i) && ch !in Unquote(Arg(spec, i))
    ensures Foreign(ch) ==> ch !in Control(Arg(spec, i))
  {
    hide Args, IsTrans, Strip, Unquote, Control;
    var t := Strip(spec, BLANKS);
    StripFrom(spec, BLANKS, ch);
    if IsTrans(t) {
      ShortTrans(t);
      var raw := Args(t[6..|t| - 1], "", 0, NOQUOTE);
      ArgsFrom(t[6..|t| - 1], "", 0, NOQUOTE, ch);
      if i < |raw| {
        StripFrom(raw[i], SPACES, ch);
      }
    }
    UnquoteFrom(Arg(spec, i), ch);
    ControlFrom(Arg(spec, i), ch);
  }

  lemma StripFrom(s: string, blanks: set<char>, ch: char)
    requires ch !in s
    ensures ch !in Strip(s, blanks)
  {}

  lemma ShortTrans(t: string)
    requires IsTrans(t)
    ensures |t| >= 7
  {}

  lemma UnquoteFrom(s: string, ch: char)
    requires ch !in s
    ensures ch !in Unquote(s)
  {}

  lemma ControlFrom(s: string, ch: char)
    requires ch !in s
    ensures Foreign(ch) ==> ch !in Control(s)
  {
    hide Unquote;
    UnquoteFrom(Cut(s, 16), ch);
  }

  lemma {:induction false} NamedFrom(es: seq<Entry>, attr: int, best: string, ch: char)
    requires ch !in best && forall i :: 0 <= i < |es| ==> ch !in es[i].name
    ensures ch !in Named(es, attr, best)
  {
    if es == [] {
    } else {
      assert forall i :: 0 <= i < |es[1..]| ==> es[1..][i] == es[i + 1];
      var e := es[0];
      NamedFrom(es[1..], attr,
                if Describes(e, attr) && (best == "" || Before(e.name, best)) then e.name else best, ch);
    }
  }

  lemma KeyNameFrom(ds: Dicts, file: string, key: string, ch: char)
    requires CleanDicts(ds, ch) && ch !in key
    ensures KeyName(ds, file, key).Some? ==> ch !in KeyName(ds, file, key).value
  {
    if IsNum(key) && Atoi(key) > 0 {
      NamedFrom(Items(ds, file), Atoi(key), "", ch);
    }
  }

  lemma {:induction false} LookupFrom(es: seq<Entry>, name: string, ch: char)
    requires forall i :: 0 <= i < |es| ==> ch !in es[i].text
    ensures Lookup(es, name).Some? ==> ch !in Lookup(es, name).value
  {
    if es == [] {
    } else {
      assert forall i :: 0 <= i < |es[1..]| ==> es[1..][i] == es[i + 1];
      LookupFrom(es[1..], name, ch);
    }
  }

  lemma {:induction false} SplitFromText(s: string, sep: char, ch: char)
    requires ch !in s
    ensures Free(Split(s, sep), ch)
  {
    if s == "" {
    } else {
      SplitFromText(s[1..], sep, ch);
    }
  }

  lemma ChainFrom(ds: Dicts, file: string, item: string, ch: char)
    requires CleanDicts(ds, ch)
    ensures ChainSpec(ds, file, item).Some? ==> ch !in ChainSpec(ds, file, item).value
  {
    LookupFrom(Items(ds, file), item, ch);
    match DsRead(ds, file, item)
    case None =>
    case Some(text) => SplitFromText(text, NL, ch);
  }

  lemma CallFrom(a: string, b: string, c: string, d: string, ch: char)
    requires Foreign(ch) && ch !in a && ch !in b && ch !in c && ch !in d
    ensures ch !in Call(a, b, c, d) && ch !in Quoted(a)
  {}

  lemma {:induction false} ExpandFrom(ds: Dicts, file: string, key: string, target: string, ctl: string, depth: nat, ch: char)
    requires Foreign(ch) && CleanDicts(ds, ch)
    requires ch !in file && ch !in key && ch !in target && ch !in ctl
    ensures ch !in Expand(ds, file, key, target, ctl, depth)
    decreases 8 - depth
  {
    hide TransArgs, ChainSpec, KeyName, Call, Arg;
    var tgt := Unquote(target);
    var link := if depth < 8 && !IsNum(tgt) then ChainSpec(ds, file, tgt) else None;
    CallFrom(file, key, tgt, ctl, ch);
    CallFrom(tgt, key, tgt, ctl, ch);
    CallFrom(ctl, key, tgt, ctl, ch);
    ChainFrom(ds, file, tgt, ch);
    if link.Some? && KeyName(ds, file, Unquote(Arg(link.value, 1))).Some? {
      var spec := link.value;
      ArgFrom(spec, 0, ch);
      ArgFrom(spec, 1, ch);
      ArgFrom(spec, 2, ch);
      ArgFrom(spec, 3, ch);
      KeyNameFrom(ds, file, Unquote(Arg(spec, 1)), ch);
      var k2 := KeyName(ds, file, Unquote(Arg(spec, 1))).value;
      CallFrom(k2, key, tgt, ctl, ch);
      CallFrom(Quoted(file), key, Quoted(k2), Quoted(ctl), ch);
      ExpandFrom(ds, Unquote(Arg(spec, 0)), Cut(Call(Quoted(file), key, Quoted(k2), Quoted(ctl)), 1024),
                 Arg(spec, 2), Control(Arg(spec, 3)), depth + 1, ch);
    } else {
      CallFrom(Quoted(file), key, if IsNum(tgt) then tgt else Quoted(tgt), Quoted(ctl), ch);
    }
  }

  lemma ToUdtFrom(ds: Dicts, self: string, spec: string, ch: char)
    requires Foreign(ch) && CleanDicts(ds, ch) && ch !in spec
    ensures ToUdt(ds, self, spec).Some? ==> ch !in ToUdt(ds, self, spec).value
  {
    hide TransArgs, KeyName, Arg, Expand;
    ArgFrom(spec, 0, ch);
    ArgFrom(spec, 1, ch);
    ArgFrom(spec, 2, ch);
    ArgFrom(spec, 3, ch);
    KeyNameFrom(ds, self, Unquote(Arg(spec, 1)), ch);
    match KeyName(ds, self, Unquote(Arg(spec, 1)))
    case None =>
    case Some(key) => ExpandFrom(ds, Unquote(Arg(spec, 0)), key, Arg(spec, 2), Control(Arg(spec, 3)), 0, ch);
  }

  lemma ToOpenFrom(ds: Dicts, self: string, spec: string, ch: char)
    requires Foreign(ch) && ch !in spec
    ensures ToOpen(ds, self, spec).Some? ==> ch !in ToOpen(ds, self, spec).value && ToOpen(ds, self, spec).value != ""
  {
    hide TransArgs, Arg;
    ArgFrom(spec, 0, ch);
    ArgFrom(spec, 2, ch);
    ArgFrom(spec, 3, ch);
    match KeyNumber(ds, self, Unquote(Arg(spec, 1)))
    case None =>
    case Some(num) =>
      assert forall i :: 0 <= i < |num| ==> Digit(num[i]);
      assert ch !in num;
      CallFrom(Unquote(Arg(spec, 0)), num, Unquote(Arg(spec, 2)), Control(Arg(spec, 3)), ch);
  }

  // ---- attribute lists ---------------------------------------------------

  /** No trailing empty attribute. */
  predicate Trimmed(a: seq<string>) { |a| == 1 || (|a| > 1 && a[|a| - 1] != "") }

  /** A trimmed list is determined by what each attribute reads as. */
  lemma SameAttrs(a: seq<string>, b: seq<string>)
    requires Trimmed(a) && Trimmed(b) && forall n: int :: AttrIn(a, n) == AttrIn(b, n)
    ensures a == b
  {
    assert AttrIn(a, |b|) == AttrIn(b, |b|) && AttrIn(b, |a|) == AttrIn(a, |a|);
    forall i | 0 <= i < |a| && i < |b| ensures a[i] == b[i] {
      assert AttrIn(a, i + 1) == AttrIn(b, i + 1);
    }
  }

  function SwapAt(a: seq<string>, n: int): string
  {
    if n > 32 then "" else AttrIn(a, if n == 6 then 7 else if n == 7 then 6 else n)
  }

  /** The attribute `n` of a list whose flag at `smAt` is derived from `assocAt`. */
  function DeriveAt(six: string, seven: string, other: string, n: int, smAt: int): string
  {
    var sm, asc := if smAt == 6 then six else seven, if smAt == 6 then seven else six;
    if n == smAt then (if asc != "" && sm == "" then "M" else sm)
    else if n == 6 then six else if n == 7 then seven else other
  }

  function NativeAt(a: seq<string>, n: int): string
  {
    DeriveAt(SwapAt(a, 6), SwapAt(a, 7), SwapAt(a, n), n, 6)
  }

  function ProjectedAt(smAt6: bool, a: seq<string>, n: int): string
  {
    if smAt6 then DeriveAt(SwapAt(a, 6), SwapAt(a, 7), SwapAt(a, n), n, 7)
    else DeriveAt(AttrIn(a, 6), AttrIn(a, 7), AttrIn(a, n), n, 7)
  }

  lemma SwapAttrs(a: seq<string>)
    requires IsDictItem(a)
    ensures var r := TrimEmpty(Swapped(Take(a, 32)));
      && 1 <= |r| <= 32 && r[0] == a[0]
      && forall n: int :: AttrIn(r, n) == SwapAt(a, n)
  {
    var sw := Swapped(Take(a, 32));
    var r := TrimEmpty(sw);
    forall n: int ensures AttrIn(r, n) == SwapAt(a, n) {
      assert AttrIn(r, n) == AttrIn(sw, n);
    }
    assert AttrIn(r, 1) == SwapAt(a, 1);
  }

  lemma DeriveAttrs(a: seq<string>, smAt: int)
    requires smAt == 6 || smAt == 7
    ensures var r := DeriveIn(a, smAt, 13 - smAt);
      && |a| <= |r| <= Max(|a|, 7)
      && forall n: int :: AttrIn(r, n) == DeriveAt(AttrIn(a, 6), AttrIn(a, 7), AttrIn(a, n), n, smAt)
  {}

  lemma NativeAttrs(a: seq<string>)
    requires IsDictItem(a)
    ensures 1 <= |Native(a)| <= 32 && Native(a)[0] == a[0]
    ensures forall n: int :: AttrIn(Native(a), n) == NativeAt(a, n)
  {
    hide Swapped, TrimEmpty, Take;
    SwapAttrs(a);
    DeriveAttrs(TrimEmpty(Swapped(Take(a, 32))), 6);
    assert AttrIn(Native(a), 1) == NativeAt(a, 1) == a[0];
  }

  lemma ProjectedAttrs(smAt6: bool, a: seq<string>)
    requires IsDictItem(a) && |a| <= 32
    ensures Trimmed(Projected(smAt6, a)) && Projected(smAt6, a)[0] == a[0]
    ensures forall n: int :: AttrIn(Projected(smAt6, a), n) == ProjectedAt(smAt6, a, n)
  {
    hide Swapped, Take;
    SwapAttrs(a);
    var b := if smAt6 then TrimEmpty(Swapped(Take(a, 32))) else a;
    DeriveAttrs(b, 7);
    var d := DeriveIn(b, 7, 6);
    forall n: int ensures AttrIn(Projected(smAt6, a), n) == ProjectedAt(smAt6, a, n) {
      assert AttrIn(Projected(smAt6, a), n) == AttrIn(d, n);
    }
    assert AttrIn(Projected(smAt6, a), 1) == ProjectedAt(smAt6, a, 1);
  }

  /** Attribute 2 in the staged list when the live one reads `live`. */
  function StagedSpec(ds: Dicts, base: string, isI: bool, was: string, live: string): string
  {
    if !isI then live
    else if ToUdt(ds, base, Cut(was, 512)) == Some(Cut(live, 512)) then Cut(was, 512)
    else ReadBack(ds, base, live)
  }

  function LiveSpec(ds: Dicts, base: string, isI: bool, was: string): string
  {
    if !isI then was else match ToUdt(ds, base, Cut(was, 512)) { case Some(u) => u case None => was }
  }

  /** What add makes of a live expression it has no copy of: the 511 bytes it reads,
      translated back, or the whole of it left as it is. */
  function ReadBack(ds: Dicts, base: string, live: string): string
  {
    match ToOpen(ds, base, Cut(live, 512)) { case Some(c) => c case None => live }
  }

  /** The blob, read as a live record. */
  lemma BlobRecord(a: seq<string>, isDir: bool)
    requires IsDictItem(a) && Free(a, NL) && Free(a, AM)
    ensures var r := DropTerminator(Translate(Join(a, NL), NL, AM), isDir);
      exists b :: IsDictItem(b) && Free(b, AM) && r == Join(b, AM) &&
        forall n: int :: AttrIn(b, n) == AttrIn(a, n)
  {
    TranslateJoin(a, NL, AM);
    var s := Join(a, AM);
    var last := a[|a| - 1];
    if |a| == 1 {
      assert s == a[0];
    } else {
      var init := a[..|a| - 1];
      assert a == init + [last];
      JoinSnoc(init, last, AM);
      if last == "" {
        assert s[..|s| - 1] == Join(init, AM);
        assert IsDictItem(init);
      } else {
        assert s[|s| - 1] == last[|last| - 1];
      }
    }
  }

  predicate IsI(a: seq<string>) { a != [] && a[0] == "I" }

  lemma TypeSeen(a: seq<string>)
    requires IsDictItem(a) && Free(a, AM)
    ensures IsIType(Join(a, AM)) <==> IsI(a)
    ensures forall n :: Attr(Join(a, AM), AM, n) == AttrIn(a, n)
  {
    SplitJoin(a, AM);
  }

  /** Attribute 2 replaced, when there is one. */
  function Respelt(a: seq<string>, spec: Option<string>): seq<string>
  {
    if spec.Some? && |a| >= 2 then a[1 := spec.value] else a
  }

  lemma RespeltJoin(a: seq<string>, spec: Option<string>)
    requires a != [] && Free(a, AM) && (spec.Some? ==> AM !in spec.value)
    ensures WithSpec(Join(a, AM), spec) == Join(Respelt(a, spec), AM)
    ensures Free(Respelt(a, spec), AM)
  {
    SplitJoin(a, AM);
  }

  function CheckedAt(ds: Dicts, base: string, a: seq<string>, n: int): string
  {
    if n == 2 then LiveSpec(ds, base, IsI(a), AttrIn(a, 2)) else NativeAt(a, n)
  }

  lemma SameSwap(a: seq<string>, b: seq<string>)
    requires forall n: int :: AttrIn(a, n) == AttrIn(b, n)
    ensures forall n: int :: NativeAt(a, n) == NativeAt(b, n)
  {}

  /** The record a checkout leaves, as attributes. */
  lemma CheckedOut(ds: Dicts, base: string, isDir: bool, a: seq<string>) returns (r: seq<string>)
    requires IsDictItem(a) && Free(a, NL) && Free(a, AM) && CleanDicts(ds, AM)
    ensures ToNative(ds, base, isDir, Join(a, NL)) == Join(r, AM)
    ensures IsDictItem(r) && |r| <= 32 && Free(r, AM) && r[0] == a[0]
    ensures forall n: int :: AttrIn(r, n) == CheckedAt(ds, base, a, n)
  {
    hide ToUdt, Nativise, Native, Split, IsIType, Join, DropTerminator, WithSpec, CleanDicts, Attr;
    BlobRecord(a, isDir);
    var raw := DropTerminator(Translate(Join(a, NL), NL, AM), isDir);
    var b :| IsDictItem(b) && Free(b, AM) && raw == Join(b, AM) && forall n: int :: AttrIn(b, n) == AttrIn(a, n);
    assert b[0] == AttrIn(b, 1) == AttrIn(a, 1);
    NativiseJoin(b);
    var nv := Native(b);
    NativeAttrs(b);
    SameSwap(a, b);
    TypeSeen(nv);
    var was := AttrIn(a, 2);
    assert AttrIn(nv, 2) == NativeAt(a, 2) == was;
    var read := Cut(was, 512);
    ToUdtFrom(ds, base, read, AM);
    var u := if IsI(a) then ToUdt(ds, base, read) else None;
    assert SpecOf(Join(nv, AM), AM) == read;
    RespeltJoin(nv, u);
    r := Respelt(nv, u);
    NotTransIsNone(ds, base, read);
    assert u.Some? ==> |nv| >= 2;
  }

  function StagedAt(smAt6: bool, ds: Dicts, base: string, a: seq<string>, r: seq<string>, n: int): string
  {
    if n == 2 then StagedSpec(ds, base, IsI(r), AttrIn(a, 2), AttrIn(r, 2)) else ProjectedAt(smAt6, r, n)
  }

  /** The blob an `add` stages for any live D or I item, compared with any committed one, as
      attributes. */
  lemma StagedAttrs(smAt6: bool, ds: Dicts, base: string, a: seq<string>, r: seq<string>) returns (t: seq<string>)
    requires a != [] && Free(a, NL) && Free(a, AM)
    requires IsDictItem(r) && |r| <= 32 && Free(r, AM)
    ensures Staged(smAt6, ds, base, Join(r, AM), Some(Join(a, NL))) == Join(t, NL)
    ensures Trimmed(t) && t[0] == r[0]
    ensures forall n: int :: AttrIn(t, n) == StagedAt(smAt6, ds, base, a, r, n)
  {
    hide ToUdt, ToOpen, Projected, Project, Split, IsIType, Join, WithSpec, Attr, Translate;
    var p := Projected(smAt6, r);
    ProjectedAttrs(smAt6, r);
    ProjectJoin(smAt6, r);
    TypeSeen(p);
    var was, live := AttrIn(a, 2), AttrIn(r, 2);
    assert AttrIn(p, 2) == ProjectedAt(smAt6, r, 2) == live;
    var read := Cut(live, 512);
    assert SpecOf(Join(p, AM), AM) == read;
    BlobSpec(a);
    assert AM !in was && AM !in read;
    ToOpenFrom(ds, base, read, AM);
    var canon := CanonSpec(ds, base, Join(p, AM), Some(Join(a, NL)));
    RespeltJoin(p, canon);
    t := Respelt(p, canon);
    TranslateJoin(t, AM, NL);
    ToOpenSome(ds, base, read);
    NotTransIsNone(ds, base, Cut(was, 512));
    assert |p| < 2 ==> live == "" && canon.None?;
  }

  lemma BlobSpec(a: seq<string>)
    requires a != [] && Free(a, NL)
    ensures SpecOf(Join(a, NL), NL) == Cut(AttrIn(a, 2), 512)
  {
    SplitJoin(a, NL);
  }

  lemma ToOpenSome(ds: Dicts, base: string, spec: string)
    ensures ToOpen(ds, base, spec).Some? ==> spec != ""
  {}

  lemma NotTransIsNone(ds: Dicts, base: string, spec: string)
    ensures ToUdt(ds, base, spec).Some? ==> spec != "" && ToUdt(ds, base, spec).value != ""
  {
    hide TransArgs, KeyName, Arg, Expand;
    NoArgs();
    match KeyName(ds, base, Unquote(Arg(spec, 1)))
    case None =>
    case Some(key) => ExpandNonEmpty(ds, Unquote(Arg(spec, 0)), key, Arg(spec, 2), Control(Arg(spec, 3)), 0);
  }

  lemma NoArgs()
    ensures TransArgs("") == []
  {}

  lemma {:induction false} ExpandNonEmpty(ds: Dicts, file: string, key: string, target: string, ctl: string, depth: nat)
    ensures Expand(ds, file, key, target, ctl, depth) != ""
    decreases 8 - depth
  {
    var tgt := Unquote(target);
    var link := if depth < 8 && !IsNum(tgt) then ChainSpec(ds, file, tgt) else None;
    if link.Some? && KeyName(ds, file, Unquote(Arg(link.value, 1))).Some? {
      var spec := link.value;
      var k2 := KeyName(ds, file, Unquote(Arg(spec, 1))).value;
      ExpandNonEmpty(ds, Unquote(Arg(spec, 0)), Cut(Call(Quoted(file), key, Quoted(k2), Quoted(ctl)), 1024),
                     Arg(spec, 2), Control(Arg(spec, 3)), depth + 1);
    }
  }

  // ---- the theorems ------------------------------------------------------

  /** A TRANS with a numbered key no item of its dictionary can name. */
  predicate Unnameable(ds: Dicts, base: string, spec: string)
  {
    var key := Unquote(Arg(spec, 1));
    |TransArgs(spec)| >= 3 && IsNum(key) && NameFor(ds, base, Atoi(key)).None?
  }

  /** Its plain spelling: no quotes, no blanks around the arguments, the control written. */
  function Plainly(spec: string): string
  {
    Cut(Call(Unquote(Arg(spec, 0)), Cut(Unquote(Arg(spec, 1)), 32), Unquote(Arg(spec, 2)), Control(Arg(spec, 3))), 1024)
  }

  /** The committed expression survives.  One that is not translated is spelt plainly if
      it is a TRANS whose key cannot be named; of one that is, the expression and its
      translation fit the 512-byte buffers; a translation that does not fit is cut when
      read back, and must then happen to translate to the committed one. */
  predicate SpecSurvives(ds: Dicts, base: string, a: seq<string>)
  {
    var was := AttrIn(a, 2);
    IsI(a) ==>
      match ToUdt(ds, base, Cut(was, 512))
      case None => Unnameable(ds, base, Cut(was, 512)) ==> was == Plainly(Cut(was, 512))
      case Some(u) => if |u| < 512 then |was| < 512 else ReadBack(ds, base, u) == was
  }

  /** A translation that does not fit is lost whenever the 511 bytes read back are no whole
      TRANS, or have a TRANS for a key. */
  lemma LongIsLost(ds: Dicts, base: string, a: seq<string>)
    requires IsI(a) && |AttrIn(a, 2)| < 512
    ensures match ToUdt(ds, base, AttrIn(a, 2))
      case None => true
      case Some(u) =>
        |u| >= 512 && (!IsTrans(Strip(Cut(u, 512), BLANKS)) || StartsTrans(Arg(Cut(u, 512), 1))) ==>
          !SpecSurvives(ds, base, a)
  {
    hide ToUdt, Args, Strip, IsTrans, StartsTrans, Arg;
  }

  /** What add does to an expression checkout left alone. */
  lemma LeftAlone(ds: Dicts, base: string, spec: string)
    ensures ToUdt(ds, base, spec).None? <==> |TransArgs(spec)| < 3 || Unnameable(ds, base, spec)
    ensures ToUdt(ds, base, spec).None? ==>
      ToOpen(ds, base, spec) == if Unnameable(ds, base, spec) then Some(Plainly(spec)) else None
  {
    hide TransArgs, Expand, NameFor, Arg, StartsTrans, Unquote;
    NotNested(Arg(spec, 1));
  }

  /** A number is no TRANS. */
  lemma NotNested(k: string)
    ensures IsNum(Unquote(k)) ==> !StartsTrans(k)
  {
    if StartsTrans(k) {
      assert LowerAll(k[..6])[0] == 't' && Lower(k[0]) == 't';
      assert Unquote(k) == k && !Digit(k[0]);
    }
  }

  /** At most 32 attributes, none empty at the end, and an association that has its
      single/multi flag. */
  predicate Canonical(a: seq<string>)
  {
    |a| <= 32 && Trimmed(a) && (AttrIn(a, 6) != "" ==> AttrIn(a, 7) != "")
  }

  /** A translation too long for the buffers has no newline in it. */
  predicate LongSpecPlain(ds: Dicts, base: string, a: seq<string>)
  {
    var live := LiveSpec(ds, base, IsI(a), AttrIn(a, 2));
    |live| >= 512 ==> NL !in live
  }

  lemma JoinInjective(a: seq<string>, b: seq<string>)
    requires a != [] && b != [] && Free(a, NL) && Free(b, NL) && Join(a, NL) == Join(b, NL)
    ensures a == b
  {
    SplitJoin(a, NL);
    SplitJoin(b, NL);
  }

  /** Checkout then add gives back the committed D or I item exactly when it is
      canonical and its expression survives, on UniData and jBASE. */
  lemma CheckoutThenAdd(ds: Dicts, base: string, isDir: bool, a: seq<string>)
    requires IsDictItem(a) && Free(a, NL) && Free(a, AM) && CleanDicts(ds, AM) && LongSpecPlain(ds, base, a)
    ensures var blob := Join(a, NL);
      Staged(true, ds, base, ToNative(ds, base, isDir, blob), Some(blob)) == blob <==>
      Canonical(a) && SpecSurvives(ds, base, a)
  {
    hide ToUdt, ToOpen, Staged, ToNative, Join, LiveSpec, NativeAt, StagedAt, Canonical, SpecSurvives, Free;
    var r := CheckedOut(ds, base, isDir, a);
    assert AttrIn(r, 2) == CheckedAt(ds, base, a, 2);
    var t := StagedAttrs(true, ds, base, a, r);
    StagedPieces(true, ds, base, a, r, t);
    SameWhen(ds, base, a, r, t);
    if Join(t, NL) == Join(a, NL) {
      JoinInjective(t, a);
    }
  }

  /** The staged attributes are the committed ones. */
  lemma SameWhen(ds: Dicts, base: string, a: seq<string>, r: seq<string>, t: seq<string>)
    requires IsDictItem(a) && IsDictItem(r) && |r| <= 32 && Trimmed(t) && t[0] == r[0] == a[0]
    requires forall n: int :: AttrIn(r, n) == CheckedAt(ds, base, a, n)
    requires forall n: int :: AttrIn(t, n) == StagedAt(true, ds, base, a, r, n)
    ensures t == a <==> Canonical(a) && SpecSurvives(ds, base, a)
  {
    hide ToUdt, ToOpen, SpecSurvives, StagedSpec, LiveSpec;
    SpecSame(ds, base, a);
    assert AttrIn(r, 2) == CheckedAt(ds, base, a, 2) && AttrIn(t, 2) == StagedAt(true, ds, base, a, r, 2);
    if t == a {
      assert AttrIn(t, 7) == AttrIn(a, 7) && AttrIn(t, |a|) == AttrIn(a, |a|);
    }
    if Canonical(a) && SpecSurvives(ds, base, a) {
      forall n: int ensures AttrIn(t, n) == AttrIn(a, n) {
        assert AttrIn(t, n) == StagedAt(true, ds, base, a, r, n);
      }
      SameAttrs(t, a);
    }
  }

  /** The expression staged is the committed one. */
  lemma SpecSame(ds: Dicts, base: string, a: seq<string>)
    ensures var was := AttrIn(a, 2);
      StagedSpec(ds, base, IsI(a), was, LiveSpec(ds, base, IsI(a), was)) == was <==> SpecSurvives(ds, base, a)
  {
    hide ToUdt, ToOpen, Unnameable, Plainly;
    LeftAlone(ds, base, Cut(AttrIn(a, 2), 512));
  }

  /** No newline gets into a staged attribute. */
  lemma StagedPieces(smAt6: bool, ds: Dicts, base: string, a: seq<string>, r: seq<string>, t: seq<string>)
    requires a != [] && IsI(r) == IsI(a) && Free(a, NL) && LongSpecPlain(ds, base, a)
    requires forall n: int :: AttrIn(r, n) == CheckedAt(ds, base, a, n)
    requires forall n: int :: AttrIn(t, n) == StagedAt(smAt6, ds, base, a, r, n)
    ensures Free(t, NL)
  {
    hide ToUdt, ToOpen;
    forall n: int ensures NL !in AttrIn(a, n) {}
    StagedSpecPlain(ds, base, a);
    assert NL !in StagedAt(smAt6, ds, base, a, r, 2);
    forall i | 0 <= i < |t| ensures NL !in t[i] {
      assert t[i] == AttrIn(t, i + 1) == StagedAt(smAt6, ds, base, a, r, i + 1);
    }
  }

  lemma StagedSpecPlain(ds: Dicts, base: string, a: seq<string>)
    requires NL !in AttrIn(a, 2) && LongSpecPlain(ds, base, a)
    ensures var live := LiveSpec(ds, base, IsI(a), AttrIn(a, 2));
      NL !in StagedSpec(ds, base, IsI(a), AttrIn(a, 2), live)
  {
    hide ToUdt, ToOpen;
    var live := LiveSpec(ds, base, IsI(a), AttrIn(a, 2));
    if NL !in live {
      ToOpenFrom(ds, base, Cut(live, 512), NL);
    }
  }

  /** The UniVerse-only build swaps on checkout but not on add: the round trip
      then keeps an item exactly when attributes 6 and 7 are the same. */
  lemma UniVerseReorders(ds: Dicts, base: string, isDir: bool, a: seq<string>)
    requires IsDictItem(a) && Free(a, NL) && Free(a, AM) && CleanDicts(ds, AM) && LongSpecPlain(ds, base, a)
    requires Canonical(a) && SpecSurvives(ds, base, a)
    ensures var blob := Join(a, NL);
      Staged(false, ds, base, ToNative(ds, base, isDir, blob), Some(blob)) == blob <==>
      AttrIn(a, 6) == AttrIn(a, 7)
  {
    hide ToUdt, ToOpen, Staged, ToNative, Join, LiveSpec, NativeAt, StagedAt, Canonical, SpecSurvives, Free, StagedSpec;
    var r := CheckedOut(ds, base, isDir, a);
    assert AttrIn(r, 2) == CheckedAt(ds, base, a, 2);
    var t := StagedAttrs(false, ds, base, a, r);
    assert IsI(r) == IsI(a) && t != [];
    StagedPieces(false, ds, base, a, r, t);
    SameUnswapped(ds, base, a, r, t);
    if Join(t, NL) == Join(a, NL) {
      JoinInjective(t, a);
    }
  }

  lemma SameUnswapped(ds: Dicts, base: string, a: seq<string>, r: seq<string>, t: seq<string>)
    requires IsDictItem(a) && IsDictItem(r) && |r| <= 32 && Trimmed(t) && t[0] == r[0] == a[0]
    requires Canonical(a) && SpecSurvives(ds, base, a)
    requires forall n: int :: AttrIn(r, n) == CheckedAt(ds, base, a, n)
    requires forall n: int :: AttrIn(t, n) == StagedAt(false, ds, base, a, r, n)
    ensures t == a <==> AttrIn(a, 6) == AttrIn(a, 7)
  {
    hide ToUdt, ToOpen, SpecSurvives, StagedSpec, LiveSpec;
    SpecSame(ds, base, a);
    assert AttrIn(r, 2) == CheckedAt(ds, base, a, 2) && AttrIn(t, 2) == StagedAt(false, ds, base, a, r, 2);
    if t == a {
      assert AttrIn(t, 6) == AttrIn(a, 6) && AttrIn(t, 7) == AttrIn(a, 7);
    }
    if AttrIn(a, 6) == AttrIn(a, 7) {
      forall n: int ensures AttrIn(t, n) == AttrIn(a, n) {
        assert AttrIn(t, n) == StagedAt(false, ds, base, a, r, n);
      }
      SameAttrs(t, a);
    }
  }

  /** An ordinary associated item is the counterexample. */
  lemma UniVerseCounterexample()
    ensures var a := ["D", "3", "", "PHONE", "12L", "PHONES", "M"];
      var blob := Join(a, NL);
      Staged(false, map[], "CLIENTS", ToNative(map[], "CLIENTS", false, blob), Some(blob)) != blob
  {
    var a := ["D", "3", "", "PHONE", "12L", "PHONES", "M"];
    UniVerseReorders(map[], "CLIENTS", false, a);
    assert AttrIn(a, 6) == "PHONES" && AttrIn(a, 7) == "M";
    assert |"PHONES"| == 6 && |"M"| == 1;
  }

  // ---- an item edited here -----------------------------------------------

  /** What add stages for an I item's expression, whatever git has: git's copy exactly when
      it translates to what the account holds; otherwise the live one, translated back. */
  lemma EditReachesGit(ds: Dicts, base: string, was: string, live: string)
    requires |live| < 512 && |was| < 512
    ensures var c := StagedSpec(ds, base, true, was, live);
      && (ToUdt(ds, base, was) == Some(live) ==> c == was)
      && (ToUdt(ds, base, was) != Some(live) && ToOpen(ds, base, live).Some? ==> c == ToOpen(ds, base, live).value)
      && (ToUdt(ds, base, was) != Some(live) && ToOpen(ds, base, live).None? ==> c == live)
    ensures Returns(ds, base, live) ==> ToUdt(ds, base, StagedSpec(ds, base, true, was, live)) == Some(live)
  {
    hide ToUdt, ToOpen;
  }

  /** A live expression that its own translation back gives again. */
  predicate Returns(ds: Dicts, base: string, live: string)
  {
    match ToOpen(ds, base, live) case Some(c) => ToUdt(ds, base, c) == Some(live) case None => ToUdt(ds, base, live) == Some(live)
  }

  /** Carried to the staged blob: for any live item and any committed record, checking the
      staged blob out again gives the live expression, if it returns at all; and every
      other attribute is the live record's, in canonical order, whatever git has. */
  lemma EditedItemStaged(smAt6: bool, ds: Dicts, base: string, a: seq<string>, r: seq<string>)
    returns (t: seq<string>)
    requires a != [] && Free(a, NL) && Free(a, AM) && |AttrIn(a, 2)| < 512
    requires IsDictItem(r) && |r| <= 32 && Free(r, AM) && |AttrIn(r, 2)| < 512
    ensures Staged(smAt6, ds, base, Join(r, AM), Some(Join(a, NL))) == Join(t, NL)
    ensures forall n: int :: n != 2 ==> AttrIn(t, n) == ProjectedAt(smAt6, r, n)
    ensures !IsI(r) ==> AttrIn(t, 2) == AttrIn(r, 2)
    ensures IsI(r) && Returns(ds, base, AttrIn(r, 2)) ==> ToUdt(ds, base, AttrIn(t, 2)) == Some(AttrIn(r, 2))
    ensures IsI(r) && AttrIn(t, 2) == AttrIn(a, 2) ==>
      || ToUdt(ds, base, AttrIn(a, 2)) == Some(AttrIn(r, 2))
      || ToOpen(ds, base, AttrIn(r, 2)) == Some(AttrIn(a, 2)) || AttrIn(r, 2) == AttrIn(a, 2)
  {
    hide ToUdt, ToOpen, Staged, Join, Returns;
    t := StagedAttrs(smAt6, ds, base, a, r);
    assert AttrIn(t, 2) == StagedAt(smAt6, ds, base, a, r, 2);
    if IsI(r) {
      EditReachesGit(ds, base, AttrIn(a, 2), AttrIn(r, 2));
    }
  }

  // ---- staging again -----------------------------------------------------

  /** A projected record whose expression fits, as does its translation, with no newline
      in the record and no mark in the blob it is compared with. */
  predicate Restageable(smAt6: bool, ds: Dicts, base: string, rec: string, committed: Option<string>)
  {
    var p := Project(smAt6, rec);
    IsIType(p) ==>
      && NL !in p && |Attr(p, AM, 2)| < 512
      && (committed.Some? ==> AM !in committed.value)
      && var back := ToOpen(ds, base, Attr(p, AM, 2)); back.Some? ==> |back.value| < 512
  }

  lemma SpecFree(blob: string)
    requires AM !in blob
    ensures AM !in SpecOf(blob, NL) && NL !in SpecOf(blob, NL) && |SpecOf(blob, NL)| < 512
  {
    JoinSplit(blob, NL);
    SplitFromText(blob, NL, AM);
  }

  /** The expression of a staged record is read back whole. */
  lemma StagedSpecBack(p: string, spec: Option<string>)
    requires NL !in p && |Attr(p, AM, 2)| < 512
    requires spec.Some? ==> AM !in spec.value && NL !in spec.value && |spec.value| < 512
    ensures var a := Split(p, AM);
      SpecOf(Translate(WithSpec(p, spec), AM, NL), NL) ==
        if |a| >= 2 && spec.Some? then spec.value else Attr(p, AM, 2)
  {
    var a := Split(p, AM);
    JoinSplit(p, AM);
    SplitFromText(p, AM, NL);
    RespeltJoin(a, spec);
    var b := Respelt(a, spec);
    assert Free(b, NL);
    TranslateJoin(b, AM, NL);
    SplitJoin(b, NL);
  }

  /** Writing an expression where it already stands changes nothing. */
  lemma SameSpec(p: string)
    ensures WithSpec(p, Some(Attr(p, AM, 2))) == p == WithSpec(p, None)
  {
    var a := Split(p, AM);
    JoinSplit(p, AM);
    if |a| >= 2 {
      assert a[1 := a[1]] == a;
    }
  }

  /** Staging a record again, with what it was staged as in the index, gives the same
      blob: the compare with git's copy is stable under its own staging. */
  lemma StagedStable(smAt6: bool, ds: Dicts, base: string, rec: string, committed: Option<string>)
    requires Restageable(smAt6, ds, base, rec, committed)
    ensures var s := Staged(smAt6, ds, base, rec, committed);
      Staged(smAt6, ds, base, rec, Some(s)) == s
  {
    hide ToUdt, ToOpen, Project, Translate, Split, WithSpec, Attr, IsIType;
    var p := Project(smAt6, rec);
    if IsIType(p) {
      var spec := SpecOf(p, AM);
      SpecIsPiece(p);
      if committed.Some? {
        SpecFree(committed.value);
      }
      ToOpenFrom(ds, base, spec, AM);
      ToOpenFrom(ds, base, spec, NL);
      var canon := CanonSpec(ds, base, p, committed);
      var s := Staged(smAt6, ds, base, rec, committed);
      StagedSpecBack(p, canon);
      SameSpec(p);
      NoSecond(p);
      if |Split(p, AM)| < 2 {
        assert WithSpec(p, canon) == p == WithSpec(p, CanonSpec(ds, base, p, Some(s)));
      } else if canon.Some? {
        assert SpecOf(s, NL) == canon.value;
        assert CanonSpec(ds, base, p, Some(s)) == canon;
      } else {
        assert SpecOf(s, NL) == spec;
        assert WithSpec(p, CanonSpec(ds, base, p, Some(s))) == p;
      }
    }
  }

  lemma SpecIsPiece(p: string)
    requires NL !in p
    ensures AM !in Attr(p, AM, 2) && NL !in Attr(p, AM, 2)
  {
    JoinSplit(p, AM);
    SplitFromText(p, AM, NL);
  }

  lemma NoSecond(p: string)
    ensures |Split(p, AM)| < 2 ==> forall c :: WithSpec(p, c) == p
  {}
}

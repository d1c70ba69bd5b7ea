// What a TRANS expression means on each side, and the proof that flattening a
// chain of I-types into one nested expression keeps the value.
module Meaning {
  import opened Text
  import opened Records
  import opened Trans

  /** The dictionaries, the records by (file, id), and what either platform makes
      of an item that is not a D item with a field number. */
  datatype World = World(dicts: Dicts, store: map<(string, string), string>,
                         other: (string, string, string) -> string)

  /** A name or a number read against one record, without chaining. */
  function Field(w: World, file: string, rec: string, name: string): string
  {
    if IsNum(name) then Attr(rec, AM, Atoi(name))
    else
      match DsRead(w.dicts, file, name)
      case Some(text) =>
        if TypeIs(text, 'D', 'd') && Atoi(Loc(text)) > 0 then Attr(rec, AM, Atoi(Loc(text)))
        else w.other(file, name, rec)
      case None => w.other(file, name, rec)
  }

  // ---- MVX: numbered keys, targets that chain ----------------------------

  /** The whole expression of an I-type that is a TRANS. */
  function FullSpec(ds: Dicts, file: string, item: string): Option<string>
  {
    match DsRead(ds, file, item)
    case None => None
    case Some(text) =>
      if TypeIs(text, 'I', 'i') && |TransArgs(Attr(text, NL, 2))| >= 3 then Some(Attr(text, NL, 2)) else None
  }

  /** Control X: a missing record is the empty value. */
  function MvxLookup(w: World, file: string, id: string, target: string, depth: nat): string
    decreases 8 - depth, 1
  {
    if (file, id) in w.store then MvxTarget(w, file, w.store[(file, id)], target, depth) else ""
  }

  /** A target naming a TRANS I-type of its own file is evaluated against the record
      found, eight levels deep at most. */
  function MvxTarget(w: World, file: string, rec: string, target: string, depth: nat): string
    decreases 8 - depth, 0
  {
    var t := Unquote(target);
    var link := if depth < 8 && !IsNum(t) then FullSpec(w.dicts, file, t) else None;
    if link.Some? then
      var a := TransArgs(link.value);
      MvxLookup(w, Unquote(a[0]), Field(w, file, rec, Unquote(a[1])), a[2], depth + 1)
    else Field(w, file, rec, t)
  }

  function MvxValue(w: World, self: string, spec: string, rec: string): string
    requires |TransArgs(spec)| >= 3
  {
    var a := TransArgs(spec);
    MvxLookup(w, Unquote(a[0]), Field(w, self, rec, Unquote(a[1])), a[2], 0)
  }

  // ---- UniData: expression keys, targets that do not chain ---------------

  lemma {:induction false} ArgsShort(s: string, acc: string, depth: int, quote: char)
    ensures forall i :: 0 <= i < |Args(s, acc, depth, quote)| ==>
      |Args(s, acc, depth, quote)[i]| <= |acc| + |s|
  {
    if s == "" {
    } else {
      var c := s[0];
      if quote != NOQUOTE {
        ArgsShort(s[1..], acc + [c], depth, if c == quote then NOQUOTE else quote);
      } else if QuoteChar(c) {
        ArgsShort(s[1..], acc + [c], depth, c);
      } else if c == '(' {
        ArgsShort(s[1..], acc + [c], depth + 1, quote);
      } else if c == ')' {
        ArgsShort(s[1..], acc + [c], depth - 1, quote);
      } else if c == ',' && depth == 0 {
        ArgsShort(s[1..], "", depth, quote);
      } else {
        ArgsShort(s[1..], acc + [c], depth, quote);
      }
    }
  }

  lemma TransArgsShort(spec: string)
    ensures forall i :: 0 <= i < |TransArgs(spec)| ==> |TransArgs(spec)[i]| < |spec|
  {
    var t := Strip(spec, BLANKS);
    if IsTrans(t) {
      ArgsShort(t[6..|t| - 1], "", 0, NOQUOTE);
    }
  }

  /** A key: a nested TRANS, a literal (quoted or all digits), or a name in the
      dictionary of the file the item belongs to. */
  function UdtKey(w: World, self: string, e: string, rec: string): string
    decreases |e|, 1
  {
    if |TransArgs(e)| >= 3 then UdtValue(w, self, e, rec)
    else if IsNum(e) || (e != "" && QuoteChar(e[0])) then Unquote(e)
    else Field(w, self, rec, e)
  }

  function UdtValue(w: World, self: string, spec: string, rec: string): string
    requires |TransArgs(spec)| >= 3
    decreases |spec|, 0
  {
    TransArgsShort(spec);
    var a := TransArgs(spec);
    var file := Unquote(a[0]);
    var id := UdtKey(w, self, a[1], rec);
    if (file, id) in w.store then Field(w, file, w.store[(file, id)], Unquote(a[2])) else ""
  }

  // ---- what the translation needs ----------------------------------------

  predicate CleanName(n: string)
  {
    n != "" && Plain(n) && Edgeless(n, SPACES) && !IsNum(n) && |n| < 256
  }

  predicate KeyOk(ds: Dicts, file: string, key: string)
  {
    if IsNum(key) then
      GoodItems(Items(ds, file)) && NameFor(ds, file, Atoi(key)).Some? && CleanName(NameFor(ds, file, Atoi(key)).value)
    else CleanName(key)
  }

  predicate NoQuote(s: string) { '\'' !in s }

  /** The item's expression fits the 256-byte buffer it is read into. */
  predicate ItemFits(ds: Dicts, file: string, item: string)
  {
    match DsRead(ds, file, item) { case Some(text) => |Attr(text, NL, 2)| < 256 case None => true }
  }

  /** The chain behind `target` ends within the cap, its keys can be named, its
      controls are X and its names carry no quote. */
  predicate ChainOk(ds: Dicts, file: string, target: string, depth: nat)
    decreases 8 - depth
  {
    var t := Unquote(target);
    && NoQuote(file) && NoQuote(t) && ItemFits(ds, file, t)
    && (!IsNum(t) && FullSpec(ds, file, t).Some? ==>
          && depth < 8
          && var spec := FullSpec(ds, file, t).value;
             LinkOk(ds, file, spec) && ChainOk(ds, Unquote(TransArgs(spec)[0]), TransArgs(spec)[2], depth + 1))
  }

  predicate LinkOk(ds: Dicts, self: string, spec: string)
  {
    var a := TransArgs(spec);
    && |a| >= 3 && (forall i :: 0 <= i < |a| && i < 4 ==> |a[i]| < 256)
    && KeyOk(ds, self, Unquote(a[1]))
    && (|a| >= 4 ==> Control(a[3]) == "X")
  }

  predicate Translatable(ds: Dicts, self: string, spec: string)
  {
    && LinkOk(ds, self, spec)
    && ChainOk(ds, Unquote(TransArgs(spec)[0]), TransArgs(spec)[2], 0)
  }

  /** A record id is never empty. */
  ghost predicate NoEmptyIds(w: World) { forall f: string :: (f, "") !in w.store }

  // ---- the proof ---------------------------------------------------------

  /** The name chosen for a number reads that attribute. */
  lemma NamedKeyMeaning(w: World, file: string, rec: string, key: string)
    requires KeyOk(w.dicts, file, key)
    ensures KeyName(w.dicts, file, key).Some?
    ensures var n := KeyName(w.dicts, file, key).value;
            CleanName(n) && Field(w, file, rec, n) == Field(w, file, rec, key)
  {
    if IsNum(key) {
      var es := Items(w.dicts, file);
      NameForIsLeast(w.dicts, file, Atoi(key));
      var n := NameFor(w.dicts, file, Atoi(key)).value;
      var i :| 0 <= i < |es| && Describes(es[i], Atoi(key)) && es[i].name == n;
      LookupUnique(es, i);
    }
  }

  lemma CleanKey(n: string)
    requires CleanName(n)
    ensures Whole(n) && NoQuote(n) && TransArgs(n) == [] && !QuoteChar(n[0])
  {
    PlainWhole(n, 0);
    var t := Strip(n, BLANKS);
    assert t != "" ==> t[|t| - 1] in t;
  }

  /** Reading back one printed TRANS. */
  lemma PrintedArgs(file: string, key: string, target: string)
    requires NoQuote(file) && NoQuote(target) && Whole(key) && Edgeless(key, SPACES) && key != ""
    ensures var p := Print(file, key, target, "X");
      && |TransArgs(p)| == 4 && Whole(p) && Edgeless(p, SPACES) && p != ""
      && Unquote(TransArgs(p)[0]) == file && TransArgs(p)[1] == key && Unquote(TransArgs(p)[2]) == target
      && |p| > |key|
  {
    hide TransArgs, Whole, Strip;
    QuotedWhole(file);
    QuotedWhole("X");
    TargetWhole(target);
    var t := if IsNum(target) then target else Quoted(target);
    FourArgs(Quoted(file), key, t, Quoted("X"));
    var p := Print(file, key, target, "X");
    assert p[0] == 'T' && p[|p| - 1] == ')';
  }

  lemma TargetWhole(target: string)
    requires NoQuote(target)
    ensures var t := if IsNum(target) then target else Quoted(target);
            Whole(t) && Edgeless(t, SPACES) && Unquote(t) == target
  {
    if IsNum(target) {
      PlainWhole(target, 0);
    } else {
      QuotedWhole(target);
    }
  }

  /** Every nested key fits the 1024-byte buffer it is built in. */
  predicate KeysFit(ds: Dicts, file: string, key: string, target: string, ctl: string, depth: nat)
    decreases 8 - depth
  {
    var tgt := Unquote(target);
    var link := if depth < 8 && !IsNum(tgt) then ChainSpec(ds, file, tgt) else None;
    if link.Some? && KeyName(ds, file, Unquote(Arg(link.value, 1))).Some? then
      var spec := link.value;
      var k2 := KeyName(ds, file, Unquote(Arg(spec, 1))).value;
      var inner := Call(Quoted(file), key, Quoted(k2), Quoted(ctl));
      |inner| < 1024 && KeysFit(ds, Unquote(Arg(spec, 0)), inner, Arg(spec, 2), Control(Arg(spec, 3)), depth + 1)
    else true
  }

  /** Arguments that fit fill none of the argument buffers. */
  lemma ArgsFit(ds: Dicts, self: string, spec: string)
    requires LinkOk(ds, self, spec)
    ensures forall i: nat :: i < |TransArgs(spec)| && i < 4 ==> Arg(spec, i) == TransArgs(spec)[i]
    ensures Control(Arg(spec, 3)) == "X"
  {
    hide TransArgs, KeyOk;
    assert |TransArgs(spec)| < 4 ==> Arg(spec, 3) == "";
  }

  /** What ispec_expand reads of the item is the whole of it. */
  lemma SameLink(ds: Dicts, file: string, target: string)
    requires ItemFits(ds, file, Unquote(target))
    ensures ChainSpec(ds, file, Unquote(target)) == FullSpec(ds, file, Unquote(target))
  {}

  /** The nested expression has the value of the chained lookup it replaces. */
  lemma {:induction false} ExpandMeaning(w: World, self: string, rec: string, file: string, key: string,
                                         target: string, depth: nat)
    requires NoEmptyIds(w) && ChainOk(w.dicts, file, target, depth)
    requires Whole(key) && Edgeless(key, SPACES) && key != ""
    requires KeysFit(w.dicts, file, key, target, "X", depth)
    ensures var e := Expand(w.dicts, file, key, target, "X", depth);
      && |TransArgs(e)| >= 3
      && UdtValue(w, self, e, rec) == MvxLookup(w, file, UdtKey(w, self, key, rec), target, depth)
    decreases 8 - depth
  {
    hide TransArgs, Whole, Field, Print, FullSpec, ChainSpec, KeyName, DsRead, UdtKey, KeyOk, CleanName;
    var ds, tgt := w.dicts, Unquote(target);
    SameLink(ds, file, target);
    if !IsNum(tgt) && FullSpec(ds, file, tgt).Some? {
      var spec := FullSpec(ds, file, tgt).value;
      var a := TransArgs(spec);
      NamedKeyMeaning(w, file, rec, Unquote(a[1]));
      var k2 := KeyName(ds, file, Unquote(a[1])).value;
      forall r: string ensures Field(w, file, r, k2) == Field(w, file, r, Unquote(a[1])) {
        NamedKeyMeaning(w, file, r, Unquote(a[1]));
      }
      CleanKey(k2);
      var inner := Print(file, key, k2, "X");
      PrintedArgs(file, key, k2);
      ExpandStep(ds, file, key, target, depth);
      ExpandMeaning(w, self, rec, Unquote(a[0]), inner, a[2], depth + 1);
      InnerMeaning(w, self, rec, file, key, k2);
      LinkMeaning(w, file, UdtKey(w, self, key, rec), target, depth, k2);
    } else {
      ExpandEnd(w, self, rec, file, key, target, depth);
    }
  }

  lemma ExpandStep(ds: Dicts, file: string, key: string, target: string, depth: nat)
    requires depth < 8 && !IsNum(Unquote(target)) && ItemFits(ds, file, Unquote(target))
    ensures var full := FullSpec(ds, file, Unquote(target));
      full.Some? && LinkOk(ds, file, full.value) ==>
        var a := TransArgs(full.value);
        var k2 := KeyName(ds, file, Unquote(a[1]));
        k2.Some? && CleanName(k2.value) && KeysFit(ds, file, key, target, "X", depth) ==>
          var inner := Print(file, key, k2.value, "X");
          Expand(ds, file, key, target, "X", depth) == Expand(ds, Unquote(a[0]), inner, a[2], "X", depth + 1)
          && KeysFit(ds, Unquote(a[0]), inner, a[2], "X", depth + 1)
  {
    hide TransArgs, FullSpec, ChainSpec, KeyName, DsRead;
    SameLink(ds, file, target);
    var full := FullSpec(ds, file, Unquote(target));
    if full.Some? && LinkOk(ds, file, full.value) {
      ArgsFit(ds, file, full.value);
    }
  }

  lemma ExpandEnd(w: World, self: string, rec: string, file: string, key: string, target: string, depth: nat)
    requires ChainOk(w.dicts, file, target, depth)
    requires IsNum(Unquote(target)) || FullSpec(w.dicts, file, Unquote(target)).None?
    requires Whole(key) && Edgeless(key, SPACES) && key != ""
    ensures var e := Expand(w.dicts, file, key, target, "X", depth);
      && |TransArgs(e)| >= 3
      && UdtValue(w, self, e, rec) == MvxLookup(w, file, UdtKey(w, self, key, rec), target, depth)
  {
    hide TransArgs, Whole, Field, Print, FullSpec, ChainSpec, DsRead, UdtKey;
    SameLink(w.dicts, file, target);
    PrintedArgs(file, key, Unquote(target));
  }

  /** A printed lookup used as a key: the field, or the empty id. */
  lemma InnerMeaning(w: World, self: string, rec: string, file: string, key: string, k2: string)
    requires NoQuote(file) && CleanName(k2) && Whole(key) && Edgeless(key, SPACES) && key != ""
    ensures var id := UdtKey(w, self, key, rec);
      UdtKey(w, self, Print(file, key, k2, "X"), rec) ==
        if (file, id) in w.store then Field(w, file, w.store[(file, id)], k2) else ""
  {
    CleanKey(k2);
    PrintedArgs(file, key, k2);
  }

  /** One step of the chain: look the record up, read its key field, go on. */
  lemma LinkMeaning(w: World, file: string, id: string, target: string, depth: nat, k2: string)
    requires NoEmptyIds(w) && depth < 8 && !IsNum(Unquote(target))
    ensures FullSpec(w.dicts, file, Unquote(target)).Some? ==>
      var a := TransArgs(FullSpec(w.dicts, file, Unquote(target)).value);
      (forall r: string :: Field(w, file, r, k2) == Field(w, file, r, Unquote(a[1]))) ==>
      MvxLookup(w, file, id, target, depth) ==
      MvxLookup(w, Unquote(a[0]),
                if (file, id) in w.store then Field(w, file, w.store[(file, id)], k2) else "",
                a[2], depth + 1)
  {}

  lemma KeyMeaning(w: World, self: string, key: string, rec: string)
    requires CleanName(key)
    ensures UdtKey(w, self, key, rec) == Field(w, self, rec, key)
  {
    CleanKey(key);
  }

  /** The expansion of a translatable expression fits: its nested keys their buffer, and
      the whole the one it is returned in. */
  predicate ExpansionFits(ds: Dicts, self: string, spec: string)
  {
    match KeyName(ds, self, Unquote(Arg(spec, 1)))
    case None => false
    case Some(key) =>
      && KeysFit(ds, Unquote(Arg(spec, 0)), key, Arg(spec, 2), "X", 0)
      && |Expand(ds, Unquote(Arg(spec, 0)), key, Arg(spec, 2), "X", 0)| < 2048
  }

  /** Flattening preserves meaning: what ispec_to_udt writes has, under UniData's
      rules, the value the canonical expression has under MVX's, for every
      dictionary set, record store and record. */
  lemma FlatteningPreservesMeaning(w: World, self: string, spec: string, rec: string)
    requires NoEmptyIds(w) && Translatable(w.dicts, self, spec)
    ensures ToUdt(w.dicts, self, spec).Some?
    ensures var u := ToUdt(w.dicts, self, spec).value;
      ExpansionFits(w.dicts, self, spec) ==>
        |TransArgs(u)| >= 3 && UdtValue(w, self, u, rec) == MvxValue(w, self, spec, rec)
  {
    hide TransArgs, Whole, Field, FullSpec, KeyName, UdtKey, Expand, KeysFit;
    var a := TransArgs(spec);
    ArgsFit(w.dicts, self, spec);
    NamedKeyMeaning(w, self, rec, Unquote(a[1]));
    var key := KeyName(w.dicts, self, Unquote(a[1])).value;
    CleanKey(key);
    var e := Expand(w.dicts, Unquote(a[0]), key, a[2], "X", 0);
    assert ToUdt(w.dicts, self, spec) == Some(Cut(e, 2048));
    if ExpansionFits(w.dicts, self, spec) {
      ExpandMeaning(w, self, rec, Unquote(a[0]), key, a[2], 0);
      KeyMeaning(w, self, key, rec);
    }
  }
}

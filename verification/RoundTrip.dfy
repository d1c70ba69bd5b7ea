// Printing and parsing an unchained TRANS: exactly when each direction gives the
// text back.
module RoundTrip {
  import opened Text
  import opened Records
  import opened Trans

  /** An argument the splitter cannot misread, quoted or not. */
  predicate CleanArg(s: string, limit: nat)
  {
    Plain(s) && Edgeless(s, SPACES) && |s| < limit
  }

  /** A control that survives its quotes in the 16-byte buffer. */
  predicate CleanControl(c: string) { CleanArg(c, 14) && c != "" }

  predicate Unchained(ds: Dicts, file: string, target: string)
  {
    IsNum(target) || ChainSpec(ds, file, target).None?
  }

  lemma PlainArg(s: string)
    requires Plain(s)
    ensures Whole(s) && Unquote(s) == s && '\'' !in s && !StartsTrans(s)
  {
    PlainWhole(s, 0);
    if s != "" {
      assert s[0] in s;
    }
    assert |s| >= 6 ==> s[5] in s && LowerAll(s[..6])[5] == Lower(s[5]);
  }

  /** What the splitter reports for the canonical text. */
  lemma OpenArgs(f: string, n: string, t: string, c: string)
    requires CleanArg(f, 256) && CleanArg(n, 256) && CleanArg(t, 256) && CleanArg(c, 256)
    ensures var s := Call(f, n, t, c);
      |TransArgs(s)| == 4 && Arg(s, 0) == f && Arg(s, 1) == n && Arg(s, 2) == t && Arg(s, 3) == c
  {
    hide TransArgs, Whole, StartsTrans;
    PlainArg(f);
    PlainArg(n);
    PlainArg(t);
    PlainArg(c);
    FourArgs(f, n, t, c);
  }

  /** What it reports for the UniData text. */
  lemma UdtArgs(f: string, k: string, t: string, c: string)
    requires CleanArg(f, 254) && CleanArg(k, 256) && CleanArg(t, 254) && CleanArg(c, 14)
    ensures var s := Print(f, k, t, c);
      && |TransArgs(s)| == 4
      && Unquote(Arg(s, 0)) == f && Arg(s, 1) == k && Unquote(Arg(s, 2)) == t
      && Unquote(Cut(Arg(s, 3), 16)) == c
  {
    hide TransArgs, Whole, StartsTrans;
    PlainArg(f);
    PlainArg(k);
    PlainArg(t);
    PlainArg(c);
    QuotedWhole(f);
    QuotedWhole(t);
    QuotedWhole(c);
    FourArgs(Quoted(f), k, if IsNum(t) then t else Quoted(t), Quoted(c));
  }

  lemma DigitsClean(n: string)
    requires IsNum(n) && |n| < 256
    ensures CleanArg(n, 256)
  {}

  /** ispec_to_udt on the canonical text is the printed lookup. */
  lemma {:induction false} Printed(ds: Dicts, self: string, f: string, n: string, t: string, c: string)
    requires CleanArg(f, 254) && CleanArg(t, 254) && CleanControl(c) && IsNum(n) && |n| < 32
    requires Unchained(ds, f, t)
    requires NameFor(ds, self, Atoi(n)).Some? && CleanArg(NameFor(ds, self, Atoi(n)).value, 256)
    ensures ToUdt(ds, self, Call(f, n, t, c)) == Some(Print(f, NameFor(ds, self, Atoi(n)).value, t, c))
  {
    hide TransArgs, NameFor, ChainSpec, StartsTrans;
    DigitsClean(n);
    OpenArgs(f, n, t, c);
    PlainArg(f);
    PlainArg(t);
    PlainArg(n);
    PlainArg(c);
  }

  /** ispec_to_open on the printed lookup: the key's number, or nothing. */
  lemma Reopened(ds: Dicts, self: string, f: string, k: string, t: string, c: string)
    requires CleanArg(f, 254) && CleanArg(k, 256) && CleanArg(t, 254) && CleanControl(c)
    ensures ToOpen(ds, self, Print(f, k, t, c)) ==
      match KeyNumber(ds, self, k) { case Some(num) => Some(Call(f, num, t, c)) case None => None }
  {
    hide TransArgs, KeyNumber;
    UdtArgs(f, k, t, c);
    PlainArg(k);
    assert KeyNumber(ds, self, k).Some? ==> |KeyNumber(ds, self, k).value| < 32 by {
      KeyNumberShort(ds, self, k);
    }
  }

  lemma KeyNumberShort(ds: Dicts, self: string, k: string)
    ensures KeyNumber(ds, self, k).Some? ==>
      |KeyNumber(ds, self, k).value| < 32 && IsNum(KeyNumber(ds, self, k).value)
  {}

  lemma CallInjective(f: string, n: string, m: string, t: string, c: string)
    ensures Call(f, n, t, c) == Call(f, m, t, c) <==> n == m
  {
    var a, b := Call(f, n, t, c), Call(f, m, t, c);
    var head, tail := "TRANS(" + f + ",", "," + t + "," + c + ")";
    assert a == head + n + tail && b == head + m + tail;
    if a == b {
      assert |n| == |m|;
      assert a[|head|..|head| + |n|] == n && b[|head|..|head| + |m|] == m;
    }
  }

  /** Canonical -> UniData -> canonical gives the text back exactly when the item
      that names the key writes its location the way the text does (or is itself
      named by that number). */
  lemma OpenUdtOpen(ds: Dicts, self: string, f: string, n: string, t: string, c: string)
    requires CleanArg(f, 254) && CleanArg(t, 254) && CleanControl(c) && IsNum(n) && |n| < 32
    requires Unchained(ds, f, t)
    requires NameFor(ds, self, Atoi(n)).Some? && CleanArg(NameFor(ds, self, Atoi(n)).value, 256)
    ensures var spec := Call(f, n, t, c);
      && ToUdt(ds, self, spec).Some?
      && (ToOpen(ds, self, ToUdt(ds, self, spec).value) == Some(spec) <==>
          KeyNumber(ds, self, NameFor(ds, self, Atoi(n)).value) == Some(n))
  {
    hide KeyNumber, NameFor;
    var k := NameFor(ds, self, Atoi(n)).value;
    Printed(ds, self, f, n, t, c);
    Reopened(ds, self, f, k, t, c);
    if KeyNumber(ds, self, k).Some? {
      CallInjective(f, KeyNumber(ds, self, k).value, n, t, c);
    }
  }

  /** The condition is met by every item that writes its location as the canonical
      decimal and whose name is not a number. */
  lemma CanonicalLocation(ds: Dicts, self: string, n: nat)
    requires n > 0 && |Decimal(n)| < 32 && GoodItems(Items(ds, self))
    requires NameFor(ds, self, n).Some?
    requires forall i :: 0 <= i < |Items(ds, self)| && Describes(Items(ds, self)[i], n) ==>
      !IsNum(Items(ds, self)[i].name) && Loc(Items(ds, self)[i].text) == Decimal(n)
    ensures Atoi(Decimal(n)) == n && KeyNumber(ds, self, NameFor(ds, self, n).value) == Some(Decimal(n))
  {
    AtoiDecimal(n);
    NameForIsLeast(ds, self, n);
    var es := Items(ds, self);
    var i :| 0 <= i < |es| && Describes(es[i], n) && es[i].name == NameFor(ds, self, n).value;
    LookupUnique(es, i);
  }

  /** UniData -> canonical -> UniData, for a dictionary authored there, gives the text
      back exactly when the key is the least of its synonyms. */
  lemma UdtOpenUdt(ds: Dicts, self: string, f: string, k: string, t: string, c: string)
    requires CleanArg(f, 254) && CleanArg(k, 256) && CleanArg(t, 254) && CleanControl(c)
    requires Unchained(ds, f, t) && KeyNumber(ds, self, k).Some?
    requires var nm := NameFor(ds, self, Atoi(KeyNumber(ds, self, k).value));
             nm.Some? && CleanArg(nm.value, 256)
    requires |Print(f, k, t, c)| < 1024
    ensures var u := Print(f, k, t, c);
      && ToOpen(ds, self, u).Some?
      && (ToUdt(ds, self, ToOpen(ds, self, u).value) == Some(u) <==>
          NameFor(ds, self, Atoi(KeyNumber(ds, self, k).value)) == Some(k))
  {
    hide NameFor, KeyNumber, TransArgs, ToUdt, ToOpen, Call, ChainSpec;
    var num := KeyNumber(ds, self, k).value;
    KeyNumberShort(ds, self, k);
    Reopened(ds, self, f, k, t, c);
    Printed(ds, self, f, num, t, c);
    var nm := NameFor(ds, self, Atoi(num)).value;
    CallInjective(Quoted(f), nm, k, if IsNum(t) then t else Quoted(t), Quoted(c));
  }

  /** The condition is not idle: an item located at "05" is named for key 5 and the
      text comes back as key 05. */
  lemma LeadingZeroIsNotKept()
    ensures var ds: Dicts := map["SALES" := [Entry("CUST", "D\n05")]];
      var spec := Call("CLIENTS", "5", "NAME", "X");
      && ToUdt(ds, "SALES", spec) == Some(Print("CLIENTS", "CUST", "NAME", "X"))
      && ToOpen(ds, "SALES", ToUdt(ds, "SALES", spec).value) == Some(Call("CLIENTS", "05", "NAME", "X"))
      && ToOpen(ds, "SALES", ToUdt(ds, "SALES", spec).value) != Some(spec)
  {
    var ds: Dicts := map["SALES" := [Entry("CUST", "D\n05")]];
    hide NameFor, KeyNumber, TransArgs, ToUdt, ToOpen, Call;
    LeadingZeroItem(ds);
    Printed(ds, "SALES", "CLIENTS", "5", "NAME", "X");
    Reopened(ds, "SALES", "CLIENTS", "CUST", "NAME", "X");
    CallInjective("CLIENTS", "05", "5", "NAME", "X");
  }

  lemma LeadingZeroItem(ds: Dicts)
    requires ds == map["SALES" := [Entry("CUST", "D\n05")]]
    ensures Atoi("5") == 5 && NameFor(ds, "SALES", 5) == Some("CUST") && KeyNumber(ds, "SALES", "CUST") == Some("05")
  {
    hide Split;
    var e := Entry("CUST", "D\n05");
    assert e.text == "D" + [NL] + "05";
    SplitHead("D", "05", NL);
    SplitPiece("05", NL);
    assert Split(e.text, NL) == ["D", "05"];
    assert Loc(e.text) == "05";
    FiveIsFive();
    assert Describes(e, 5);
    assert [e][1..] == [];
    assert Named([e], 5, "") == "CUST";
    assert Lookup([e], "CUST") == Some(e.text);
  }

  lemma FiveIsFive()
    ensures Atoi("5") == 5 && Atoi("05") == 5
  {
    assert "05"[1..] == "5" && "5"[1..] == "";
    assert DigitsFrom("5", 0) == DigitsFrom("", 5) == 5;
    assert DigitsFrom("05", 0) == DigitsFrom("5", 0);
  }

  // ---- a chain -----------------------------------------------------------

  /** A target that is itself a TRANS, written out: the first lookup, for the name of the
      second one's key, becomes its key, each with its own control. */
  lemma ChainedOnce(ds: Dicts, self: string, f: string, n: string, t: string, c: string,
                    f2: string, n2: string, t2: string, c2: string)
    requires CleanArg(f, 254) && CleanArg(t, 254) && CleanControl(c) && IsNum(n) && |n| < 32 && !IsNum(t)
    requires CleanArg(f2, 254) && CleanArg(t2, 254) && CleanControl(c2) && IsNum(n2) && |n2| < 32
    ensures Linked(ds, f, t, f2, n2, t2, c2) ==>
      match NameFor(ds, self, Atoi(n))
      case None => true
      case Some(k) => CleanArg(k, 256) ==>
        ToUdt(ds, self, Call(f, n, t, c)) ==
          Some(Call(Quoted(f2), Call(Quoted(f), k, Quoted(NameFor(ds, f, Atoi(n2)).value), Quoted(c)),
                    if IsNum(t2) then t2 else Quoted(t2), Quoted(c2)))
  {
    hide TransArgs, NameFor, StartsTrans, Expand, Call, Arg, Linked;
    DigitsClean(n);
    OpenArgs(f, n, t, c);
    PlainArg(f);
    PlainArg(t);
    PlainArg(n);
    PlainArg(c);
    var name := NameFor(ds, self, Atoi(n));
    if name.Some? && CleanArg(name.value, 256) {
      ChainStep(ds, f, name.value, t, c, f2, n2, t2, c2);
    }
  }

  /** The target is an item holding a last, nameable TRANS. */
  predicate Linked(ds: Dicts, f: string, t: string, f2: string, n2: string, t2: string, c2: string)
  {
    && ChainSpec(ds, f, t) == Some(Call(f2, n2, t2, c2)) && Unchained(ds, f2, t2)
    && NameFor(ds, f, Atoi(n2)).Some? && CleanArg(NameFor(ds, f, Atoi(n2)).value, 254)
  }

  lemma ChainStep(ds: Dicts, f: string, k: string, t: string, c: string, f2: string, n2: string, t2: string, c2: string)
    requires CleanArg(f, 254) && CleanArg(k, 256) && CleanArg(t, 254) && CleanControl(c) && !IsNum(t)
    requires CleanArg(f2, 254) && CleanArg(t2, 254) && CleanControl(c2) && IsNum(n2) && |n2| < 32
    ensures Linked(ds, f, t, f2, n2, t2, c2) ==>
      NameFor(ds, f, Atoi(n2)).Some? &&
      var first := Call(Quoted(f), k, Quoted(NameFor(ds, f, Atoi(n2)).value), Quoted(c));
      Expand(ds, f, k, t, c, 0) == Print(f2, first, t2, c2) && |Print(f2, first, t2, c2)| < 2048
  {
    hide TransArgs, NameFor, ChainSpec, StartsTrans, Arg;
    if Linked(ds, f, t, f2, n2, t2, c2) {
      var k2 := NameFor(ds, f, Atoi(n2)).value;
      DigitsClean(n2);
      OpenArgs(f2, n2, t2, c2);
      PlainArg(t);
      PlainArg(f2);
      PlainArg(t2);
      PlainArg(n2);
      PlainArg(c2);
      var first := Call(Quoted(f), k, Quoted(k2), Quoted(c));
      assert |first| < 1024 && Cut(k2, 256) == k2;
      assert Expand(ds, f2, first, t2, c2, 1) == Print(f2, first, t2, c2);
    }
  }

  /** The text itself: file, target and control quoted, the key as it is. */
  lemma Spelt(f: string, k: string, t: string, c: string)
    ensures Print(f, k, t, c) ==
      "TRANS('" + f + "'," + k + (if IsNum(t) then "," + t + ",'" else ",'" + t + "','") + c + "')"
    ensures Call(f, k, t, c) == "TRANS(" + f + "," + k + "," + t + "," + c + ")"
  {}

  /** The eighth chained item is followed, the ninth is not, so that a dictionary that points
      at itself comes to an end. */
  lemma EightLinks(ds: Dicts, file: string, key: string, target: string, ctl: string, depth: nat)
    ensures depth >= 8 ==> Expand(ds, file, key, target, ctl, depth) == Print(file, key, Unquote(target), ctl)
    ensures depth == 7 && !IsNum(Unquote(target)) && ChainSpec(ds, file, Unquote(target)).Some? ==>
      var spec := ChainSpec(ds, file, Unquote(target)).value;
      match KeyName(ds, file, Unquote(Arg(spec, 1)))
      case None => true
      case Some(k2) =>
        Expand(ds, file, key, target, ctl, depth) ==
          Print(Unquote(Arg(spec, 0)), Cut(Print(file, key, k2, ctl), 1024), Unquote(Arg(spec, 2)), Control(Arg(spec, 3)))
        || IsNum(k2)
  {
    hide TransArgs, ChainSpec, NameFor, Arg;
  }
}

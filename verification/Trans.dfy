// TRANS(file,key,target,control): splitting the text, naming a key, flattening
// a chain of I-types into UniData's nested spelling, and the way back.
module Trans {
  import opened Text
  import opened Records

  const NOQUOTE: char := '\0'
  const SPACES: set<char> := {' '}
  const BLANKS: set<char> := {' ', '\t'}

  predicate QuoteChar(c: char) { c == '\'' || c == '"' }

  // ---- trans_split -------------------------------------------------------

  /** The pieces of `s` between commas at depth 0 outside quotes, scanning on from
      a piece already read as `acc`, at `depth`, inside `quote` (NOQUOTE: none). */
  function Args(s: string, acc: string, depth: int, quote: char): (r: seq<string>)
    ensures |r| >= 1
  {
    if s == "" then [acc]
    else
      var c := s[0];
      if quote != NOQUOTE then Args(s[1..], acc + [c], depth, if c == quote then NOQUOTE else quote)
      else if QuoteChar(c) then Args(s[1..], acc + [c], depth, c)
      else if c == '(' then Args(s[1..], acc + [c], depth + 1, quote)
      else if c == ')' then Args(s[1..], acc + [c], depth - 1, quote)
      else if c == ',' && depth == 0 then [acc] + Args(s[1..], "", depth, quote)
      else Args(s[1..], acc + [c], depth, quote)
  }

  predicate IsTrans(spec: string)
  {
    |spec| >= 8 && LowerAll(spec[..6]) == "trans(" && spec[|spec| - 1] == ')'
  }

  function StripAll(a: seq<string>): (r: seq<string>)
    ensures |r| == |a| && forall i :: 0 <= i < |a| ==> r[i] == Strip(a[i], SPACES)
  {
    seq(|a|, i requires 0 <= i < |a| => Strip(a[i], SPACES))
  }

  /** The arguments of a TRANS expression, quotes left on; [] when it is not one. */
  function TransArgs(spec: string): seq<string>
  {
    var t := Strip(spec, BLANKS);
    if !IsTrans(t) then [] else StripAll(Args(t[6..|t| - 1], "", 0, NOQUOTE))
  }

  /** Argument `i` as it fits the 256-byte buffer, "" when there is none. */
  function Arg(spec: string, i: nat): string
  {
    var a := TransArgs(spec);
    if i < |a| then Cut(a[i], 256) else ""
  }

  /** The four buffers once the raw pieces `raw` have been seen. */
  function Buffers(raw: seq<string>): (a: seq<string>)
    ensures |a| == 4
  {
    seq(4, i requires 0 <= i => if i < |raw| then Cut(Strip(raw[i], SPACES), 256) else "")
  }

  method TransSplit(spec: string) returns (n: nat, a: seq<string>)
    ensures n == |TransArgs(spec)|
    ensures a == [Arg(spec, 0), Arg(spec, 1), Arg(spec, 2), Arg(spec, 3)]
  {
    a := ["", "", "", ""];
    n := 0;
    var t := Strip(spec, BLANKS);
    if !IsTrans(t) {
      return;
    }
    var raw := ScanArgs(t[6..|t| - 1]);
    n := |raw|;
    a := Buffers(raw);
  }

  /** The character loop of trans_split over the text between the brackets. */
  method ScanArgs(body: string) returns (raw: seq<string>)
    ensures raw == Args(body, "", 0, NOQUOTE)
  {
    hide Args;
    var depth, quote, start, p := 0, NOQUOTE, 0, 0;
    raw := [];
    assert body[0..] == body && body[0..0] == "";
    while p < |body|
      invariant 0 <= start <= p <= |body|
      invariant Args(body, "", 0, NOQUOTE) == raw + Args(body[p..], body[start..p], depth, quote)
    {
      ArgsStep(body, start, p, depth, quote);
      var c := body[p];
      if quote != NOQUOTE {
        if c == quote {
          quote := NOQUOTE;
        }
      } else if QuoteChar(c) {
        quote := c;
      } else if c == '(' {
        depth := depth + 1;
      } else if c == ')' {
        depth := depth - 1;
      } else if c == ',' && depth == 0 {
        assert raw + ([body[start..p]] + Args(body[p + 1..], "", depth, quote)) ==
               (raw + [body[start..p]]) + Args(body[p + 1..], "", depth, quote);
        raw := raw + [body[start..p]];
        start := p + 1;
        assert body[start..p + 1] == "";
      }
      p := p + 1;
    }
    assert body[p..] == "";
    ArgsEnd(body[start..p], depth, quote);
    raw := raw + [body[start..p]];
  }

  lemma ArgsEnd(acc: string, depth: int, quote: char)
    ensures Args("", acc, depth, quote) == [acc]
  {}

  lemma ArgsStep(body: string, start: nat, p: nat, depth: int, quote: char)
    requires start <= p < |body|
    ensures var c, next := body[p], Args(body[p..], body[start..p], depth, quote);
      next ==
        if quote != NOQUOTE then Args(body[p + 1..], body[start..p + 1], depth, if c == quote then NOQUOTE else quote)
        else if QuoteChar(c) then Args(body[p + 1..], body[start..p + 1], depth, c)
        else if c == '(' then Args(body[p + 1..], body[start..p + 1], depth + 1, quote)
        else if c == ')' then Args(body[p + 1..], body[start..p + 1], depth - 1, quote)
        else if c == ',' && depth == 0 then [body[start..p]] + Args(body[p + 1..], "", depth, quote)
        else Args(body[p + 1..], body[start..p + 1], depth, quote)
  {
    assert body[p..][1..] == body[p + 1..];
    assert body[start..p] + [body[p]] == body[start..p + 1];
  }

  function Unquote(s: string): string
  {
    if |s| >= 2 && QuoteChar(s[0]) && s[|s| - 1] == s[0] then s[1..|s| - 1] else s
  }

  // ---- the dictionaries, through either backing --------------------------

  /** One item of a dictionary: its blob, attributes separated by newlines. */
  datatype Entry = Entry(name: string, text: string)

  /** `<file>.DICT` of every file, entries in the order the backing lists them. */
  type Dicts = map<string, seq<Entry>>

  function Items(ds: Dicts, file: string): seq<Entry> { if file in ds then ds[file] else [] }

  function Lookup(es: seq<Entry>, name: string): Option<string>
  {
    if es == [] then None
    else if es[0].name == name then Some(es[0].text)
    else Lookup(es[1..], name)
  }

  /** ds_read */
  function DsRead(ds: Dicts, file: string, item: string): Option<string> { Lookup(Items(ds, file), item) }

  predicate TypeIs(text: string, upper: char, lower: char)
  {
    var ty := Attr(text, NL, 1);
    ty != "" && (ty[0] == upper || ty[0] == lower)
  }

  function Loc(text: string): string { Cut(Attr(text, NL, 2), 64) }

  /** A D item describing attribute `attr`. */
  predicate Describes(e: Entry, attr: int)
  {
    && (e.name == "" || e.name[0] != '%')
    && TypeIs(e.text, 'D', 'd')
    && Loc(e.text) != "" && Atoi(Loc(e.text)) == attr
  }

  /** `name` is the least name, in strcmp order, of an item describing `attr`. */
  ghost predicate LeastName(es: seq<Entry>, attr: int, name: string)
  {
    && (exists i :: 0 <= i < |es| && Describes(es[i], attr) && es[i].name == name)
    && forall i :: 0 <= i < |es| && Describes(es[i], attr) ==> !Before(es[i].name, name)
  }

  /** The running answer of ds_name_for_attr; "" is none yet. */
  function Named(es: seq<Entry>, attr: int, best: string): string
  {
    if es == [] then best
    else
      var e := es[0];
      Named(es[1..], attr,
            if Describes(e, attr) && (best == "" || Before(e.name, best)) then e.name else best)
  }

  /** ds_name_for_attr, None for "no such item". */
  function NameFor(ds: Dicts, file: string, attr: int): Option<string>
  {
    if attr <= 0 then None
    else
      var name := Named(Items(ds, file), attr, "");
      if name == "" then None else Some(name)
  }

  method DsNameForAttr(ds: Dicts, file: string, attr: int) returns (out: Option<string>)
    ensures out == NameFor(ds, file, attr)
  {
    if attr <= 0 {
      return None;
    }
    var es := Items(ds, file);
    var best := "";
    var i := 0;
    assert es[0..] == es;
    while i < |es|
      invariant 0 <= i <= |es|
      invariant Named(es, attr, "") == Named(es[i..], attr, best)
    {
      assert es[i..][0] == es[i] && es[i..][1..] == es[i + 1..];
      var e := es[i];
      if (e.name == "" || e.name[0] != '%') && e.text != "" {
        var ty := AttrOf(e.text, NL, 1, 8);
        var loc := AttrOf(e.text, NL, 2, 64);
        if ty != "" && (ty[0] == 'D' || ty[0] == 'd') && Atoi(loc) == attr && loc != "" {
          if best == "" || Before(e.name, best) {
            best := e.name;
          }
        }
      }
      i := i + 1;
    }
    if best == "" {
      return None;
    }
    return Some(best);
  }

  predicate Named1(es: seq<Entry>) { forall i :: 0 <= i < |es| ==> es[i].name != "" }

  lemma {:induction false} NamedIsLeast(es: seq<Entry>, attr: int, best: string)
    requires Named1(es)
    ensures var r := Named(es, attr, best);
      && (r == best || exists i :: 0 <= i < |es| && Describes(es[i], attr) && es[i].name == r)
      && (best != "" ==> r != "" && !Before(best, r))
      && (forall i :: 0 <= i < |es| && Describes(es[i], attr) ==> r != "" && !Before(es[i].name, r))
  {
    BeforeTotal(best, best);
    if es == [] {
    } else {
      var e := es[0];
      var b := if Describes(e, attr) && (best == "" || Before(e.name, best)) then e.name else best;
      var r := Named(es[1..], attr, b);
      NamedIsLeast(es[1..], attr, b);
      assert forall i :: 1 <= i < |es| ==> es[i] == es[1..][i - 1];
      if b != "" {
        BeforeTotal(b, b);
        if Before(best, r) && best != "" {
          if b != best {
            assert b == e.name && Before(e.name, best);
            BeforeTransitive(e.name, best, r);
          }
          assert false;
        }
        if Describes(e, attr) && Before(e.name, r) {
          BeforeTotal(e.name, best);
          if b != e.name && best != e.name {
            BeforeTransitive(b, e.name, r);
          }
        }
      }
      if r == b && b == e.name && r != best {
        assert Describes(es[0], attr) && es[0].name == r;
      }
      if r != b {
        var k :| 0 <= k < |es[1..]| && Describes(es[1..][k], attr) && es[1..][k].name == r;
        assert es[k + 1].name == r;
      }
    }
  }

  /** ds_name_for_attr answers exactly when the dictionary describes the attribute,
      and with the least such name, whatever order the backing lists items in. */
  lemma NameForIsLeast(ds: Dicts, file: string, attr: int)
    requires attr > 0 && Named1(Items(ds, file))
    ensures NameFor(ds, file, attr).Some? <==>
            exists i :: 0 <= i < |Items(ds, file)| && Describes(Items(ds, file)[i], attr)
    ensures NameFor(ds, file, attr).Some? ==> LeastName(Items(ds, file), attr, NameFor(ds, file, attr).value)
  {
    NamedIsLeast(Items(ds, file), attr, "");
  }

  /** Git's own guarantee for a directory: names present, and no two alike. */
  predicate GoodItems(es: seq<Entry>)
  {
    && Named1(es)
    && forall i, j :: 0 <= i < j < |es| ==> es[i].name != es[j].name
  }

  lemma {:induction false} LookupUnique(es: seq<Entry>, i: nat)
    requires i < |es| && GoodItems(es)
    ensures Lookup(es, es[i].name) == Some(es[i].text)
  {
    if i == 0 {
    } else {
      assert es[1..][i - 1] == es[i];
      LookupUnique(es[1..], i - 1);
    }
  }

  // ---- canonical -> UniData ----------------------------------------------

  function Control(a: string): string { var c := Unquote(Cut(a, 16)); if c == "" then "X" else c }

  function Quoted(s: string): string { "'" + s + "'" }

  /** TRANS( file , key , target , control ) with its four arguments spelt out. */
  function Call(file: string, key: string, target: string, ctl: string): string
  {
    "TRANS(" + file + "," + key + "," + target + "," + ctl + ")"
  }

  function Print(file: string, key: string, target: string, ctl: string): string
  {
    Call(Quoted(file), key, if IsNum(target) then target else Quoted(target), Quoted(ctl))
  }

  /** The expression of item `item` when it is an I-type holding a TRANS. */
  function ChainSpec(ds: Dicts, file: string, item: string): Option<string>
  {
    match DsRead(ds, file, item)
    case None => None
    case Some(text) =>
      var spec := Cut(Attr(text, NL, 2), 256);
      if TypeIs(text, 'I', 'i') && |TransArgs(spec)| >= 3 then Some(spec) else None
  }

  /** The name UniData needs for a key; None when a number cannot be named. */
  function KeyName(ds: Dicts, file: string, key: string): Option<string>
  {
    if !IsNum(key) then Some(key)
    else match NameFor(ds, file, Atoi(key)) { case Some(n) => Some(Cut(n, 256)) case None => None }
  }

  /** ispec_expand, before its result is cut to the caller's buffer. */
  function Expand(ds: Dicts, file: string, key: string, target: string, ctl: string, depth: nat): string
    decreases 8 - depth
  {
    var tgt := Unquote(target);
    var link := if depth < 8 && !IsNum(tgt) then ChainSpec(ds, file, tgt) else None;
    if link.Some? && KeyName(ds, file, Unquote(Arg(link.value, 1))).Some? then
      var spec := link.value;
      var k2 := KeyName(ds, file, Unquote(Arg(spec, 1))).value;
      Expand(ds, Unquote(Arg(spec, 0)), Cut(Call(Quoted(file), key, Quoted(k2), Quoted(ctl)), 1024),
             Arg(spec, 2), Control(Arg(spec, 3)), depth + 1)
    else Print(file, key, tgt, ctl)
  }

  /** ispec_to_udt */
  function ToUdt(ds: Dicts, self: string, spec: string): Option<string>
  {
    if |TransArgs(spec)| < 3 then None
    else
      match KeyName(ds, self, Unquote(Arg(spec, 1)))
      case None => None
      case Some(key) =>
        Some(Cut(Expand(ds, Unquote(Arg(spec, 0)), key, Arg(spec, 2), Control(Arg(spec, 3)), 0), 2048))
  }

  // ---- UniData -> canonical ----------------------------------------------

  predicate StartsTrans(s: string) { |s| >= 6 && LowerAll(s[..6]) == "trans(" }

  /** The attribute number behind a key name; None when it has none. */
  function KeyNumber(ds: Dicts, self: string, key: string): Option<string>
  {
    if IsNum(key) then Some(Cut(key, 32))
    else
      match DsRead(ds, self, key)
      case None => None
      case Some(text) => if IsNum(Loc(text)) then Some(Cut(Loc(text), 32)) else None
  }

  /** ispec_to_open */
  function ToOpen(ds: Dicts, self: string, spec: string): Option<string>
  {
    if |TransArgs(spec)| < 3 || StartsTrans(Arg(spec, 1)) then None
    else
      match KeyNumber(ds, self, Unquote(Arg(spec, 1)))
      case None => None
      case Some(num) =>
        Some(Cut(Call(Unquote(Arg(spec, 0)), num, Unquote(Arg(spec, 2)), Control(Arg(spec, 3))), 1024))
  }

  // ---- how the splitter reads what the printer wrote ---------------------

  /** Depth and quote after scanning `s`. */
  function After(s: string, depth: int, quote: char): (int, char)
  {
    if s == "" then (depth, quote)
    else
      var c := s[0];
      if quote != NOQUOTE then After(s[1..], depth, if c == quote then NOQUOTE else quote)
      else if QuoteChar(c) then After(s[1..], depth, c)
      else if c == '(' then After(s[1..], depth + 1, quote)
      else if c == ')' then After(s[1..], depth - 1, quote)
      else After(s[1..], depth, quote)
  }

  /** No comma at depth 0 or below, outside quotes. */
  predicate NoBreak(s: string, depth: int, quote: char)
  {
    s == "" ||
    var c := s[0];
    if quote != NOQUOTE then NoBreak(s[1..], depth, if c == quote then NOQUOTE else quote)
    else if QuoteChar(c) then NoBreak(s[1..], depth, c)
    else if c == '(' then NoBreak(s[1..], depth + 1, quote)
    else if c == ')' then NoBreak(s[1..], depth - 1, quote)
    else (c != ',' || depth > 0) && NoBreak(s[1..], depth, quote)
  }

  /** Text that is one argument wherever it stands. */
  predicate Whole(s: string) { NoBreak(s, 0, NOQUOTE) && After(s, 0, NOQUOTE) == (0, NOQUOTE) }

  lemma {:induction false} ArgsRun(t: string, rest: string, acc: string, d: int, q: char)
    requires NoBreak(t, d, q)
    ensures Args(t + rest, acc, d, q) == Args(rest, acc + t, After(t, d, q).0, After(t, d, q).1)
  {
    if t == "" {
      assert t + rest == rest && acc + t == acc;
    } else {
      var c := t[0];
      assert (t + rest)[1..] == t[1..] + rest;
      assert acc + t == (acc + [c]) + t[1..];
      if q != NOQUOTE {
        ArgsRun(t[1..], rest, acc + [c], d, if c == q then NOQUOTE else q);
      } else if QuoteChar(c) {
        ArgsRun(t[1..], rest, acc + [c], d, c);
      } else if c == '(' {
        ArgsRun(t[1..], rest, acc + [c], d + 1, q);
      } else if c == ')' {
        ArgsRun(t[1..], rest, acc + [c], d - 1, q);
      } else {
        ArgsRun(t[1..], rest, acc + [c], d, q);
      }
    }
  }

  /** One argument and its comma. */
  lemma ArgsOne(t: string, rest: string)
    requires Whole(t)
    ensures Args(t + "," + rest, "", 0, NOQUOTE) == [t] + Args(rest, "", 0, NOQUOTE)
    ensures Args(t, "", 0, NOQUOTE) == [t]
  {
    assert t + "," + rest == t + ("," + rest);
    ArgsRun(t, "," + rest, "", 0, NOQUOTE);
    assert ("," + rest)[1..] == rest && "" + t == t;
    ArgsRun(t, "", "", 0, NOQUOTE);
    assert t + "" == t;
  }

  lemma {:induction false} AfterConcat(a: string, b: string, d: int, q: char)
    ensures var m := After(a, d, q);
      && After(a + b, d, q) == After(b, m.0, m.1)
      && (NoBreak(a + b, d, q) <==> NoBreak(a, d, q) && NoBreak(b, m.0, m.1))
  {
    if a == "" {
      assert a + b == b;
    } else {
      var c := a[0];
      assert (a + b)[1..] == a[1..] + b;
      if q != NOQUOTE {
        AfterConcat(a[1..], b, d, if c == q then NOQUOTE else q);
      } else if QuoteChar(c) {
        AfterConcat(a[1..], b, d, c);
      } else if c == '(' {
        AfterConcat(a[1..], b, d + 1, q);
      } else if c == ')' {
        AfterConcat(a[1..], b, d - 1, q);
      } else {
        AfterConcat(a[1..], b, d, q);
      }
    }
  }

  lemma {:induction false} Deeper(s: string, d: int, k: nat, q: char)
    ensures After(s, d + k, q) == (After(s, d, q).0 + k, After(s, d, q).1)
    ensures NoBreak(s, d, q) ==> NoBreak(s, d + k, q)
  {
    if s == "" {
    } else {
      var c := s[0];
      if q != NOQUOTE {
        Deeper(s[1..], d, k, if c == q then NOQUOTE else q);
      } else if QuoteChar(c) {
        Deeper(s[1..], d, k, c);
      } else if c == '(' {
        Deeper(s[1..], d + 1, k, q);
      } else if c == ')' {
        Deeper(s[1..], d - 1, k, q);
      } else {
        Deeper(s[1..], d, k, q);
      }
    }
  }

  lemma {:induction false} InQuote(s: string, d: int, q: char)
    requires q != NOQUOTE && q !in s
    ensures After(s, d, q) == (d, q) && NoBreak(s, d, q)
  {
    if s == "" {
    } else {
      InQuote(s[1..], d, q);
    }
  }

  /** Free of everything the splitter looks at. */
  predicate Plain(s: string)
  {
    forall c :: c in s ==> !QuoteChar(c) && c != '(' && c != ')' && c != ','
  }

  lemma {:induction false} PlainWhole(s: string, d: int)
    requires Plain(s)
    ensures After(s, d, NOQUOTE) == (d, NOQUOTE)
    ensures (d > 0 || Plain(s)) ==> NoBreak(s, d, NOQUOTE)
  {
    if s == "" {
    } else {
      PlainWhole(s[1..], d);
    }
  }

  lemma QuotedWhole(s: string)
    requires '\'' !in s
    ensures Whole(Quoted(s)) && Edgeless(Quoted(s), SPACES)
    ensures Unquote(Quoted(s)) == s
  {
    var t := Quoted(s);
    assert t[1..] == s + "'";
    AfterConcat(s, "'", 0, '\'');
    InQuote(s, 0, '\'');
    assert "'"[1..] == "";
    assert t[1..|t| - 1] == s;
  }

  lemma StripEdgeless(s: string, blanks: set<char>)
    requires Edgeless(s, blanks)
    ensures Strip(s, blanks) == s
  {}

  /** Four whole arguments between the brackets are read back as they were. */
  lemma FourArgs(a: string, b: string, c: string, d: string)
    requires Whole(a) && Whole(b) && Whole(c) && Whole(d)
    requires Edgeless(a, SPACES) && Edgeless(b, SPACES) && Edgeless(c, SPACES) && Edgeless(d, SPACES)
    ensures var t := Call(a, b, c, d);
            TransArgs(t) == [a, b, c, d] && Whole(t) && Edgeless(t, BLANKS) && StartsTrans(t)
  {
    hide Args, Strip, LowerAll, NoBreak, After;
    var body := a + "," + b + "," + c + "," + d;
    var t := Call(a, b, c, d);
    assert Whole(t) by { TransWhole(a, b, c, d); }
    BodyArgs(a, b, c, d);
    assert t == "TRANS(" + body + ")";
    Wrapped(t, body);
    StripEdgeless(a, SPACES);
    StripEdgeless(b, SPACES);
    StripEdgeless(c, SPACES);
    StripEdgeless(d, SPACES);
    assert StripAll([a, b, c, d]) == [a, b, c, d];
  }

  lemma Wrapped(t: string, body: string)
    requires t == "TRANS(" + body + ")" && |body| >= 1
    ensures Strip(t, BLANKS) == t && IsTrans(t) && t[6..|t| - 1] == body && Edgeless(t, BLANKS) && StartsTrans(t)
  {
    assert t[..6] == "TRANS(";
    assert LowerAll("TRANS(") == "trans(";
    assert t[0] == 'T' && t[|t| - 1] == ')';
    StripEdgeless(t, BLANKS);
  }

  lemma BodyArgs(a: string, b: string, c: string, d: string)
    requires Whole(a) && Whole(b) && Whole(c) && Whole(d)
    ensures Args(a + "," + b + "," + c + "," + d, "", 0, NOQUOTE) == [a, b, c, d]
  {
    hide Args, Whole;
    var t2 := c + "," + d;
    var t1 := b + "," + t2;
    assert a + "," + b + "," + c + "," + d == a + "," + t1;
    ArgsOne(a, t1);
    ArgsOne(b, t2);
    ArgsOne(c, d);
    ArgsOne(d, "");
  }

  lemma TransWhole(a: string, b: string, c: string, d: string)
    requires Whole(a) && Whole(b) && Whole(c) && Whole(d)
    ensures Whole(Call(a, b, c, d))
  {
    Deeper(a, 0, 1, NOQUOTE);
    Deeper(b, 0, 1, NOQUOTE);
    Deeper(c, 0, 1, NOQUOTE);
    Deeper(d, 0, 1, NOQUOTE);
    CommaAt1();
    OpenWhole();
    var s0 := "TRANS(";
    var s1 := s0 + a;
    AfterConcat(s0, a, 0, NOQUOTE);
    var s2 := s1 + ",";
    AfterConcat(s1, ",", 0, NOQUOTE);
    var s3 := s2 + b;
    AfterConcat(s2, b, 0, NOQUOTE);
    var s4 := s3 + ",";
    AfterConcat(s3, ",", 0, NOQUOTE);
    var s5 := s4 + c;
    AfterConcat(s4, c, 0, NOQUOTE);
    var s6 := s5 + ",";
    AfterConcat(s5, ",", 0, NOQUOTE);
    var s7 := s6 + d;
    AfterConcat(s6, d, 0, NOQUOTE);
    AfterConcat(s7, ")", 0, NOQUOTE);
  }

  lemma CommaAt1()
    ensures After(",", 1, NOQUOTE) == (1, NOQUOTE) && NoBreak(",", 1, NOQUOTE)
    ensures After(")", 1, NOQUOTE) == (0, NOQUOTE) && NoBreak(")", 1, NOQUOTE)
  {
    assert ","[1..] == "" && ")"[1..] == "";
  }

  lemma OpenWhole()
    ensures After("TRANS(", 0, NOQUOTE) == (1, NOQUOTE) && NoBreak("TRANS(", 0, NOQUOTE)
  {
    PlainWhole("TRANS", 0);
    AfterConcat("TRANS", "(", 0, NOQUOTE);
    assert "TRANS" + "(" == "TRANS(";
    assert "("[1..] == "";
  }

  /** An argument buffer holds 255 bytes: the argument itself exactly when it is no longer. */
  lemma ArgIs(spec: string, i: nat)
    ensures |Arg(spec, i)| <= 255 && (i >= |TransArgs(spec)| ==> Arg(spec, i) == "")
    ensures i < |TransArgs(spec)| ==>
      Arg(spec, i) <= TransArgs(spec)[i] && (Arg(spec, i) == TransArgs(spec)[i] <==> |TransArgs(spec)[i]| <= 255)
  {
    hide TransArgs;
  }

  /** What the fixed buffers keep of a location, an item's expression and a key's name: its
      first 63, 255 and 255 bytes. */
  lemma BuffersKeep(ds: Dicts, file: string, item: string, text: string, n: string)
    ensures Loc(text) == if |Attr(text, NL, 2)| <= 63 then Attr(text, NL, 2) else Attr(text, NL, 2)[..63]
    ensures ChainSpec(ds, file, item).Some? ==>
      DsRead(ds, file, item).Some? &&
      var whole := Attr(DsRead(ds, file, item).value, NL, 2);
      ChainSpec(ds, file, item).value == if |whole| <= 255 then whole else whole[..255]
    ensures IsNum(n) && NameFor(ds, file, Atoi(n)).Some? ==>
      var whole := NameFor(ds, file, Atoi(n)).value;
      KeyName(ds, file, n) == Some(if |whole| <= 255 then whole else whole[..255])
  {
    hide TransArgs, NameFor, DsRead;
  }

  /** A nested TRANS is told by its first six bytes, in any case; a type by its first
      letter, in either. */
  lemma Beginnings(s: string)
    ensures StartsTrans(s) <==> exists word, rest :: s == word + rest && LowerAll(word) == "trans("
    ensures TypeIs(s, 'D', 'd') <==> Attr(s, NL, 1) != "" && Attr(s, NL, 1)[0] in {'D', 'd'}
    ensures TypeIs(s, 'I', 'i') <==> Attr(s, NL, 1) != "" && Attr(s, NL, 1)[0] in {'I', 'i'}
  {
    hide Attr;
    if StartsTrans(s) {
      assert s == s[..6] + s[6..];
    }
    forall word, rest | s == word + rest && LowerAll(word) == "trans(" ensures StartsTrans(s) {
      assert |LowerAll(word)| == |word| == 6;
      assert s[..6] == word;
    }
  }
}

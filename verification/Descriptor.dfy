// The account descriptor: one `key = value` grammar, a portable rendering kept in git
// and a native one kept on disk.
module Descriptor {
  import opened Text

  datatype Desc = Desc(
    name: string,
    version: string,
    description: string,
    hash: string,
    openAccount: int,
    flavour: string,
    permits: string)

  const EMPTY := Desc("", "", "", "", 0, "", "")
  const BLANK: set<char> := {' ', '\t'}
  const EDGE: set<char> := {'\n', '\r', ' ', '\t'}
  const LINE_CAP := 512
  const RULES_CAP := 2048

  /** desc_rtrim */
  function Trim(s: string): string { StripTail(s, EDGE) }

  function LineOf(l: string): string { l + [NL] }

  // ---- the parser --------------------------------------------------------

  predicate Starts(p: string, word: string)
  {
    |p| > |word| && p[..|word|] == word && p[|word|] in BLANK
  }

  /** A line of the vendor's policy. */
  predicate IsRule(p: string) { Starts(p, "permit") || Starts(p, "deny") }

  function AddRule(d: Desc, rule: string): Desc
  {
    if |d.permits| + |rule| + 2 < RULES_CAP then d.(permits := d.permits + LineOf(rule)) else d
  }

  /** atoi in a 32-bit int: strtol stops at the ends of a long, the cast keeps the low bits. */
  function AtoiInt(s: string): (r: int)
    ensures -0x8000_0000 <= r < 0x8000_0000
    ensures -0x8000_0000 <= Atoi(s) < 0x8000_0000 ==> r == Atoi(s)
  {
    var v := Atoi(s);
    var long := if v < -0x8000_0000_0000_0000 then -0x8000_0000_0000_0000
                else if v > 0x7fff_ffff_ffff_ffff then 0x7fff_ffff_ffff_ffff else v;
    (long + 0x8000_0000) % 0x1_0000_0000 - 0x8000_0000
  }

  function SetField(d: Desc, key: string, val: string): Desc
  {
    if SameFold(key, "name") then d.(name := Cut(val, 128))
    else if SameFold(key, "version") then d.(version := Cut(val, 32))
    else if SameFold(key, "description") then d.(description := Cut(val, 256))
    else if SameFold(key, "hash") then d.(hash := Cut(val, 32))
    else if SameFold(key, "openaccount") then d.(openAccount := AtoiInt(val))
    else if SameFold(key, "flavour") || SameFold(key, "flavor") then d.(flavour := Cut(val, 32))
    else d
  }

  function ApplyLine(d: Desc, line: string): Desc
  {
    var p := StripLead(Cut(line, LINE_CAP), BLANK);
    if p == "" || p[0] == '#' then d
    else if IsRule(p) then AddRule(d, Trim(p))
    else
      var eq := IndexOf(p, '=');
      if eq == |p| then d
      else SetField(d, Trim(p[..eq]), Trim(StripLead(p[eq + 1..], BLANK)))
  }

  function ApplyLines(d: Desc, lines: seq<string>): Desc
    decreases |lines|
  {
    if lines == [] then d else ApplyLines(ApplyLine(d, lines[0]), lines[1..])
  }

  function ParsedFrom(d: Desc, buf: string): Desc { ApplyLines(d, Split(buf, NL)) }

  function Parsed(buf: string): Desc { ParsedFrom(EMPTY, buf) }

  lemma BlankLine(d: Desc)
    ensures ApplyLine(d, "") == d
  {}

  /** desc_parse, a line at a time; the last one need not end in a newline. */
  method Parse(buf: string) returns (d: Desc)
    ensures d == Parsed(buf)
  {
    hide ApplyLine, Split;
    d := EMPTY;
    var i := 0;
    assert buf[0..] == buf;
    while i < |buf|
      invariant 0 <= i <= |buf|
      invariant ParsedFrom(d, buf[i..]) == Parsed(buf)
    {
      var s := i;
      i := i + IndexOf(buf[i..], NL);
      var line := buf[s..i];
      if i < |buf| {
        i := i + 1;
      }
      ScanLine(d, buf, s);
      d := ApplyLine(d, line);
    }
    assert buf[i..] == "";
    LastLine(d);
  }

  lemma ScanLine(d: Desc, buf: string, s: nat)
    requires s < |buf|
    ensures var m := s + IndexOf(buf[s..], NL);
      ParsedFrom(d, buf[s..]) == ParsedFrom(ApplyLine(d, buf[s..m]), buf[if m < |buf| then m + 1 else m..])
  {
    hide ApplyLine, Split, IndexOf;
    SplitFrom(buf, NL, s);
    var m := s + IndexOf(buf[s..], NL);
    var e := ApplyLine(d, buf[s..m]);
    if m < |buf| {
      assert ([buf[s..m]] + Split(buf[m + 1..], NL))[1..] == Split(buf[m + 1..], NL);
    } else {
      assert buf[m..] == "" && [buf[s..m]][1..] == [];
      LastLine(e);
      assert ApplyLines(e, []) == e;
    }
  }

  lemma LastLine(d: Desc)
    ensures ParsedFrom(d, "") == d
  {
    BlankLine(d);
    assert Split("", NL) == [""];
    assert ApplyLines(ApplyLine(d, ""), [""][1..]) == d;
  }

  // ---- the two renderings ------------------------------------------------

  function NameText(d: Desc): string { if d.name != "" then d.name else "account" }

  function VersionText(d: Desc): string { if d.version != "" then d.version else "1" }

  function OpenNumber(d: Desc): nat { if d.openAccount > 0 then d.openAccount else 1 }

  function Setting(key: string, val: string): string { LineOf(key + " = " + val) }

  /** A line nobody chose is not written. */
  function Optional(key: string, val: string): string { if val != "" then Setting(key, val) else "" }

  const OPEN_HEAD := "# .mv-account" + (" - open (portable)" + " account descriptor")

  function OpenText(d: Desc): string
  {
    LineOf(OPEN_HEAD) + (Setting("name", NameText(d)) + (Setting("version", VersionText(d)) +
    (Setting("openaccount", Decimal(OpenNumber(d))) + (Optional("hash", d.hash) +
    (Optional("description", d.description) + (Optional("flavour", d.flavour) + d.permits))))))
  }

  function NativeHead(tag: string): string { "# " + tag + " account descriptor" }

  function NativeText(d: Desc, tag: string): string
  {
    LineOf(NativeHead(tag)) + (Setting("name", NameText(d)) + (Setting("version", VersionText(d)) +
    (Optional("description", d.description) + (Optional("flavour", d.flavour) + d.permits))))
  }

  /** A bounded output buffer filled by snprintf, with the length it asked for. */
  class Output {
    const cap: nat
    var text: string
    var n: nat
    ghost var whole: string

    ghost predicate Valid()
      reads this
    {
      && cap > 0
      && text == Cut(whole, cap)
      && (|whole| < cap ==> n == |whole|) && (|whole| >= cap ==> n >= cap)
    }

    constructor (cap: nat)
      requires cap > 0
      ensures Valid() && whole == "" && this.cap == cap
    {
      this.cap := cap;
      text, n, whole := "", 0, "";
    }

    /** One guarded snprintf: nothing more is written once the buffer is full. */
    method Add(s: string, ghost rest: string)
      requires Valid()
      modifies this
      ensures Valid() && whole + rest == old(whole) + (s + rest)
    {
      whole := whole + s;
      if n < cap {
        text := text + Cut(s, cap - n);
        n := n + |s|;
      }
    }

    method AddOptional(key: string, val: string, ghost rest: string)
      requires Valid()
      modifies this
      ensures Valid() && whole + rest == old(whole) + (Optional(key, val) + rest)
    {
      if val != "" {
        Add(Setting(key, val), rest);
      } else {
        assert "" + rest == rest;
      }
    }

    /** The last piece written, the buffer holds what was asked for. */
    method Close(ghost asked: string) returns (out: string, n: nat)
      requires Valid() && whole + "" == asked
      ensures out == Cut(asked, cap)
      ensures (|asked| < cap ==> n == |asked|) && (|asked| >= cap ==> n >= cap)
    {
      assert whole + "" == whole;
      out, n := text, this.n;
    }
  }

  /** desc_render_open */
  method RenderOpen(d: Desc, cap: nat) returns (out: string, n: nat)
    requires cap > 0
    ensures out == Cut(OpenText(d), cap)
    ensures |OpenText(d)| < cap ==> n == |OpenText(d)|
    ensures |OpenText(d)| >= cap ==> n >= cap
  {
    hide Setting, Optional, Decimal, LineOf, Cut;
    ghost var r5 := Optional("flavour", d.flavour) + d.permits;
    ghost var r4 := Optional("description", d.description) + r5;
    ghost var r3 := Optional("hash", d.hash) + r4;
    ghost var r2 := Setting("openaccount", Decimal(OpenNumber(d))) + r3;
    ghost var r1 := Setting("version", VersionText(d)) + r2;
    var o := new Output(cap);
    o.Add(LineOf(OPEN_HEAD), Setting("name", NameText(d)) + r1);
    o.Add(Setting("name", NameText(d)), r1);
    o.Add(Setting("version", VersionText(d)), r2);
    o.Add(Setting("openaccount", Decimal(OpenNumber(d))), r3);
    o.AddOptional("hash", d.hash, r4);
    o.AddOptional("description", d.description, r5);
    o.AddOptional("flavour", d.flavour, d.permits);
    assert d.permits + "" == d.permits;
    o.Add(d.permits, "");
    out, n := o.Close(OpenText(d));
  }

  /** desc_render_native_as */
  method RenderNative(d: Desc, tag: string, cap: nat) returns (out: string, n: nat)
    requires cap > 0
    ensures out == Cut(NativeText(d, tag), cap)
    ensures |NativeText(d, tag)| < cap ==> n == |NativeText(d, tag)|
    ensures |NativeText(d, tag)| >= cap ==> n >= cap
  {
    hide Setting, Optional, LineOf, Cut;
    ghost var r3 := Optional("flavour", d.flavour) + d.permits;
    ghost var r2 := Optional("description", d.description) + r3;
    ghost var r1 := Setting("version", VersionText(d)) + r2;
    var o := new Output(cap);
    o.Add(LineOf(NativeHead(tag)), Setting("name", NameText(d)) + r1);
    o.Add(Setting("name", NameText(d)), r1);
    o.Add(Setting("version", VersionText(d)), r2);
    o.AddOptional("description", d.description, r3);
    o.AddOptional("flavour", d.flavour, d.permits);
    assert d.permits + "" == d.permits;
    o.Add(d.permits, "");
    out, n := o.Close(NativeText(d, tag));
  }

  // ---- what a parsed descriptor can be -----------------------------------

  predicate Field(v: string, cap: nat)
  {
    |v| < cap && NL !in v && (v != "" ==> v[0] !in BLANK)
  }

  /** A rule as it is kept; a keyword with nothing after it loses the blank that made
      it a rule. */
  predicate RuleLine(l: string)
  {
    |l| < LINE_CAP && NL !in l && l != "" && l[|l| - 1] !in EDGE && (IsRule(l) || l == "permit" || l == "deny")
  }

  predicate WholeRules(text: string)
    decreases |text|
  {
    text == "" ||
    var m := IndexOf(text, NL);
    m < |text| && RuleLine(text[..m]) && WholeRules(text[m + 1..])
  }

  /** The rules a parser still takes for rules. */
  function LiveRules(text: string): (r: string)
    ensures |r| <= |text|
    decreases |text|
  {
    if text == "" then ""
    else
      var m := IndexOf(text, NL);
      if m == |text| then ""
      else (if IsRule(text[..m]) then LineOf(text[..m]) else "") + LiveRules(text[m + 1..])
  }

  predicate WellFormed(d: Desc)
  {
    && Field(d.name, 128) && Field(d.version, 32) && Field(d.description, 256)
    && Field(d.hash, 32) && Field(d.flavour, 32)
    && WholeRules(d.permits) && |d.permits| + 1 < RULES_CAP
    && d.openAccount < 0x8000_0000
  }

  /** Trailing blanks that a cut left behind, and bare keywords, go. */
  function Settle(d: Desc): Desc
  {
    d.(name := Trim(d.name), version := Trim(d.version), description := Trim(d.description),
       hash := Trim(d.hash), flavour := Trim(d.flavour), permits := LiveRules(d.permits))
  }

  predicate Clean(d: Desc) { WellFormed(d) && Settle(d) == d }

  /** The defaults the portable form fills in. */
  function Filled(d: Desc): Desc
  {
    d.(name := NameText(d), version := VersionText(d), openAccount := OpenNumber(d))
  }

  lemma CutField(val: string, cap: nat)
    requires cap > 0 && NL !in val
    ensures Field(Cut(Trim(StripLead(val, BLANK)), cap), cap)
  {}

  lemma {:induction false} RulesAppend(text: string, rule: string)
    requires WholeRules(text) && RuleLine(rule)
    ensures WholeRules(text + LineOf(rule))
    decreases |text|
  {
    hide RuleLine;
    var all := text + LineOf(rule);
    if text == "" {
      assert NL !in rule by { RuleIsLine(rule); }
      FirstAt(all, |rule|, NL);
      assert all[..|rule|] == rule && all[|rule| + 1..] == "";
    } else {
      var m := IndexOf(text, NL);
      assert forall j :: 0 <= j < m ==> text[..m][j] == text[j];
      FirstAt(all, m, NL);
      assert all[..m] == text[..m] && all[m + 1..] == text[m + 1..] + LineOf(rule);
      RulesAppend(text[m + 1..], rule);
    }
  }

  lemma RuleIsLine(rule: string)
    requires RuleLine(rule)
    ensures NL !in rule && rule != ""
  {}

  /** A rule trimmed for keeping. */
  lemma TrimmedRule(p: string)
    requires IsRule(p) && NL !in p && |p| < LINE_CAP
    ensures RuleLine(Trim(p))
  {
    KeepsWord(p, if Starts(p, "permit") then "permit" else "deny");
  }

  lemma KeepsWord(p: string, word: string)
    requires Starts(p, word) && word != "" && word[|word| - 1] !in EDGE
    ensures var t := Trim(p); t == word || Starts(t, word)
    decreases |p|
  {
    if p[|p| - 1] in EDGE && |p| > |word| + 1 {
      KeepsWord(p[..|p| - 1], word);
    } else if p[|p| - 1] in EDGE {
      assert p[..|p| - 1] == word;
    }
  }

  lemma LineKeepsForm(d: Desc, line: string)
    requires WellFormed(d) && NL !in line
    ensures WellFormed(ApplyLine(d, line))
  {
    hide IsRule, Trim, SetField, AddRule, WellFormed, StripLead;
    var p := StripLead(Cut(line, LINE_CAP), BLANK);
    if p != "" && p[0] != '#' {
      if IsRule(p) {
        RuleKeepsForm(d, p);
      } else {
        var eq := IndexOf(p, '=');
        if eq < |p| {
          FieldKeepsForm(d, Trim(p[..eq]), p[eq + 1..]);
        }
      }
    }
  }

  lemma RuleKeepsForm(d: Desc, p: string)
    requires WellFormed(d) && IsRule(p) && NL !in p && |p| < LINE_CAP
    ensures WellFormed(AddRule(d, Trim(p)))
  {
    hide IsRule, Trim, RuleLine, WholeRules, Field;
    TrimmedRule(p);
    RulesAppend(d.permits, Trim(p));
  }

  lemma FieldKeepsForm(d: Desc, key: string, val: string)
    requires WellFormed(d) && NL !in val
    ensures WellFormed(SetField(d, key, Trim(StripLead(val, BLANK))))
  {
    hide SameFold, WholeRules, Trim, Field, Cut, StripLead;
    CutField(val, 128);
    CutField(val, 32);
    CutField(val, 256);
  }

  lemma {:induction false} LinesKeepForm(d: Desc, lines: seq<string>)
    requires WellFormed(d) && Free(lines, NL)
    ensures WellFormed(ApplyLines(d, lines))
    decreases |lines|
  {
    hide WellFormed, ApplyLine;
    if lines == [] {
    } else {
      LineKeepsForm(d, lines[0]);
      LinesKeepForm(ApplyLine(d, lines[0]), lines[1..]);
    }
  }

  /** Any text at all parses to a well-formed descriptor. */
  lemma ParsedWellFormed(buf: string)
    ensures WellFormed(Parsed(buf))
  {
    hide ApplyLines;
    JoinSplit(buf, NL);
    LinesKeepForm(EMPTY, Split(buf, NL));
  }

  // ---- parsing a rendering -----------------------------------------------

  /** The parser takes one line off the front. */
  lemma OneLine(d: Desc, l: string, rest: string)
    requires NL !in l
    ensures ParsedFrom(d, LineOf(l) + rest) == ParsedFrom(ApplyLine(d, l), rest)
  {
    hide ApplyLine, Split;
    SplitHead(l, rest, NL);
    assert ([l] + Split(rest, NL))[1..] == Split(rest, NL);
  }

  lemma HeadLine(d: Desc, l: string, rest: string)
    requires NL !in l && |l| > 1 && l[0] == '#'
    ensures ParsedFrom(d, LineOf(l) + rest) == ParsedFrom(d, rest)
  {
    hide Split;
    OneLine(d, l, rest);
  }

  /** A key no blank, sign or policy word stands in. */
  predicate Key(key: string)
  {
    && 0 < |key| < 16 && key[0] != '#'
    && forall i :: 0 <= i < |key| ==> key[i] !in EDGE && key[i] != '='
  }

  lemma SettingLine(d: Desc, key: string, val: string, rest: string)
    requires Key(key) && key != "permit" && key != "deny" && |val| < 256 && NL !in val
    requires val != "" ==> val[0] !in BLANK
    ensures ParsedFrom(d, Setting(key, val) + rest) == ParsedFrom(SetField(d, key, Trim(val)), rest)
  {
    hide Split, SetField, ParsedFrom, ApplyLine;
    OneLine(d, key + " = " + val, rest);
    SettingApplied(d, key, val);
  }

  lemma SettingApplied(d: Desc, key: string, val: string)
    requires Key(key) && key != "permit" && key != "deny" && |val| < 256 && NL !in val
    requires val != "" ==> val[0] !in BLANK
    ensures ApplyLine(d, key + " = " + val) == SetField(d, key, Trim(val))
  {
    hide SetField, IsRule, StripTail, StripLead;
    var l := key + " = " + val;
    NotRule(key, l);
    NoLead(l);
    NoLead(val);
    var m := |key| + 1;
    FirstAt(l, m, '=');
    assert l[..m] == key + [' '] && l[m + 1..] == [' '] + val;
    OneBlank(key, val);
  }

  lemma NoLead(s: string)
    requires s != "" ==> s[0] !in BLANK
    ensures StripLead(s, BLANK) == s
  {}

  lemma OneBlank(key: string, val: string)
    requires Key(key)
    ensures Trim(key + [' ']) == key && StripLead([' '] + val, BLANK) == StripLead(val, BLANK)
  {
    var s := key + [' '];
    assert s[..|s| - 1] == key && s[|s| - 1] == ' ' && key[|key| - 1] !in EDGE;
    assert StripTail(s, EDGE) == StripTail(key, EDGE) == key;
    assert ([' '] + val)[1..] == val;
  }

  lemma NotRule(key: string, l: string)
    requires Key(key) && key != "permit" && key != "deny"
    requires |l| > |key| && l[..|key|] == key && l[|key|] == ' '
    ensures !IsRule(l)
  {
    NoWord(key, l, "permit");
    NoWord(key, l, "deny");
  }

  lemma NoWord(key: string, l: string, word: string)
    requires Key(key) && key != word && (forall i :: 0 <= i < |word| ==> word[i] != ' ')
    requires |l| > |key| && l[..|key|] == key && l[|key|] == ' '
    ensures !Starts(l, word)
  {
    assert |key| < |word| < |l| ==> l[..|word|][|key|] == ' ';
    assert |word| < |key| ==> l[..|key|][|word|] == l[|word|];
  }

  lemma OptionalLine(d: Desc, key: string, val: string, rest: string)
    requires Key(key) && key != "permit" && key != "deny" && |val| < 256 && NL !in val
    requires val != "" ==> val[0] !in BLANK
    ensures ParsedFrom(d, Optional(key, val) + rest) ==
      ParsedFrom(if val != "" then SetField(d, key, Trim(val)) else d, rest)
  {
    hide ParsedFrom, SetField, Setting;
    if val != "" {
      SettingLine(d, key, val, rest);
    } else {
      assert Optional(key, val) + rest == rest;
    }
  }

  lemma RuleApplied(d: Desc, l: string)
    requires RuleLine(l) && |d.permits| + |l| + 2 < RULES_CAP
    ensures ApplyLine(d, l) == if IsRule(l) then d.(permits := d.permits + LineOf(l)) else d
  {
    hide StripLead, StripTail, SetField;
    NoLead(l);
    NoTail(l);
    if !IsRule(l) {
      assert forall i :: 0 <= i < |l| ==> l[i] != '=';
      FirstAt(l, |l|, '=');
    }
  }

  lemma NoTail(s: string)
    requires s != "" ==> s[|s| - 1] !in EDGE
    ensures Trim(s) == s
  {}

  /** The first of some policy lines. */
  lemma FirstRule(text: string)
    requires text != "" && WholeRules(text)
    ensures var m := IndexOf(text, NL);
      && m < |text| && text == LineOf(text[..m]) + text[m + 1..]
      && NL !in text[..m] && RuleLine(text[..m]) && WholeRules(text[m + 1..])
      && LiveRules(text) == (if IsRule(text[..m]) then LineOf(text[..m]) else "") + LiveRules(text[m + 1..])
  {
    hide RuleLine, IsRule, IndexOf, LiveRules, WholeRules, LineOf;
    var m := IndexOf(text, NL);
    Unfold(text, m);
    RuleIsLine(text[..m]);
    CutLine(text, m);
  }

  lemma CutLine(text: string, m: nat)
    requires m < |text| && text[m] == NL
    ensures text == LineOf(text[..m]) + text[m + 1..]
  {}

  lemma Unfold(text: string, m: nat)
    requires text != "" && WholeRules(text) && m == IndexOf(text, NL)
    ensures m < |text| && RuleLine(text[..m]) && WholeRules(text[m + 1..])
    ensures LiveRules(text) == (if IsRule(text[..m]) then LineOf(text[..m]) else "") + LiveRules(text[m + 1..])
  {
    hide RuleLine, IsRule, IndexOf, LineOf;
  }

  /** Policy lines come back in order. */
  lemma {:induction false} RulesBack(d: Desc, text: string)
    requires WholeRules(text) && |d.permits| + |text| + 1 < RULES_CAP
    ensures ParsedFrom(d, text) == d.(permits := d.permits + LiveRules(text))
    decreases |text|
  {
    if text == "" {
      LastLine(d);
      assert d.permits + "" == d.permits;
    } else {
      hide ApplyLine, RuleLine, IsRule, ParsedFrom, IndexOf, WholeRules, LiveRules;
      FirstRule(text);
      var m := IndexOf(text, NL);
      var l, rest := text[..m], text[m + 1..];
      OneLine(d, l, rest);
      RuleApplied(d, l);
      RulesBack(ApplyLine(d, l), rest);
      Regroup(d.permits, LineOf(l), LiveRules(rest));
      Regroup(d.permits, "", LiveRules(rest));
    }
  }

  lemma Regroup(a: string, b: string, c: string)
    ensures (a + b) + c == a + (b + c)
    ensures a + "" == a
  {}

  // ---- printer and parser ------------------------------------------------

  lemma FoldHead(a: string, b: string)
    requires a != "" && b != "" && SameFold(a, b)
    ensures Lower(a[0]) == Lower(b[0])
  {
    assert LowerAll(a)[0] == Lower(a[0]) && LowerAll(b)[0] == Lower(b[0]);
  }

  /** Each key the printers write sets its own field. */
  lemma KeysSet(d: Desc, v: string)
    ensures SetField(d, "name", v) == d.(name := Cut(v, 128))
    ensures SetField(d, "version", v) == d.(version := Cut(v, 32))
    ensures SetField(d, "description", v) == d.(description := Cut(v, 256))
    ensures SetField(d, "hash", v) == d.(hash := Cut(v, 32))
    ensures SetField(d, "openaccount", v) == d.(openAccount := AtoiInt(v))
    ensures SetField(d, "flavour", v) == d.(flavour := Cut(v, 32))
  {
    hide SameFold, Cut, AtoiInt;
    forall a, b | a != "" && b != "" && Lower(a[0]) != Lower(b[0]) ensures !SameFold(a, b) {
      if SameFold(a, b) {
        FoldHead(a, b);
      }
    }
    forall a: string ensures SameFold(a, a) {
      FoldItself(a);
    }
  }

  lemma FoldItself(a: string)
    ensures SameFold(a, a)
  {}

  lemma KeysPlain()
    ensures Key("name") && Key("version") && Key("description") && Key("hash") && Key("openaccount") && Key("flavour")
  {}

  lemma TextField(d: Desc, key: string, val: string, cap: nat, rest: string)
    requires Key(key) && key != "permit" && key != "deny" && Field(val, cap) && cap <= 256
    ensures ParsedFrom(d, Setting(key, val) + rest) == ParsedFrom(SetField(d, key, Trim(val)), rest)
    ensures ParsedFrom(d, Optional(key, val) + rest) ==
      ParsedFrom(if val != "" then SetField(d, key, Trim(val)) else d, rest)
    ensures cap > 0 && Cut(Trim(val), cap) == Trim(val)
  {
    hide ParsedFrom, SetField, Setting, Optional;
    SettingLine(d, key, val, rest);
    OptionalLine(d, key, val, rest);
  }

  lemma NumberField(d: Desc, n: nat, rest: string)
    requires n < 0x8000_0000
    ensures ParsedFrom(d, Setting("openaccount", Decimal(n)) + rest) == ParsedFrom(d.(openAccount := n), rest)
  {
    hide ParsedFrom, SetField, Setting, Trim, Atoi, AtoiInt;
    var v := Decimal(n);
    assert |v| <= 10 by {
      DecimalLength(n, 10);
      assert Pow10(10) == 10_000_000_000;
    }
    KeysPlain();
    DigitsPlain(v);
    SettingLine(d, "openaccount", v, rest);
    KeysSet(d, v);
    AtoiDecimal(n);
  }

  lemma DigitsPlain(v: string)
    requires IsNum(v)
    ensures NL !in v && v[0] !in BLANK && Trim(v) == v
  {
    assert Digit(v[0]) && Digit(v[|v| - 1]);
  }

  /** Parsing the portable rendering gives the descriptor back, defaults filled. */
  lemma OpenBack(d: Desc)
    requires WellFormed(d)
    ensures Parsed(OpenText(d)) == Settle(Filled(d))
  {
    hide ParsedFrom, SetField, Setting, Optional, Trim, LineOf, Key, Field, Cut, WholeRules, LiveRules, Decimal;
    KeysPlain();
    Defaults(d);
    var f := Filled(d);
    var r5 := Optional("flavour", d.flavour) + d.permits;
    var r4 := Optional("description", d.description) + r5;
    var r3 := Optional("hash", d.hash) + r4;
    var r2 := Setting("openaccount", Decimal(f.openAccount)) + r3;
    var r1 := Setting("version", f.version) + r2;
    var d1 := EMPTY.(name := Trim(f.name));
    var d2 := d1.(version := Trim(f.version));
    var d3 := d2.(openAccount := f.openAccount);
    var d4 := d3.(hash := Trim(d.hash));
    var d5 := d4.(description := Trim(d.description));
    var d6 := d5.(flavour := Trim(d.flavour));
    OpenHeadIsComment();
    HeadLine(EMPTY, OPEN_HEAD, Setting("name", f.name) + r1);
    TextField(EMPTY, "name", f.name, 128, r1);
    KeysSet(EMPTY, Trim(f.name));
    TextField(d1, "version", f.version, 32, r2);
    KeysSet(d1, Trim(f.version));
    NumberField(d2, f.openAccount, r3);
    TextField(d3, "hash", d.hash, 32, r4);
    KeysSet(d3, Trim(d.hash));
    assert ParsedFrom(d3, r3) == ParsedFrom(d4, r4);
    TextField(d4, "description", d.description, 256, r5);
    KeysSet(d4, Trim(d.description));
    assert ParsedFrom(d4, r4) == ParsedFrom(d5, r5);
    TextField(d5, "flavour", d.flavour, 32, d.permits);
    KeysSet(d5, Trim(d.flavour));
    assert ParsedFrom(d5, r5) == ParsedFrom(d6, d.permits);
    RulesBack(d6, d.permits);
    Regroup("", LiveRules(d.permits), "");
  }

  lemma Defaults(d: Desc)
    requires WellFormed(d)
    ensures WellFormed(Filled(d)) && 0 < OpenNumber(d) < 0x8000_0000
    ensures Trim("") == ""
  {}

  lemma OpenHeadIsComment()
    ensures |OPEN_HEAD| > 1 && OPEN_HEAD[0] == '#' && NL !in OPEN_HEAD
  {
    assert OPEN_HEAD[0] == "# .mv-account"[0];
    assert NL !in "# .mv-account" && NL !in " - open (portable)" && NL !in " account descriptor";
  }

  /** What a native rendering cannot carry. */
  function Carried(d: Desc): Desc
  {
    d.(name := NameText(d), version := VersionText(d), hash := "", openAccount := 0)
  }

  /** Parsing the native rendering gives all but the backend and the open number. */
  lemma NativeBack(d: Desc, tag: string)
    requires WellFormed(d) && NL !in tag
    ensures Parsed(NativeText(d, tag)) == Settle(Carried(d))
  {
    hide ParsedFrom, SetField, Setting, Optional, Trim, LineOf, Key, Field, Cut, WholeRules, LiveRules, Decimal;
    KeysPlain();
    Defaults(d);
    var f := Carried(d);
    var r3 := Optional("flavour", d.flavour) + d.permits;
    var r2 := Optional("description", d.description) + r3;
    var r1 := Setting("version", f.version) + r2;
    var d1 := EMPTY.(name := Trim(f.name));
    var d2 := d1.(version := Trim(f.version));
    var d3 := d2.(description := Trim(d.description));
    var d4 := d3.(flavour := Trim(d.flavour));
    HeadLine(EMPTY, NativeHead(tag), Setting("name", f.name) + r1);
    TextField(EMPTY, "name", f.name, 128, r1);
    KeysSet(EMPTY, Trim(f.name));
    TextField(d1, "version", f.version, 32, r2);
    KeysSet(d1, Trim(f.version));
    TextField(d2, "description", d.description, 256, r3);
    KeysSet(d2, Trim(d.description));
    assert ParsedFrom(d2, r2) == ParsedFrom(d3, r3);
    TextField(d3, "flavour", d.flavour, 32, d.permits);
    KeysSet(d3, Trim(d.flavour));
    assert ParsedFrom(d3, r3) == ParsedFrom(d4, d.permits);
    RulesBack(d4, d.permits);
    Regroup("", LiveRules(d.permits), "");
  }

  // ---- settling ----------------------------------------------------------

  lemma TrimTwice(v: string, cap: nat)
    requires Field(v, cap)
    ensures Field(Trim(v), cap) && Trim(Trim(v)) == Trim(v)
  {
    NoTail(Trim(v));
  }

  lemma {:induction false} LiveTwice(text: string)
    requires WholeRules(text)
    ensures WholeRules(LiveRules(text)) && LiveRules(LiveRules(text)) == LiveRules(text)
    decreases |text|
  {
    if text == "" {
    } else {
      hide RuleLine, IsRule, IndexOf, WholeRules, LiveRules;
      FirstRule(text);
      var m := IndexOf(text, NL);
      var l, rest := text[..m], text[m + 1..];
      LiveTwice(rest);
      if IsRule(l) {
        LiveCons(l, LiveRules(rest));
      } else {
        Regroup(LiveRules(rest), "", "");
        assert "" + LiveRules(rest) == LiveRules(rest);
      }
    }
  }

  lemma LiveCons(l: string, rest: string)
    requires RuleLine(l) && WholeRules(rest)
    ensures WholeRules(LineOf(l) + rest)
    ensures LiveRules(LineOf(l) + rest) == (if IsRule(l) then LineOf(l) else "") + LiveRules(rest)
  {
    hide RuleLine, IsRule;
    RuleIsLine(l);
    var t := LineOf(l) + rest;
    assert forall k :: 0 <= k < |l| ==> t[k] == l[k];
    FirstAt(t, |l|, NL);
    assert t[..|l|] == l && t[|l| + 1..] == rest;
  }

  /** What settles is clean. */
  lemma SettleCleans(d: Desc)
    requires WellFormed(d)
    ensures Clean(Settle(d))
  {
    hide Field, Trim, WholeRules, LiveRules;
    TrimTwice(d.name, 128);
    TrimTwice(d.version, 32);
    TrimTwice(d.description, 256);
    TrimTwice(d.hash, 32);
    TrimTwice(d.flavour, 32);
    LiveTwice(d.permits);
  }

  /** The defaults are edgeless, so filling them in and settling do not interfere. */
  lemma FilledClean(d: Desc)
    requires WellFormed(d)
    ensures Clean(Filled(d)) <==> Clean(d)
    ensures Clean(Carried(d)) <==> Clean(d.(hash := ""))
    ensures WellFormed(Carried(d))
  {
    hide LiveRules, WholeRules;
    Defaults(d);
    NoTail("account");
    NoTail("1");
    NoTail("");
  }

  // ---- main results ------------------------------------------------------

  /** For whatever was parsed, printing and parsing again loses nothing but blanks a cut
      left behind and policy words with nothing after them; and nothing at all exactly
      when there are none. */
  lemma OpenRoundTrip(buf: string)
    ensures var d := Parsed(buf);
      Parsed(OpenText(d)) == Settle(Filled(d)) && (Parsed(OpenText(d)) == Filled(d) <==> Clean(d))
  {
    hide Parsed, OpenText, Settle, WellFormed, Filled;
    var d := Parsed(buf);
    ParsedWellFormed(buf);
    OpenBack(d);
    Defaults(d);
    FilledClean(d);
  }

  /** Once parsed back from a rendering, the rendering is a fixed point. */
  lemma RenderingSettles(buf: string)
    ensures var e := Parsed(OpenText(Parsed(buf)));
      Clean(e) && OpenText(Parsed(OpenText(e))) == OpenText(e)
    ensures Clean(Parsed(buf)) ==> OpenText(Parsed(OpenText(Parsed(buf)))) == OpenText(Parsed(buf))
  {
    hide Parsed, Settle, WellFormed, Optional, Setting, LineOf;
    var d := Parsed(buf);
    ParsedWellFormed(buf);
    OpenBack(d);
    Defaults(d);
    SettleCleans(Filled(d));
    var e := Parsed(OpenText(d));
    OpenBack(e);
    FilledClean(e);
    FilledClean(d);
    FilledPrints(e);
    FilledPrints(d);
  }

  lemma FilledPrints(d: Desc)
    ensures OpenText(Filled(d)) == OpenText(d)
  {
    hide Setting, Optional, LineOf, Decimal;
  }

  /** Open to native to open: only the backend and the open number are lost. */
  lemma NativeDetour(d: Desc, tag: string)
    requires Clean(d) && NL !in tag
    ensures OpenText(Parsed(NativeText(Parsed(OpenText(d)), tag))) == OpenText(d.(hash := "", openAccount := 1))
    ensures OpenText(Parsed(NativeText(Parsed(OpenText(d)), tag))) == OpenText(d) <==>
      d.hash == "" && d.openAccount <= 1
  {
    hide Parsed, Settle, WellFormed, OpenText, NativeText;
    OpenBack(d);
    FilledClean(d);
    var e := Parsed(OpenText(d));
    assert e == Filled(d);
    NativeBack(e, tag);
    BareClean(e);
    FilledClean(e);
    var g := Parsed(NativeText(e, tag));
    assert g == Carried(e);
    var h := d.(hash := "", openAccount := 1);
    FilledPrints(g);
    FilledPrints(h);
    assert Filled(g) == Filled(h);
    if OpenText(h) == OpenText(d) {
      BareClean(d);
      assert Clean(h);
      OpenBack(h);
      FilledClean(h);
    } else {
      FilledPrints(d);
    }
  }

  lemma BareClean(d: Desc)
    requires Clean(d)
    ensures Clean(d.(hash := "")) && Clean(d.(hash := "", openAccount := 1))
  {
    hide LiveRules, WholeRules;
    NoTail("");
  }

  // ---- policy lines ------------------------------------------------------

  /** The policy line a line is kept as, if it is one. */
  function Kept(line: string): string
  {
    var p := StripLead(Cut(line, LINE_CAP), BLANK);
    if IsRule(p) then LineOf(Trim(p)) else ""
  }

  function AllKept(lines: seq<string>): string
    decreases |lines|
  {
    if lines == [] then "" else Kept(lines[0]) + AllKept(lines[1..])
  }

  lemma OneKept(d: Desc, line: string)
    ensures var e := ApplyLine(d, line);
      e.permits == if |d.permits| + |Kept(line)| + 1 < RULES_CAP then d.permits + Kept(line) else d.permits
  {
    hide SameFold, StripLead, StripTail, AtoiInt;
    Regroup(d.permits, "", "");
    var p := StripLead(Cut(line, LINE_CAP), BLANK);
    if IsRule(p) {
      assert p[0] == (if Starts(p, "permit") then p[..6] else p[..4])[0];
    }
  }

  lemma {:induction false} KeptOver(d: Desc, lines: seq<string>)
    requires |d.permits| + 1 < RULES_CAP
    ensures |ApplyLines(d, lines).permits| + 1 < RULES_CAP
    ensures |d.permits| + |AllKept(lines)| + 1 < RULES_CAP ==>
      ApplyLines(d, lines).permits == d.permits + AllKept(lines)
    decreases |lines|
  {
    hide ApplyLine, Kept;
    if lines == [] {
    } else {
      OneKept(d, lines[0]);
      KeptOver(ApplyLine(d, lines[0]), lines[1..]);
      Regroup(d.permits, Kept(lines[0]), AllKept(lines[1..]));
    }
    Regroup(d.permits, "", "");
  }

  /** The policy is the text's permit and deny lines, trimmed and in order, exactly when
      together they fit the buffer. */
  lemma PolicyInOrder(buf: string)
    ensures Parsed(buf).permits == AllKept(Split(buf, NL)) <==> |AllKept(Split(buf, NL))| + 1 < RULES_CAP
  {
    hide ApplyLines, AllKept, Split;
    KeptOver(EMPTY, Split(buf, NL));
    assert "" + AllKept(Split(buf, NL)) == AllKept(Split(buf, NL));
  }

  /** A policy word with nothing after it is kept, and lost on the next reading. */
  lemma BareWordIsLost()
    ensures var d := Parsed(LineOf("permit "));
      d.permits == LineOf("permit") && Parsed(OpenText(d)).permits == ""
  {
    hide ApplyLine, Split, OpenText, LiveRules, LineOf, ParsedFrom, WellFormed;
    var buf := LineOf("permit ");
    assert buf + "" == buf;
    OneLine(EMPTY, "permit ", "");
    LastLine(ApplyLine(EMPTY, "permit "));
    BareWord();
    ParsedWellFormed(buf);
    OpenBack(Parsed(buf));
  }

  lemma BareWord()
    ensures ApplyLine(EMPTY, "permit ") == EMPTY.(permits := LineOf("permit")) && LiveRules(LineOf("permit")) == ""
  {
    BareWordTrimmed();
    BareWordDropped(LineOf("permit"));
    hide StripLead, StripTail, SetField, LiveRules, IsRule;
    Regroup(LineOf("permit"), "", "");
    assert EMPTY.permits + LineOf("permit") == LineOf("permit");
  }

  lemma BareWordTrimmed()
    ensures IsRule("permit ") && Trim("permit ") == "permit" && StripLead("permit ", BLANK) == "permit "
    ensures Cut("permit ", LINE_CAP) == "permit "
  {
    var p, w := "permit ", "permit";
    assert p[..6] == w && p[6] == ' ' && |p| == 7;
    assert Starts(p, w);
    NoLead(p);
    assert Trim(p) == StripTail(w, EDGE) == w;
  }

  lemma BareWordDropped(t: string)
    requires t == LineOf("permit")
    ensures LiveRules(t) == ""
  {
    FirstAt(t, 6, NL);
    assert t[..6] == "permit" && t[7..] == "";
    assert LiveRules("") == "" && !IsRule("permit");
  }

  /** The defaults of an account that says nothing. */
  lemma EmptyFilled()
    ensures Parsed(OpenText(EMPTY)) == Desc("account", "1", "", "", 1, "", "")
  {
    hide OpenText, Parsed, LiveRules;
    assert WellFormed(EMPTY);
    OpenBack(EMPTY);
    NoTail("account");
    NoTail("1");
    NoTail("");
    assert LiveRules("") == "";
  }

  /** Keys are read in any case, the flavour in either spelling, and a key nobody knows sets
      nothing. */
  lemma KeysInAnyCase(d: Desc, key: string, v: string)
    ensures LowerAll(key) == "name" ==> SetField(d, key, v) == d.(name := Cut(v, 128))
    ensures LowerAll(key) == "hash" ==> SetField(d, key, v) == d.(hash := Cut(v, 32))
    ensures LowerAll(key) == "version" ==> SetField(d, key, v) == d.(version := Cut(v, 32))
    ensures LowerAll(key) == "description" ==> SetField(d, key, v) == d.(description := Cut(v, 256))
    ensures LowerAll(key) == "openaccount" ==> SetField(d, key, v) == d.(openAccount := AtoiInt(v))
    ensures LowerAll(key) == "flavour" || LowerAll(key) == "flavor" ==> SetField(d, key, v) == d.(flavour := Cut(v, 32))
    ensures LowerAll(key) !in {"name", "hash", "version", "description", "openaccount", "flavour", "flavor"} ==>
      SetField(d, key, v) == d
  {
    hide Cut, AtoiInt;
    assert LowerAll("name") == "name" && LowerAll("hash") == "hash" && LowerAll("version") == "version";
    assert LowerAll("description") == "description" && LowerAll("openaccount") == "openaccount";
    assert LowerAll("flavour") == "flavour" && LowerAll("flavor") == "flavor";
    assert "name"[0] == 'n' && "hash"[0] == 'h' && "version"[0] == 'v' && "description"[0] == 'd';
    assert "openaccount"[0] == 'o' && "flavour"[0] == 'f' && "flavor"[0] == 'f' && |"flavour"| == 7 && |"flavor"| == 6;
  }
}

// Strings as the C code sees them: pieces between separators, stripped edges,
// fixed buffers, decimal numbers.
module Text {
  datatype Option<+T> = None | Some(value: T)

  const AM: char := '\U{FE}'
  const VM: char := '\U{FD}'
  const NL: char := '\n'

  function Max(a: int, b: int): int { if a < b then b else a }

  function Least(a: nat, b: nat): nat { if a < b then a else b }

  /** What a buffer of `cap` bytes keeps of `s` (room for the terminator). */
  function Cut(s: string, cap: nat): string
    requires cap > 0
  {
    if |s| >= cap then s[..cap - 1] else s
  }

  /** Offset of the first `c`, or |s| when there is none (memchr). */
  function IndexOf(s: string, c: char): (m: nat)
    ensures m <= |s| && c !in s[..m] && (m < |s| ==> s[m] == c)
  {
    if s == "" || s[0] == c then 0
    else
      assert s[..1 + IndexOf(s[1..], c)] == [s[0]] + s[1..][..IndexOf(s[1..], c)];
      1 + IndexOf(s[1..], c)
  }

  lemma {:induction false} FirstAt(t: string, k: nat, c: char)
    requires k <= |t| && (forall j :: 0 <= j < k ==> t[j] != c) && (k < |t| ==> t[k] == c)
    ensures IndexOf(t, c) == k
  {
    if k == 0 {
    } else {
      FirstAt(t[1..], k - 1, c);
    }
  }

  /** The pieces of `s` between separators; a string with none is one piece. */
  function Split(s: string, sep: char): (r: seq<string>)
    ensures |r| >= 1
  {
    if s == "" then [""]
    else
      var t := Split(s[1..], sep);
      if s[0] == sep then [""] + t else [[s[0]] + t[0]] + t[1..]
  }

  function Join(a: seq<string>, sep: char): string
  {
    if |a| == 0 then ""
    else if |a| == 1 then a[0]
    else a[0] + [sep] + Join(a[1..], sep)
  }

  predicate Free(a: seq<string>, sep: char) { forall i :: 0 <= i < |a| ==> sep !in a[i] }

  /** A piece put in front, and a character put on the first piece. */
  lemma JoinFront(x: string, c: char, t: seq<string>, sep: char)
    requires t != []
    ensures Join([x] + t, sep) == x + [sep] + Join(t, sep)
    ensures Join([[c] + t[0]] + t[1..], sep) == [c] + Join(t, sep)
  {
    assert ([x] + t)[1..] == t;
    var r := [[c] + t[0]] + t[1..];
    assert r[1..] == t[1..];
  }

  lemma {:induction false} JoinSplit(s: string, sep: char)
    ensures Join(Split(s, sep), sep) == s
    ensures Free(Split(s, sep), sep)
  {
    if s == "" {
    } else {
      hide Join;
      JoinSplit(s[1..], sep);
      var t := Split(s[1..], sep);
      JoinFront("", s[0], t, sep);
      assert s == [s[0]] + s[1..];
    }
  }

  lemma {:induction false} SplitPiece(p: string, sep: char)
    requires sep !in p
    ensures Split(p, sep) == [p]
  {
    if p == "" {
    } else {
      SplitPiece(p[1..], sep);
      assert p == [p[0]] + p[1..];
    }
  }

  lemma {:induction false} SplitHead(p: string, rest: string, sep: char)
    requires sep !in p
    ensures Split(p + [sep] + rest, sep) == [p] + Split(rest, sep)
  {
    var s := p + [sep] + rest;
    if p == "" {
      assert s[1..] == rest;
    } else {
      SplitHead(p[1..], rest, sep);
      assert s[1..] == p[1..] + [sep] + rest;
      assert p == [p[0]] + p[1..];
    }
  }

  /** How the C scans advance: one memchr takes one piece off the front. */
  lemma SplitStep(s: string, sep: char)
    ensures var m := IndexOf(s, sep);
            Split(s, sep) == if m < |s| then [s[..m]] + Split(s[m + 1..], sep) else [s]
  {
    hide Split, IndexOf;
    var m := IndexOf(s, sep);
    if m < |s| {
      assert s == s[..m] + [sep] + s[m + 1..];
      SplitHead(s[..m], s[m + 1..], sep);
    } else {
      assert s[..m] == s;
      SplitPiece(s, sep);
    }
  }

  /** The same step in the middle of a scan, at offset `s`. */
  lemma SplitFrom(rec: string, sep: char, s: nat)
    requires s <= |rec|
    ensures var m := s + IndexOf(rec[s..], sep);
            Split(rec[s..], sep) == if m < |rec| then [rec[s..m]] + Split(rec[m + 1..], sep) else [rec[s..m]]
  {
    SplitStep(rec[s..], sep);
    var m := s + IndexOf(rec[s..], sep);
    assert rec[s..][..m - s] == rec[s..m];
    if m < |rec| {
      assert rec[s..][m - s + 1..] == rec[m + 1..];
    } else {
      assert rec[s..m] == rec[s..];
    }
  }

  lemma {:induction false} SplitJoin(a: seq<string>, sep: char)
    requires a != [] && Free(a, sep)
    ensures Split(Join(a, sep), sep) == a
  {
    if |a| == 1 {
      SplitPiece(a[0], sep);
    } else {
      SplitJoin(a[1..], sep);
      SplitHead(a[0], Join(a[1..], sep), sep);
    }
  }

  lemma {:induction false} JoinConcat(a: seq<string>, b: seq<string>, sep: char)
    requires a != [] && b != []
    ensures Join(a + b, sep) == Join(a, sep) + [sep] + Join(b, sep)
  {
    if |a| == 1 {
      assert (a + b)[1..] == b;
    } else {
      JoinConcat(a[1..], b, sep);
      assert (a + b)[1..] == a[1..] + b;
    }
  }

  /** Every `from` becomes `to` (xlate). */
  function Translate(s: string, from: char, to: char): (r: string)
    ensures |r| == |s|
    ensures forall i :: 0 <= i < |s| ==> r[i] == if s[i] == from then to else s[i]
  {
    seq(|s|, i requires 0 <= i < |s| => if s[i] == from then to else s[i])
  }

  /** The loop of xlate, filling a fresh buffer byte by byte. */
  method Xlate(p: string, from: char, to: char) returns (b: string)
    ensures b == Translate(p, from, to)
  {
    var buf := new char[|p|];
    var i := 0;
    while i < |p|
      invariant 0 <= i <= |p|
      invariant forall k :: 0 <= k < i ==> buf[k] == if p[k] == from then to else p[k]
    {
      buf[i] := if p[i] == from then to else p[i];
      i := i + 1;
    }
    b := buf[..];
  }

  lemma {:induction false} TranslateJoin(a: seq<string>, from: char, to: char)
    requires Free(a, from)
    ensures Translate(Join(a, from), from, to) == Join(a, to)
  {
    if |a| > 1 {
      TranslateJoin(a[1..], from, to);
      var l, r := Join(a, from), Join(a, to);
      assert l == a[0] + [from] + Join(a[1..], from);
      assert Translate(l, from, to) ==
        Translate(a[0], from, to) + [to] + Translate(Join(a[1..], from), from, to);
      assert Translate(a[0], from, to) == a[0];
    } else if |a| == 1 {
      assert Translate(a[0], from, to) == a[0];
    }
  }

  /** A record's blob and back: nothing is lost when no newline is in the record. */
  lemma TranslateBack(s: string, from: char, to: char)
    requires to !in s
    ensures Translate(Translate(s, from, to), to, from) == s
  {}

  function StripLead(s: string, blanks: set<char>): (r: string)
    ensures |r| <= |s| && (r != "" ==> r[0] !in blanks)
    ensures forall c :: c in r ==> c in s
  {
    if s != "" && s[0] in blanks then StripLead(s[1..], blanks) else s
  }

  function StripTail(s: string, blanks: set<char>): (r: string)
    ensures |r| <= |s| && r == s[..|r|] && (r != "" ==> r[|r| - 1] !in blanks)
    ensures forall c :: c in r ==> c in s
  {
    if s != "" && s[|s| - 1] in blanks then StripTail(s[..|s| - 1], blanks) else s
  }

  function Strip(s: string, blanks: set<char>): string { StripTail(StripLead(s, blanks), blanks) }

  predicate Edgeless(s: string, blanks: set<char>)
  {
    s == "" || (s[0] !in blanks && s[|s| - 1] !in blanks)
  }

  function Lower(c: char): char { if 'A' <= c <= 'Z' then c - 'A' + 'a' else c }

  function LowerAll(s: string): string { seq(|s|, i requires 0 <= i < |s| => Lower(s[i])) }

  /** strcasecmp(a, b) == 0 */
  predicate SameFold(a: string, b: string) { LowerAll(a) == LowerAll(b) }

  predicate HasPrefix(s: string, pre: string) { |s| >= |pre| && s[..|pre|] == pre }

  predicate HasSuffix(s: string, suf: string) { |s| >= |suf| && s[|s| - |suf|..] == suf }

  predicate Digit(c: char) { '0' <= c <= '9' }

  predicate IsNum(s: string) { s != "" && forall i :: 0 <= i < |s| ==> Digit(s[i]) }

  /** Value of the digits at the front of `s`, continuing from `acc`. */
  function DigitsFrom(s: string, acc: nat): nat
  {
    if s == "" || !Digit(s[0]) then acc
    else DigitsFrom(s[1..], 10 * acc + (s[0] as int - '0' as int))
  }

  predicate Space(c: char) { c == ' ' || '\t' <= c <= '\r' }

  /** atoi: leading white space, a sign, then digits. */
  function Atoi(s: string): int
  {
    if s == "" then 0
    else if Space(s[0]) then Atoi(s[1..])
    else if s[0] == '-' then 0 - (DigitsFrom(s[1..], 0) as int)
    else if s[0] == '+' then DigitsFrom(s[1..], 0)
    else DigitsFrom(s, 0)
  }

  function Decimal(n: nat): (s: string)
    ensures IsNum(s)
  {
    if n < 10 then ['0' + n as char] else Decimal(n / 10) + ['0' + (n % 10) as char]
  }

  lemma {:induction false} DigitsFromTail(s: string, c: char, acc: nat)
    requires (forall i :: 0 <= i < |s| ==> Digit(s[i])) && Digit(c)
    ensures DigitsFrom(s + [c], acc) == 10 * DigitsFrom(s, acc) + (c as int - '0' as int)
  {
    if s == "" {
      assert DigitsFrom([c], acc) == DigitsFrom([c][1..], 10 * acc + (c as int - '0' as int));
    } else {
      assert (s + [c])[1..] == s[1..] + [c];
      DigitsFromTail(s[1..], c, 10 * acc + (s[0] as int - '0' as int));
    }
  }

  lemma {:induction false} AtoiDecimal(n: nat)
    ensures Atoi(Decimal(n)) == n && DigitsFrom(Decimal(n), 0) == n
  {
    if n < 10 {
      assert DigitsFrom(Decimal(n)[1..], n) == n;
    } else {
      AtoiDecimal(n / 10);
      DigitsFromTail(Decimal(n / 10), '0' + (n % 10) as char, 0);
    }
    assert Digit(Decimal(n)[0]);
  }

  function Pow10(n: nat): nat { if n == 0 then 1 else 10 * Pow10(n - 1) }

  lemma {:induction false} DecimalLength(v: nat, w: nat)
    requires w > 0
    ensures |Decimal(v)| <= w <==> v < Pow10(w)
    decreases w
  {
    if w == 1 {
      assert Pow10(1) == 10 * Pow10(0);
      if v >= 10 {
        assert |Decimal(v / 10)| >= 1;
      }
    } else if v >= 10 {
      DecimalLength(v / 10, w - 1);
    } else {
      Pow10Grows(w);
    }
  }

  lemma {:induction false} Pow10Grows(w: nat)
    requires w > 0
    ensures Pow10(w) >= 10
  {
    if w <= 1 {
    } else {
      Pow10Grows(w - 1);
    }
  }

  /** strcmp(a, b) < 0 */
  predicate Before(a: string, b: string)
  {
    if b == "" then false
    else if a == "" then true
    else if a[0] != b[0] then a[0] < b[0]
    else Before(a[1..], b[1..])
  }

  lemma {:induction false} BeforeTotal(a: string, b: string)
    ensures a == b || Before(a, b) || Before(b, a)
    ensures !(Before(a, b) && Before(b, a))
    ensures !Before(a, a)
  {
    if a == "" {
    } else {
      BeforeTotal(a[1..], a[1..]);
    }
    if a != "" && b != "" && a[0] == b[0] {
      BeforeTotal(a[1..], b[1..]);
      assert a == [a[0]] + a[1..] && b == [b[0]] + b[1..];
    }
  }

  lemma {:induction false} BeforeTransitive(a: string, b: string, c: string)
    requires Before(a, b) && Before(b, c)
    ensures Before(a, c)
  {
    if a != "" && a[0] == b[0] == c[0] {
      BeforeTransitive(a[1..], b[1..], c[1..]);
    }
  }

  /** atoi skips leading white space, takes one sign, and stops at the first character that
      is no digit. */
  lemma AtoiForms(n: nat, rest: string, blank: char)
    requires rest == "" || !Digit(rest[0])
    requires blank == ' ' || blank == '\t' || blank == '\n' || blank == '\r'
    ensures Atoi(Decimal(n) + rest) == n && Atoi("-" + (Decimal(n) + rest)) == 0 - n && Atoi("+" + (Decimal(n) + rest)) == n
    ensures forall s: string :: Atoi([blank] + s) == Atoi(s)
    ensures rest == "" || (!Space(rest[0]) && rest[0] != '-' && rest[0] != '+') ==> Atoi(rest) == 0
  {
    var d := Decimal(n) + rest;
    AtoiDecimal(n);
    DigitsStop(Decimal(n), rest, 0);
    assert Digit(d[0]) by {
      assert Digit(Decimal(n)[0]);
    }
    assert ("-" + d)[1..] == d == ("+" + d)[1..];
    forall s: string ensures Atoi([blank] + s) == Atoi(s) {
      assert ([blank] + s)[1..] == s;
    }
  }

  lemma {:induction false} DigitsStop(d: string, rest: string, acc: nat)
    requires (forall i :: 0 <= i < |d| ==> Digit(d[i])) && (rest == "" || !Digit(rest[0]))
    ensures DigitsFrom(d + rest, acc) == DigitsFrom(d, acc)
  {
    if d == "" {
      assert d + rest == rest;
    } else {
      assert (d + rest)[1..] == d[1..] + rest;
      DigitsStop(d[1..], rest, 10 * acc + (d[0] as int - '0' as int));
    }
  }

  /** Only the capital letters of ASCII change case. */
  lemma LowerIs(c: char)
    ensures 'A' <= c <= 'Z' ==> 'a' <= Lower(c) <= 'z' && Lower(c) as int - 'a' as int == c as int - 'A' as int
    ensures !('A' <= c <= 'Z') ==> Lower(c) == c
  {}
}

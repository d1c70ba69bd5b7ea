// The framed hex protocol as bytes: numbers, hex, requests and replies, and the
// proof that the two ends are inverse.
module Wire {
  import opened Text

  type Byte = c: char | c as int < 256 witness '\0'
  type Bytes = seq<Byte>

  const MAGIC: Bytes := "MVG1"
  const TOKEN_LEN := 32
  const OPCODE_LEN := 16
  const NARGS_LEN := 2
  const LEN_LEN := 10
  const STATUS_LEN := 4
  const REQ_HDR := 64
  const RSP_HDR := 18
  const OFF_TOKEN := 4
  const OFF_OPCODE := 36
  const OFF_NARGS := 52
  const OFF_BODYLEN := 54
  const MAX_BODY := 268435456

  const OK := 0
  const EPROTO := 1
  const EAUTH := 2
  const EOPCODE := 3
  const EARGS := 4
  const EFAIL := 5
  const ECLOSED := 6

  // ---- hex ---------------------------------------------------------------

  const HEXD: Bytes := "0123456789ABCDEF"

  function HexDigit(n: int): (c: Byte)
    requires 0 <= n < 16
    ensures HexVal(c) == n
  {
    HEXD[n]
  }

  /** Two digits a byte, high half first. */
  function HexAt(b: Bytes, i: nat): Byte
    requires i < 2 * |b|
  {
    HexDigit(if i % 2 == 0 then b[i / 2] as int / 16 else b[i / 2] as int % 16)
  }

  function HexEnc(b: Bytes): (r: Bytes)
    ensures |r| == 2 * |b|
  {
    seq(2 * |b|, i requires 0 <= i < 2 * |b| => HexAt(b, i))
  }

  function HexVal(c: char): int
  {
    if '0' <= c <= '9' then c as int - '0' as int
    else if 'A' <= c <= 'F' then c as int - 'A' as int + 10
    else if 'a' <= c <= 'f' then c as int - 'a' as int + 10
    else -1
  }

  predicate HexText(s: Bytes)
  {
    |s| % 2 == 0 && forall i :: 0 <= i < |s| ==> HexVal(s[i]) >= 0
  }

  function HexByte(h: int, l: int): Byte
    requires 0 <= h < 16 && 0 <= l < 16
  {
    (16 * h + l) as char
  }

  /** None on an odd length or a character that is not a hex digit. */
  function HexDec(s: Bytes): (r: Option<Bytes>)
    ensures r.Some? <==> HexText(s)
    ensures r.Some? ==> |r.value| == |s| / 2 && forall i :: 0 <= i < |s| / 2 ==>
      HexVal(s[2 * i]) >= 0 && HexVal(s[2 * i + 1]) >= 0 && r.value[i] == HexByte(HexVal(s[2 * i]), HexVal(s[2 * i + 1]))
  {
    if !HexText(s) then None
    else Some(seq(|s| / 2, i requires 0 <= i < |s| / 2 => HexByte(HexVal(s[2 * i]), HexVal(s[2 * i + 1]))))
  }

  /** Decoding undoes encoding, for every byte string. */
  lemma HexRoundTrip(b: Bytes)
    ensures HexDec(HexEnc(b)) == Some(b)
  {
    var s := HexEnc(b);
    assert forall i :: 0 <= i < |s| ==> s[i] == HexAt(b, i);
    assert HexText(s);
    var d := HexDec(s).value;
    forall i | 0 <= i < |b| ensures d[i] == b[i] {
      assert s[2 * i] == HexAt(b, 2 * i) && s[2 * i + 1] == HexAt(b, 2 * i + 1);
      assert (2 * i) / 2 == i && (2 * i + 1) / 2 == i && (2 * i + 1) % 2 == 1;
      assert d[i] == HexByte(b[i] as int / 16, b[i] as int % 16);
      assert d[i] as int == b[i] as int;
    }
    assert d == b;
  }

  lemma Halves(h: int, l: int)
    requires 0 <= h < 16 && 0 <= l < 16
    ensures HexByte(h, l) as int / 16 == h && HexByte(h, l) as int % 16 == l
  {}

  /** Encoding undoes decoding up to the case of the digits. */
  lemma HexCanonical(s: Bytes)
    requires HexText(s)
    ensures var r := HexEnc(HexDec(s).value);
            |r| == |s| && forall i :: 0 <= i < |s| ==> HexVal(r[i]) == HexVal(s[i])
  {
    var b := HexDec(s).value;
    forall i | 0 <= i < |s| ensures HexVal(HexAt(b, i)) == HexVal(s[i]) {
      var k := i / 2;
      var h, l := HexVal(s[2 * k]), HexVal(s[2 * k + 1]);
      assert b[k] == HexByte(h, l);
      Halves(h, l);
      assert i == if i % 2 == 0 then 2 * k else 2 * k + 1;
    }
  }

  /** hex_encode: two characters a byte into a fresh buffer. */
  method HexEncode(b: Bytes) returns (out: Bytes)
    ensures out == HexEnc(b)
  {
    var o := new Byte[2 * |b|];
    var i := 0;
    while i < |b|
      invariant 0 <= i <= |b|
      invariant forall k :: 0 <= k < 2 * i ==> o[k] == HexAt(b, k)
    {
      o[2 * i] := HexDigit(b[i] as int / 16);
      o[2 * i + 1] := HexDigit(b[i] as int % 16);
      assert (2 * i) / 2 == i && (2 * i + 1) / 2 == i && (2 * i + 1) % 2 == 1;
      i := i + 1;
    }
    out := o[..];
  }

  /** hex_decode: gives up at the first bad pair. */
  method HexDecode(s: Bytes) returns (out: Option<Bytes>)
    ensures out == HexDec(s)
  {
    if |s| % 2 != 0 {
      return None;
    }
    var o: Bytes := [];
    var i := 0;
    while i < |s|
      invariant 0 <= i <= |s| && i % 2 == 0 && |o| == i / 2
      invariant forall k :: 0 <= k < i ==> HexVal(s[k]) >= 0
      invariant forall k :: 0 <= k < i / 2 ==> o[k] == HexByte(HexVal(s[2 * k]), HexVal(s[2 * k + 1]))
    {
      var h, l := HexVal(s[i]), HexVal(s[i + 1]);
      if h < 0 || l < 0 {
        return None;
      }
      o := o + [HexByte(h, l)];
      i := i + 2;
    }
    assert o == HexDec(s).value;
    return Some(o);
  }

  // ---- fixed-width numbers -----------------------------------------------

  function Zeros(n: nat): (r: Bytes)
    ensures |r| == n && forall i :: 0 <= i < n ==> r[i] == '0'
  {
    seq(n, _ => '0')
  }

  /** "%0*ld": zero-padded to `width`, longer when the number is. */
  function PadNum(width: nat, v: nat): (r: Bytes)
    ensures |r| >= width && IsNum(r)
  {
    var d := Decimal(v);
    if |d| < width then Zeros(width - |d|) + d else d
  }

  /** put_num: exactly `width` characters. */
  function PutNum(width: nat, v: nat): (r: Bytes)
    ensures |r| == width
  {
    PadNum(width, v)[..width]
  }

  /** get_num: -1 unless every character is a digit. */
  function GetNum(s: Bytes): int
  {
    if forall i :: 0 <= i < |s| ==> Digit(s[i]) then DigitsFrom(s, 0) else -1
  }

  lemma {:induction false} ZerosFirst(n: nat, d: string)
    ensures DigitsFrom(Zeros(n) + d, 0) == DigitsFrom(d, 0)
  {
    if n == 0 {
      assert Zeros(0) + d == d;
    } else {
      assert (Zeros(n) + d)[1..] == Zeros(n - 1) + d;
      ZerosFirst(n - 1, d);
    }
  }

  /** A number that fits its field is read back, and no other is written whole. */
  lemma NumRoundTrip(width: nat, v: nat)
    requires width > 0
    ensures v < Pow10(width) ==> PutNum(width, v) == PadNum(width, v) && GetNum(PutNum(width, v)) == v
    ensures v < Pow10(width) ==> Atoi(PutNum(width, v)) == v
    ensures v >= Pow10(width) ==> |PadNum(width, v)| > width
  {
    DecimalLength(v, width);
    if v < Pow10(width) {
      var d := Decimal(v);
      AtoiDecimal(v);
      ZerosFirst(width - |d|, d);
      assert PadNum(width, v) == Zeros(width - |d|) + d;
      AtoiNum(PadNum(width, v));
    }
  }

  lemma AtoiNum(s: string)
    requires IsNum(s)
    ensures Atoi(s) == DigitsFrom(s, 0)
  {
    assert Digit(s[0]);
  }

  // ---- requests ----------------------------------------------------------

  function PadRight(s: Bytes, width: nat): (r: Bytes)
    ensures |r| >= width && |r| >= |s| && r[..|s|] == s
    ensures |s| <= width ==> |r| == width && forall i :: |s| <= i < width ==> r[i] == ' '
  {
    if |s| < width then s + seq(width - |s|, _ => ' ') else s
  }

  function ArgBytes(a: Bytes): (r: Bytes)
    ensures |r| >= LEN_LEN + 2 * |a|
  {
    PadNum(LEN_LEN, 2 * |a|) + HexEnc(a)
  }

  function Body(args: seq<Bytes>): Bytes
  {
    if args == [] then [] else ArgBytes(args[0]) + Body(args[1..])
  }

  /** The 64 bytes call_raw's header buffer holds. */
  function Header(token: Bytes, op: Bytes, nargs: nat, bodylen: nat): (r: Bytes)
    ensures |r| == REQ_HDR
  {
    (MAGIC + PadRight(token, TOKEN_LEN) + PadRight(op, OPCODE_LEN) + PadNum(NARGS_LEN, nargs)
     + PadNum(LEN_LEN, bodylen))[..REQ_HDR]
  }

  function Request(token: Bytes, op: Bytes, args: seq<Bytes>): Bytes
  {
    Header(token, op, |args|, |Body(args)|) + Body(args)
  }

  // ---- the server's reading of a frame -----------------------------------

  function CStr(s: Bytes): Bytes { s[..IndexOf(s, '\0')] }

  /** Trailing blanks off, then up to the first NUL. */
  function OpName(field: Bytes): Bytes { CStr(StripTail(field, {' '})) }

  datatype Head = Head(op: Bytes, nargs: nat, bodylen: nat) | BadHead(status: nat, message: Bytes)

  const BAD_MAGIC: Bytes := "bad frame magic \U{E2}\U{80}\U{94} stream desynchronised"
  const BAD_TOKEN: Bytes := "token mismatch"
  const BAD_HEAD: Bytes := "malformed frame header"
  const BAD_ARGS: Bytes := "malformed argument framing"

  function ReadHead(h: Bytes, token: Bytes): (r: Head)
    requires |h| == REQ_HDR
    ensures r.Head? ==> r.bodylen <= MAX_BODY
  {
    if h[..OFF_TOKEN] != MAGIC then BadHead(EPROTO, BAD_MAGIC)
    else if h[OFF_TOKEN..OFF_OPCODE] != token then BadHead(EAUTH, BAD_TOKEN)
    else
      var nargs := GetNum(h[OFF_NARGS..OFF_BODYLEN]);
      var bodylen := GetNum(h[OFF_BODYLEN..]);
      if nargs < 0 || bodylen < 0 || bodylen > MAX_BODY then BadHead(EPROTO, BAD_HEAD)
      else Head(OpName(h[OFF_OPCODE..OFF_NARGS]), nargs, bodylen)
  }

  /** The first `n` length-prefixed arguments of a body; what follows them is ignored. */
  function ReadArgs(body: Bytes, n: nat): Option<seq<Bytes>>
  {
    if n == 0 then Some([])
    else if |body| < LEN_LEN then None
    else
      var al := GetNum(body[..LEN_LEN]);
      if al < 0 || LEN_LEN + al > |body| then None
      else
        match HexDec(body[LEN_LEN..LEN_LEN + al])
        case None => None
        case Some(a) =>
          match ReadArgs(body[LEN_LEN + al..], n - 1) { case Some(rest) => Some([a] + rest) case None => None }
  }

  datatype Frame =
    | Starved
    | Rejected(status: nat, message: Bytes, used: nat)
    | Asked(op: Bytes, args: seq<Bytes>, used: nat)

  predicate Farewell(op: Bytes) { op == "BYE" || op == "SHUTDOWN" }

  /** One frame off the front of the stream.  BYE and SHUTDOWN are recognised before
      their arguments are split. */
  function ReadFrame(s: Bytes, token: Bytes): (f: Frame)
    ensures f.Asked? ==> REQ_HDR <= f.used <= |s|
    ensures f.Rejected? ==> REQ_HDR <= f.used <= |s|
  {
    if |s| < REQ_HDR then Starved
    else
      match ReadHead(s[..REQ_HDR], token)
      case BadHead(st, m) => Rejected(st, m, REQ_HDR)
      case Head(op, nargs, bodylen) =>
        var used := REQ_HDR + bodylen;
        if |s| < used then Starved
        else if Farewell(op) then Asked(op, [], used)
        else
          match ReadArgs(s[REQ_HDR..used], nargs)
          case None => Rejected(EPROTO, BAD_ARGS, used)
          case Some(args) => Asked(op, args, used)
  }

  /** What the server does with one frame depends on that frame alone. */
  lemma ReadFrameLocal(s: Bytes, rest: Bytes, token: Bytes)
    ensures !ReadFrame(s, token).Starved? ==> ReadFrame(s + rest, token) == ReadFrame(s, token)
  {
    if |s| >= REQ_HDR {
      assert (s + rest)[..REQ_HDR] == s[..REQ_HDR];
      var h := ReadHead(s[..REQ_HDR], token);
      if h.Head? && |s| >= REQ_HDR + h.bodylen {
        assert (s + rest)[REQ_HDR..REQ_HDR + h.bodylen] == s[REQ_HDR..REQ_HDR + h.bodylen];
      }
    }
  }

  // ---- the server reads what the client wrote ----------------------------

  /** What the protocol asks of an opcode. */
  predicate GoodOp(op: Bytes)
  {
    |op| <= OPCODE_LEN && '\0' !in op && (op == [] || op[|op| - 1] != ' ')
  }

  predicate Sendable(op: Bytes, args: seq<Bytes>)
  {
    GoodOp(op) && !Farewell(op) && |args| <= 99 && |Body(args)| <= MAX_BODY
  }

  lemma {:induction false} StripTailPad(s: Bytes, n: nat)
    requires s == [] || s[|s| - 1] != ' '
    ensures StripTail(s + seq(n, _ => ' '), {' '}) == s
  {
    var t := s + seq(n, _ => ' ');
    if n == 0 {
      assert t == s;
    } else {
      assert t[..|t| - 1] == s + seq(n - 1, _ => ' ');
      StripTailPad(s, n - 1);
    }
  }

  lemma OpNamePad(op: Bytes)
    requires GoodOp(op)
    ensures OpName(PadRight(op, OPCODE_LEN)) == op
  {
    var p := PadRight(op, OPCODE_LEN);
    assert p == op + seq(OPCODE_LEN - |op|, _ => ' ');
    StripTailPad(op, OPCODE_LEN - |op|);
    assert IndexOf(op, '\0') == |op|;
  }

  lemma Tens()
    ensures Pow10(2) == 100 && Pow10(10) == 10000000000 && Pow10(4) == 10000
  {
    assert Pow10(1) == 10;
    assert Pow10(3) == 1000;
    assert Pow10(5) == 100000;
    assert Pow10(7) == 10000000;
    assert Pow10(9) == 1000000000;
  }

  lemma HeaderFields(token: Bytes, op: Bytes, nargs: nat, bodylen: nat)
    requires |token| == TOKEN_LEN && |op| <= OPCODE_LEN && nargs <= 99 && bodylen <= MAX_BODY
    ensures var h := Header(token, op, nargs, bodylen);
      && h[..OFF_TOKEN] == MAGIC && h[OFF_TOKEN..OFF_OPCODE] == token
      && h[OFF_OPCODE..OFF_NARGS] == PadRight(op, OPCODE_LEN)
      && h[OFF_NARGS..OFF_BODYLEN] == PadNum(NARGS_LEN, nargs)
      && h[OFF_BODYLEN..] == PadNum(LEN_LEN, bodylen)
  {
    Tens();
    NumRoundTrip(NARGS_LEN, nargs);
    NumRoundTrip(LEN_LEN, bodylen);
    var t, o, n, b := PadRight(token, TOKEN_LEN), PadRight(op, OPCODE_LEN), PadNum(NARGS_LEN, nargs), PadNum(LEN_LEN, bodylen);
    assert t == token;
    var all := MAGIC + t + o + n + b;
    assert |all| == REQ_HDR && all[..REQ_HDR] == all;
  }

  lemma ReadHeadBack(token: Bytes, op: Bytes, nargs: nat, bodylen: nat)
    requires |token| == TOKEN_LEN && GoodOp(op) && nargs <= 99 && bodylen <= MAX_BODY
    ensures ReadHead(Header(token, op, nargs, bodylen), token) == Head(op, nargs, bodylen)
  {
    HeaderFields(token, op, nargs, bodylen);
    Tens();
    NumRoundTrip(NARGS_LEN, nargs);
    NumRoundTrip(LEN_LEN, bodylen);
    OpNamePad(op);
  }

  lemma {:induction false} ReadArgsBack(args: seq<Bytes>)
    requires |Body(args)| <= MAX_BODY
    ensures ReadArgs(Body(args), |args|) == Some(args)
  {
    if args == [] {
    } else {
      var a, rest := args[0], Body(args[1..]);
      var body := ArgBytes(a) + rest;
      Tens();
      NumRoundTrip(LEN_LEN, 2 * |a|);
      assert body[..LEN_LEN] == PadNum(LEN_LEN, 2 * |a|);
      assert body[LEN_LEN..LEN_LEN + 2 * |a|] == HexEnc(a);
      assert body[LEN_LEN + 2 * |a|..] == rest;
      HexRoundTrip(a);
      ReadArgsBack(args[1..]);
      assert [a] + args[1..] == args;
    }
  }

  /** The server decodes exactly what call_raw encoded and takes exactly the frame. */
  lemma ServerReadsRequest(token: Bytes, op: Bytes, args: seq<Bytes>, rest: Bytes)
    requires |token| == TOKEN_LEN && Sendable(op, args)
    ensures ReadFrame(Request(token, op, args) + rest, token) == Asked(op, args, |Request(token, op, args)|)
  {
    hide ReadHead, ReadArgs, Header, Body;
    var s := Request(token, op, args);
    ReadHeadBack(token, op, |args|, |Body(args)|);
    ReadArgsBack(args);
    assert s[..REQ_HDR] == Header(token, op, |args|, |Body(args)|);
    assert s[REQ_HDR..|s|] == Body(args);
    ReadFrameLocal(s, rest, token);
  }

  // ---- replies -----------------------------------------------------------

  datatype Reply = Reply(status: nat, body: Bytes)

  /** What send_rsp writes. */
  function ReplyBytes(r: Reply): (s: Bytes)
    ensures |s| == RSP_HDR + 2 * |r.body|
  {
    MAGIC + PutNum(STATUS_LEN, r.status) + PutNum(LEN_LEN, 2 * |r.body|) + HexEnc(r.body)
  }

  datatype Answer = Cutoff | Garbled | Got(status: int, body: Bytes, used: nat)

  /** What call_raw makes of the bytes on its reply pipe. */
  function ReadReply(s: Bytes): (a: Answer)
    ensures a.Got? ==> RSP_HDR <= a.used <= |s|
  {
    if |s| < RSP_HDR then Cutoff
    else if s[..4] != MAGIC then Garbled
    else
      var status, rlen := Atoi(s[4..8]), Atoi(s[8..RSP_HDR]);
      if rlen < 0 || rlen > MAX_BODY then Garbled
      else if |s| < RSP_HDR + rlen then Cutoff
      else
        match HexDec(s[RSP_HDR..RSP_HDR + rlen])
        case None => Garbled
        case Some(b) => Got(status, b, RSP_HDR + rlen)
  }

  /** A reply is read back exactly when its encoded body is within the limit. */
  lemma ClientReadsReply(r: Reply, rest: Bytes)
    requires r.status < 10000 && 2 * |r.body| < 10000000000
    ensures ReadReply(ReplyBytes(r) + rest) ==
      if 2 * |r.body| <= MAX_BODY then Got(r.status, r.body, |ReplyBytes(r)|) else Garbled
  {
    hide PutNum, HexEnc, HexDec, ReplyBytes, Atoi;
    Tens();
    NumRoundTrip(STATUS_LEN, r.status);
    NumRoundTrip(LEN_LEN, 2 * |r.body|);
    HexRoundTrip(r.body);
    ReplyFields(r, rest);
  }

  lemma ReplyFields(r: Reply, rest: Bytes)
    ensures var s := ReplyBytes(r) + rest;
      && s[..4] == MAGIC && s[4..8] == PutNum(STATUS_LEN, r.status)
      && s[8..RSP_HDR] == PutNum(LEN_LEN, 2 * |r.body|)
      && s[RSP_HDR..RSP_HDR + 2 * |r.body|] == HexEnc(r.body)
  {
    hide PutNum, HexEnc;
    var a, b, c := PutNum(STATUS_LEN, r.status), PutNum(LEN_LEN, 2 * |r.body|), HexEnc(r.body);
    var s := ReplyBytes(r) + rest;
    assert s == MAGIC + a + b + c + rest;
  }

  /** Both cases of a digit are read, and nothing else is a digit. */
  lemma DigitsRead(n: nat, c: Byte)
    ensures n < 16 ==> HexVal("0123456789ABCDEF"[n]) == n == HexVal("0123456789abcdef"[n])
    ensures HexVal(c) >= 0 ==> HexVal(c) < 16 && (c == "0123456789ABCDEF"[HexVal(c)] || c == "0123456789abcdef"[HexVal(c)])
  {
    if n < 16 {
      UpTo(n);
    }
    if HexVal(c) >= 0 {
      UpTo(HexVal(c));
    }
  }

  lemma UpTo(n: nat)
    requires n < 16
    ensures "0123456789ABCDEF"[n] == if n < 10 then '0' + n as char else 'A' + (n - 10) as char
    ensures "0123456789abcdef"[n] == if n < 10 then '0' + n as char else 'a' + (n - 10) as char
  {}

  // ---- what is refused ---------------------------------------------------

  /** A number field is a number exactly when every character is a digit. */
  lemma NumbersAreDigits(s: Bytes)
    ensures GetNum(s) >= 0 <==> forall i :: 0 <= i < |s| ==> Digit(s[i])
    ensures GetNum(s) >= 0 && s != [] ==> GetNum(s) == Atoi(s)
  {
    if s != [] && forall i :: 0 <= i < |s| ==> Digit(s[i]) {
      AtoiNum(s);
    }
  }

  /** Which headers are taken, in the order they are tried: the magic, the token, two
      numbers of which the second is within the limit. */
  lemma HeadExactly(h: Bytes, token: Bytes)
    requires |h| == REQ_HDR
    ensures ReadHead(h, token).Head? <==>
      && h[..OFF_TOKEN] == MAGIC && h[OFF_TOKEN..OFF_OPCODE] == token
      && (forall i :: OFF_NARGS <= i < REQ_HDR ==> Digit(h[i])) && Atoi(h[OFF_BODYLEN..]) <= MAX_BODY
    ensures h[..OFF_TOKEN] != MAGIC ==> ReadHead(h, token) == BadHead(EPROTO, BAD_MAGIC)
    ensures h[..OFF_TOKEN] == MAGIC && h[OFF_TOKEN..OFF_OPCODE] != token ==> ReadHead(h, token) == BadHead(EAUTH, BAD_TOKEN)
    ensures h[..OFF_TOKEN] == MAGIC && h[OFF_TOKEN..OFF_OPCODE] == token && !ReadHead(h, token).Head? ==>
      ReadHead(h, token) == BadHead(EPROTO, BAD_HEAD)
    ensures ReadHead(h, token).Head? ==>
      ReadHead(h, token).nargs == Atoi(h[OFF_NARGS..OFF_BODYLEN]) && ReadHead(h, token).bodylen == Atoi(h[OFF_BODYLEN..])
  {
    hide GetNum, Atoi, OpName;
    var n, b := h[OFF_NARGS..OFF_BODYLEN], h[OFF_BODYLEN..];
    NumbersAreDigits(n);
    NumbersAreDigits(b);
    assert forall i :: OFF_NARGS <= i < OFF_BODYLEN ==> h[i] == n[i - OFF_NARGS];
    assert forall i :: OFF_BODYLEN <= i < REQ_HDR ==> h[i] == b[i - OFF_BODYLEN];
    assert forall i :: 0 <= i < |n| ==> n[i] == h[i + OFF_NARGS];
    assert forall i :: 0 <= i < |b| ==> b[i] == h[i + OFF_BODYLEN];
  }
}

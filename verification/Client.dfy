// call_raw: the client's half of one exchange.
module Client {
  import opened Text
  import opened Wire
  import opened Pipes

  lemma BodyStep(args: seq<Bytes>, i: nat)
    requires i < |args|
    ensures Body(args[i..]) == ArgBytes(args[i]) + Body(args[i + 1..])
  {
    assert args[i..][1..] == args[i + 1..];
  }

  /** The body buffer, one argument at a time, then header and body to the pipe. */
  method SendCall(req: Pipe, token: Bytes, op: Bytes, args: seq<Bytes>)
    modifies req
    ensures req.bytes == old(req.bytes) + Request(token, op, args)
  {
    hide ArgBytes, Header, PadNum;
    var body: Bytes := [];
    var i := 0;
    assert args[0..] == args;
    while i < |args|
      invariant 0 <= i <= |args| && req.bytes == old(req.bytes)
      invariant Body(args) == body + Body(args[i..])
    {
      BodyStep(args, i);
      var enc := HexEncode(args[i]);
      assert PadNum(LEN_LEN, |enc|) + enc == ArgBytes(args[i]) by {
        ArgShape(args[i]);
      }
      assert body + (ArgBytes(args[i]) + Body(args[i + 1..])) == (body + ArgBytes(args[i])) + Body(args[i + 1..]);
      body := body + (PadNum(LEN_LEN, |enc|) + enc);
      i := i + 1;
    }
    assert body + [] == body;
    var hdr := Header(token, op, |args|, |body|);
    WriteFull(req, hdr);
    if |body| > 0 {
      WriteFull(req, body);
    }
    assert (old(req.bytes) + hdr) + body == old(req.bytes) + (hdr + body);
  }

  lemma ArgShape(a: Bytes)
    ensures ArgBytes(a) == PadNum(LEN_LEN, |HexEnc(a)|) + HexEnc(a)
  {}

  /** What the bytes `s` on the reply pipe are taken for: too few of them is a closed
      session, bytes that are not a reply a protocol error, and anything else the status
      and body in it, with what follows left unread. */
  predicate TakenFor(s: Bytes, status: int, out: Bytes, rest: Bytes)
  {
    match ReadReply(s)
    case Cutoff => status == ECLOSED && out == []
    case Garbled => status == EPROTO && out == []
    case Got(st, b, used) => status == st && out == b && rest == s[used..]
  }

  /** The reply, or a closed session; and within the deadline, with the agent alive, the
      reply. */
  method ReceiveReply(rsp: Pipe, idle: nat, alive: bool) returns (status: int, out: Bytes)
    modifies rsp
    ensures (status == ECLOSED && out == []) || TakenFor(old(rsp.bytes), status, out, rsp.bytes)
    ensures alive && Waited(Quiets(old(rsp.plan)), 1000) < (idle + 15) * 1000 ==>
      TakenFor(old(rsp.bytes), status, out, rsp.bytes)
  {
    hide HexDec, Atoi;
    out := [];
    var deadline := (idle + 15) * 1000;
    ghost var s := rsp.bytes;
    ghost var p := Quiets(rsp.plan);
    var ok, rh := ReadAll(rsp, RSP_HDR, deadline, alive);
    if !ok {
      return ECLOSED, out;
    }
    if rh[..4] != MAGIC {
      assert s[..4] == rh[..4];
      return EPROTO, out;
    }
    assert s[..4] == rh[..4] && s[4..8] == rh[4..8] && s[8..RSP_HDR] == rh[8..RSP_HDR];
    status := Atoi(rh[4..8]);
    var rlen := Atoi(rh[8..RSP_HDR]);
    if rlen < 0 || rlen > MAX_BODY {
      return EPROTO, out;
    }
    if rlen > 0 {
      WaitedGrows(Quiets(rsp.plan), p, 1000);
      var have, enc := ReadAll(rsp, rlen, deadline, alive);
      if !have {
        return ECLOSED, out;
      }
      assert enc == s[RSP_HDR..RSP_HDR + rlen];
      var dec := HexDecode(enc);
      if dec.None? {
        return EPROTO, out;
      }
      out := dec.value;
    } else {
      EmptyBody();
      assert s[RSP_HDR..RSP_HDR + rlen] == [];
    }
  }

  lemma EmptyBody()
    ensures HexDec([]) == Some([])
  {}
}

// The server's frame loop, the client's exchange, and whole conversations.
module Serve {
  import opened Text
  import opened Wire
  import opened Pipes

  // ---- dispatch ----------------------------------------------------------

  datatype Op = Op(name: Bytes, nargs: nat)

  const OPS: seq<Op> := [
    Op("PING", 0), Op("FLUSH", 1), Op("INIT", 1), Op("STAGE", 4), Op("STAGEBLOB", 3), Op("STAGECTL", 3),
    Op("IXCAT", 2), Op("STAGED", 1), Op("PUTDESC", 3), Op("COMMIT", 2), Op("STATUS", 1), Op("PRUNE", 2),
    Op("INDEXIDS", 2), Op("LOG", 2), Op("BRANCH", 2), Op("FILES", 1), Op("FURNITURE", 2), Op("VOCDROP", 2),
    Op("ISOPEN", 1), Op("ADDDISK", 2), Op("PROJECT", 4), Op("VERSION", 1), Op("STAGEDESC", 3), Op("CAT", 2),
    Op("DIFF", 2), Op("DIFFU", 2), Op("UDIFF", 4), Op("SHOW", 3), Op("RM", 3), Op("ADDSUB", 2),
    Op("MERGE", 2), Op("CHERRYPICK", 2), Op("SWITCH", 2), Op("CHECKOUT", 2), Op("RESTORE", 2), Op("TAG", 5),
    Op("CONFIG", 3), Op("REMOTE", 4), Op("CLONE", 4), Op("FETCH", 2), Op("PUSH", 3), Op("PULL", 3),
    Op("PULLREF", 3)]

  datatype Ask = Ask(op: Bytes, args: seq<Bytes>)

  /** What the engine replies to the last request of a history of those it has run. */
  type Engine = seq<Ask> -> Reply

  function Find(ops: seq<Op>, op: Bytes): Option<nat>
  {
    if ops == [] then None else if ops[0].name == op then Some(ops[0].nargs) else Find(ops[1..], op)
  }

  function WrongArity(op: Bytes, takes: nat, got: nat): Reply
  {
    Reply(EARGS, op + " takes " + Decimal(takes) + " arguments, got " + Decimal(got))
  }

  function Unknown(op: Bytes): Reply { Reply(EOPCODE, "unknown opcode '" + op + "'") }

  predicate Runs(a: Ask) { Find(OPS, a.op) == Some(|a.args|) }

  /** The history after one request, and the reply to it. */
  function History(ran: seq<Ask>, a: Ask): seq<Ask> { if Runs(a) then ran + [a] else ran }

  function Respond(ran: seq<Ask>, a: Ask, engine: Engine): Reply
  {
    match Find(OPS, a.op)
    case None => Unknown(a.op)
    case Some(n) => if n != |a.args| then WrongArity(a.op, n, |a.args|) else engine(ran + [a])
  }

  predicate FirstOf(ops: seq<Op>, op: Bytes, nargs: nat, i: nat)
    requires i < |ops|
  {
    ops[i] == Op(op, nargs) && forall j :: 0 <= j < i ==> ops[j].name != op
  }

  /** An opcode's count is that of the first entry of its name, and there is none exactly
      when no entry has it. */
  lemma {:induction false} FindExactly(ops: seq<Op>, op: Bytes)
    ensures Find(ops, op).None? <==> forall i :: 0 <= i < |ops| ==> ops[i].name != op
    ensures Find(ops, op).Some? ==> exists i :: 0 <= i < |ops| && FirstOf(ops, op, Find(ops, op).value, i)
  {
    if ops == [] {
    } else {
      FindExactly(ops[1..], op);
      assert forall i :: 0 < i < |ops| ==> ops[i] == ops[1..][i - 1];
      if ops[0].name == op {
        assert FirstOf(ops, op, Find(ops, op).value, 0);
      } else if Find(ops, op).Some? {
        var i :| 0 <= i < |ops[1..]| && FirstOf(ops[1..], op, Find(ops, op).value, i);
        assert FirstOf(ops, op, Find(ops, op).value, i + 1);
      }
    }
  }

  /** The scan of the operation table. */
  method Search(ops: seq<Op>, op: Bytes) returns (nargs: Option<nat>)
    ensures nargs == Find(ops, op)
  {
    var i := 0;
    assert ops[0..] == ops;
    while i < |ops|
      invariant 0 <= i <= |ops|
      invariant Find(ops, op) == Find(ops[i..], op)
    {
      assert ops[i..][0] == ops[i] && ops[i..][1..] == ops[i + 1..];
      if ops[i].name == op {
        return Some(ops[i].nargs);
      }
      i := i + 1;
    }
    return None;
  }

  method Dispatch(ran: seq<Ask>, a: Ask, engine: Engine) returns (reply: Reply, after: seq<Ask>)
    ensures reply == Respond(ran, a, engine) && after == History(ran, a)
  {
    hide Find;
    var nargs := Search(OPS, a.op);
    if nargs.None? {
      return Unknown(a.op), ran;
    }
    if |a.args| != nargs.value {
      return WrongArity(a.op, nargs.value, |a.args|), ran;
    }
    return engine(ran + [a]), ran + [a];
  }

  // ---- the session, as a function of its request stream ------------------

  datatype Ending = Goodbye | Shutdown | Refused | Silent

  datatype Session = Session(replies: seq<Reply>, ran: seq<Ask>, used: nat, ending: Ending)

  function Run(s: Bytes, token: Bytes, ran: seq<Ask>, engine: Engine): (r: Session)
    ensures r.used <= |s|
    decreases |s|
  {
    match ReadFrame(s, token)
    case Starved => Session([], ran, |s|, Silent)
    case Rejected(status, message, used) => Session([Reply(status, message)], ran, used, Refused)
    case Asked(op, args, used) =>
      if op == "BYE" then Session([Reply(OK, [])], ran, used, Goodbye)
      else if op == "SHUTDOWN" then Session([Reply(OK, [])], ran, used, Shutdown)
      else
        var a := Ask(op, args);
        var rest := Run(s[used..], token, History(ran, a), engine);
        Session([Respond(ran, a, engine)] + rest.replies, rest.ran, used + rest.used, rest.ending)
  }

  function AllBytes(rs: seq<Reply>): Bytes
  {
    if rs == [] then [] else ReplyBytes(rs[0]) + AllBytes(rs[1..])
  }

  lemma {:induction false} AllBytesConcat(a: seq<Reply>, b: seq<Reply>)
    ensures AllBytes(a + b) == AllBytes(a) + AllBytes(b)
  {
    if a == [] {
      assert a + b == b;
    } else {
      assert (a + b)[1..] == a[1..] + b;
      AllBytesConcat(a[1..], b);
    }
  }

  /** Split the body into its length-prefixed arguments. */
  method SplitArgs(body: Bytes, nargs: nat) returns (r: Option<seq<Bytes>>)
    ensures r == ReadArgs(body, nargs)
  {
    hide HexDec, GetNum;
    var got: seq<Bytes> := [];
    var off, i := 0, 0;
    assert body[0..] == body;
    assert ReadArgs(body, nargs).Some? ==> got + ReadArgs(body, nargs).value == ReadArgs(body, nargs).value;
    while i < nargs
      invariant 0 <= i <= nargs && 0 <= off <= |body|
      invariant ReadArgs(body, nargs) ==
        match ReadArgs(body[off..], nargs - i) { case Some(rest) => Some(got + rest) case None => None }
    {
      var left := body[off..];
      if off + LEN_LEN > |body| {
        return None;
      }
      var al := GetNum(body[off..off + LEN_LEN]);
      assert left[..LEN_LEN] == body[off..off + LEN_LEN];
      off := off + LEN_LEN;
      if al < 0 || off + al > |body| {
        return None;
      }
      assert left[LEN_LEN..LEN_LEN + al] == body[off..off + al];
      assert left[LEN_LEN + al..] == body[off + al..];
      var a := HexDecode(body[off..off + al]);
      if a.None? {
        return None;
      }
      ghost var tail := ReadArgs(body[off + al..], nargs - i - 1);
      assert tail.Some? ==> got + ([a.value] + tail.value) == (got + [a.value]) + tail.value;
      got := got + [a.value];
      off := off + al;
      i := i + 1;
    }
    assert got + [] == got;
    return Some(got);
  }

  method SendReply(rsp: Pipe, r: Reply)
    modifies rsp
    ensures rsp.bytes == old(rsp.bytes) + ReplyBytes(r)
  {
    hide HexEnc, PutNum;
    var enc := HexEncode(r.body);
    WriteFull(rsp, MAGIC + PutNum(STATUS_LEN, r.status) + PutNum(LEN_LEN, |enc|));
    WriteFull(rsp, enc);
  }

  /** One turn of the frame loop. */
  method ServeFrame(req: Pipe, rsp: Pipe, token: Bytes, ran: seq<Ask>, engine: Engine)
    returns (after: seq<Ask>, ended: Option<Ending>)
    requires req != rsp && |token| == TOKEN_LEN
    modifies req, rsp
    ensures match ReadFrame(old(req.bytes), token)
      case Starved =>
        ended == Some(Silent) && after == ran && rsp.bytes == old(rsp.bytes) && req.bytes == []
      case Rejected(status, message, used) =>
        ended == Some(Refused) && after == ran && rsp.bytes == old(rsp.bytes) + ReplyBytes(Reply(status, message))
        && req.bytes == old(req.bytes)[used..]
      case Asked(op, args, used) =>
        req.bytes == old(req.bytes)[used..] &&
        if Farewell(op) then
          ended == Some(if op == "BYE" then Goodbye else Shutdown) && after == ran
          && rsp.bytes == old(rsp.bytes) + ReplyBytes(Reply(OK, []))
        else
          ended == None && after == History(ran, Ask(op, args))
          && rsp.bytes == old(rsp.bytes) + ReplyBytes(Respond(ran, Ask(op, args), engine))
  {
    hide ReplyBytes, ReadHead, ReadArgs;
    after := ran;
    ghost var s := req.bytes;
    var ok, hdr := ReadFull(req, REQ_HDR);
    if !ok {
      return after, Some(Silent);
    }
    match ReadHead(hdr, token) {
      case BadHead(status, message) =>
        SendReply(rsp, Reply(status, message));
        return after, Some(Refused);
      case Head(op, nargs, bodylen) =>
        var have, body := ReadFull(req, bodylen);
        if !have {
          return after, Some(Silent);
        }
        assert body == s[REQ_HDR..REQ_HDR + bodylen] && req.bytes == s[REQ_HDR + bodylen..];
        if op == "BYE" || op == "SHUTDOWN" {
          SendReply(rsp, Reply(OK, []));
          return after, Some(if op == "BYE" then Goodbye else Shutdown);
        }
        var args := SplitArgs(body, nargs);
        if args.None? {
          SendReply(rsp, Reply(EPROTO, BAD_ARGS));
          return after, Some(Refused);
        }
        var reply;
        reply, after := Dispatch(ran, Ask(op, args.value), engine);
        SendReply(rsp, reply);
        ended := None;
    }
  }

  /** A session whose first replies and bytes are already behind it. */
  function Behind(sent: seq<Reply>, used: nat, s: Session): Session
  {
    Session(sent + s.replies, s.ran, used + s.used, s.ending)
  }

  lemma RunTurn(s: Bytes, token: Bytes, ran: seq<Ask>, engine: Engine, sent: seq<Reply>, used: nat)
    ensures var f, all := ReadFrame(s, token), Behind(sent, used, Run(s, token, ran, engine));
      && (f.Starved? ==> all == Session(sent, ran, used + |s|, Silent))
      && (f.Rejected? ==> all == Session(sent + [Reply(f.status, f.message)], ran, used + f.used, Refused))
      && (f.Asked? && Farewell(f.op) ==>
            all == Session(sent + [Reply(OK, [])], ran, used + f.used, if f.op == "BYE" then Goodbye else Shutdown))
      && (f.Asked? && !Farewell(f.op) ==>
            all == Behind(sent + [Respond(ran, Ask(f.op, f.args), engine)], used + f.used,
                          Run(s[f.used..], token, History(ran, Ask(f.op, f.args)), engine)))
  {
    hide ReadFrame, Respond, History, Run;
    var f := ReadFrame(s, token);
    RunStep(s, token, ran, engine);
    assert sent + [] == sent;
    if f.Asked? && !Farewell(f.op) {
      var a := Ask(f.op, f.args);
      var rest := Run(s[f.used..], token, History(ran, a), engine);
      assert sent + ([Respond(ran, a, engine)] + rest.replies) == (sent + [Respond(ran, a, engine)]) + rest.replies;
    }
  }

  lemma RunStep(s: Bytes, token: Bytes, ran: seq<Ask>, engine: Engine)
    ensures var f, r := ReadFrame(s, token), Run(s, token, ran, engine);
      && (f.Starved? ==> r == Session([], ran, |s|, Silent))
      && (f.Rejected? ==> r == Session([Reply(f.status, f.message)], ran, f.used, Refused))
      && (f.Asked? && Farewell(f.op) ==>
            r == Session([Reply(OK, [])], ran, f.used, if f.op == "BYE" then Goodbye else Shutdown))
      && (f.Asked? && !Farewell(f.op) ==>
            var rest := Run(s[f.used..], token, History(ran, Ask(f.op, f.args)), engine);
            r == Session([Respond(ran, Ask(f.op, f.args), engine)] + rest.replies, rest.ran, f.used + rest.used, rest.ending))
  {
    hide ReadFrame, Respond, History;
  }

  /** serve_session: the replies written, the operations run, the bytes taken and the
      way it ended are those of `Run` on the request stream, however the kernel
      splits the reads and writes. */
  method ServeSession(req: Pipe, rsp: Pipe, token: Bytes, engine: Engine) returns (ran: seq<Ask>, ending: Ending)
    requires req != rsp && |token| == TOKEN_LEN
    modifies req, rsp
    ensures var s := Run(old(req.bytes), token, [], engine);
      && rsp.bytes == old(rsp.bytes) + AllBytes(s.replies)
      && req.bytes == old(req.bytes)[s.used..]
      && ran == s.ran && ending == s.ending
  {
    hide ReplyBytes, ReadFrame, AllBytes, Run, Respond, History;
    ran := [];
    ghost var all := Run(req.bytes, token, [], engine);
    ghost var sent: seq<Reply> := [];
    ghost var used := 0;
    NothingSent();
    assert sent + all.replies == all.replies;
    while true
      invariant used + |req.bytes| == |old(req.bytes)| && req.bytes == old(req.bytes)[used..]
      invariant rsp.bytes == old(rsp.bytes) + AllBytes(sent)
      invariant all == Behind(sent, used, Run(req.bytes, token, ran, engine))
      decreases |req.bytes|
    {
      RunTurn(req.bytes, token, ran, engine, sent, used);
      ghost var f, before := ReadFrame(req.bytes, token), ran;
      var ended;
      ran, ended := ServeFrame(req, rsp, token, ran, engine);
      if !f.Starved? {
        ghost var reply := if f.Rejected? then Reply(f.status, f.message)
                           else if Farewell(f.op) then Reply(OK, [])
                           else Respond(before, Ask(f.op, f.args), engine);
        Sent(sent, reply);
        sent := sent + [reply];
        used := used + f.used;
      }
      if ended.Some? {
        return ran, ended.value;
      }
    }
  }

  lemma NothingSent()
    ensures AllBytes([]) == []
  {}

  lemma Sent(sent: seq<Reply>, r: Reply)
    ensures AllBytes(sent + [r]) == AllBytes(sent) + ReplyBytes(r)
  {
    AllBytesConcat(sent, [r]);
    assert AllBytes([r][1..]) == [];
  }

  // ---- what holds of every stream ----------------------------------------

  /** Bytes that are exactly one frame asking for something other than to stop. */
  predicate AskFrame(f: Bytes, token: Bytes)
  {
    var r := ReadFrame(f, token);
    r.Asked? && r.used == |f| && !Farewell(r.op)
  }

  function AskOf(f: Bytes, token: Bytes): Ask
    requires AskFrame(f, token)
  {
    Ask(ReadFrame(f, token).op, ReadFrame(f, token).args)
  }

  function Concat(fs: seq<Bytes>): Bytes { if fs == [] then [] else fs[0] + Concat(fs[1..]) }

  function Asks(fs: seq<Bytes>, token: Bytes): (r: seq<Ask>)
    requires forall i :: 0 <= i < |fs| ==> AskFrame(fs[i], token)
    ensures |r| == |fs| && forall i :: 0 <= i < |fs| ==> r[i] == AskOf(fs[i], token)
  {
    seq(|fs|, i requires 0 <= i < |fs| => AskOf(fs[i], token))
  }

  /** The operations run once some requests have been served. */
  function RanAll(ran: seq<Ask>, asks: seq<Ask>): seq<Ask>
    decreases |asks|
  {
    if asks == [] then ran else RanAll(History(ran, asks[0]), asks[1..])
  }

  function Replies(ran: seq<Ask>, asks: seq<Ask>, engine: Engine): (r: seq<Reply>)
    ensures |r| == |asks|
    decreases |asks|
  {
    if asks == [] then []
    else [Respond(ran, asks[0], engine)] + Replies(History(ran, asks[0]), asks[1..], engine)
  }

  /** Reply `i` answers request `i`, given what the requests before it ran. */
  lemma {:induction false} ReplyOrder(ran: seq<Ask>, asks: seq<Ask>, engine: Engine, i: nat)
    requires i < |asks|
    ensures Replies(ran, asks, engine)[i] == Respond(RanAll(ran, asks[..i]), asks[i], engine)
    decreases |asks|
  {
    if i == 0 {
    } else {
      ReplyOrder(History(ran, asks[0]), asks[1..], engine, i - 1);
      assert asks[1..][..i - 1] == asks[..i][1..];
    }
  }

  /** One reply per frame, in order, whatever the requests, unknown opcodes and wrong
      arity included; the rest of the stream is served as if it stood alone. */
  lemma {:induction false} OneReplyPerFrame(fs: seq<Bytes>, rest: Bytes, token: Bytes, ran: seq<Ask>, engine: Engine)
    requires forall i :: 0 <= i < |fs| ==> AskFrame(fs[i], token)
    decreases |fs|
    ensures var asks := Asks(fs, token);
      var tail := Run(rest, token, RanAll(ran, asks), engine);
      Run(Concat(fs) + rest, token, ran, engine) ==
      Session(Replies(ran, asks, engine) + tail.replies, tail.ran, |Concat(fs)| + tail.used, tail.ending)
  {
    hide ReadFrame, Run, Respond, History;
    var asks := Asks(fs, token);
    if fs == [] {
      assert Concat(fs) + rest == rest;
      var tail := Run(rest, token, ran, engine);
      assert [] + tail.replies == tail.replies;
    } else {
      var more := Concat(fs[1..]) + rest;
      var s := Concat(fs) + rest;
      assert s == fs[0] + more && s[|fs[0]|..] == more;
      ReadFrameLocal(fs[0], more, token);
      RunTurn(s, token, ran, engine, [], 0);
      var a := asks[0];
      OneReplyPerFrame(fs[1..], rest, token, History(ran, a), engine);
      assert Asks(fs[1..], token) == asks[1..];
      var all := Run(s, token, ran, engine);
      assert [] + all.replies == all.replies;
      var tail := Run(rest, token, RanAll(ran, asks), engine);
      assert [] + [Respond(ran, a, engine)] + (Replies(History(ran, a), asks[1..], engine) + tail.replies)
          == Replies(ran, asks, engine) + tail.replies;
    }
  }

  /** After the first malformed or wrong-token frame: one error reply, nothing run, and
      nothing read beyond that frame, whatever follows. */
  lemma BadFrameStops(fs: seq<Bytes>, bad: Bytes, rest: Bytes, token: Bytes, engine: Engine)
    requires forall i :: 0 <= i < |fs| ==> AskFrame(fs[i], token)
    requires ReadFrame(bad, token).Rejected?
    ensures var f, asks := ReadFrame(bad, token), Asks(fs, token);
      Run(Concat(fs) + (bad + rest), token, [], engine) ==
      Session(Replies([], asks, engine) + [Reply(f.status, f.message)], RanAll([], asks),
              |Concat(fs)| + f.used, Refused)
  {
    OneReplyPerFrame(fs, bad + rest, token, [], engine);
    ReadFrameLocal(bad, rest, token);
  }

  /** BYE and SHUTDOWN are answered and end the session there. */
  lemma FarewellStops(fs: seq<Bytes>, bye: Bytes, rest: Bytes, token: Bytes, engine: Engine)
    requires forall i :: 0 <= i < |fs| ==> AskFrame(fs[i], token)
    requires ReadFrame(bye, token).Asked? && Farewell(ReadFrame(bye, token).op)
    ensures var f, asks := ReadFrame(bye, token), Asks(fs, token);
      Run(Concat(fs) + (bye + rest), token, [], engine) ==
      Session(Replies([], asks, engine) + [Reply(OK, [])], RanAll([], asks),
              |Concat(fs)| + f.used, if f.op == "BYE" then Goodbye else Shutdown)
  {
    OneReplyPerFrame(fs, bye + rest, token, [], engine);
    ReadFrameLocal(bye, rest, token);
  }

  /** The first frame with the wrong token ends the session, whatever else is in it and
      whatever comes after. */
  lemma WrongTokenStops(fs: seq<Bytes>, rest: Bytes, token: Bytes, engine: Engine)
    requires forall i :: 0 <= i < |fs| ==> AskFrame(fs[i], token)
    requires |rest| >= REQ_HDR && rest[..OFF_TOKEN] == MAGIC && rest[OFF_TOKEN..OFF_OPCODE] != token
    ensures var asks := Asks(fs, token);
      Run(Concat(fs) + rest, token, [], engine) ==
        Session(Replies([], asks, engine) + [Reply(EAUTH, BAD_TOKEN)], RanAll([], asks),
                |Concat(fs)| + REQ_HDR, Refused)
  {
    hide Run, Concat, Replies, RanAll, Asks, AskFrame;
    var bad := rest[..REQ_HDR];
    assert bad[..OFF_TOKEN] == rest[..OFF_TOKEN] && bad[OFF_TOKEN..OFF_OPCODE] == rest[OFF_TOKEN..OFF_OPCODE];
    assert bad[..REQ_HDR] == bad && rest == bad + rest[REQ_HDR..];
    BadFrameStops(fs, bad, rest[REQ_HDR..], token, engine);
  }

  // ---- both ends together ------------------------------------------------

  /** The bytes a client writes for some calls. */
  function Requests(asks: seq<Ask>, token: Bytes): (r: seq<Bytes>)
    ensures |r| == |asks| && forall i :: 0 <= i < |asks| ==> r[i] == Request(token, asks[i].op, asks[i].args)
  {
    seq(|asks|, i requires 0 <= i < |asks| => Request(token, asks[i].op, asks[i].args))
  }

  /** What a client reads for its first `n` calls off the reply stream. */
  function ReadReplies(s: Bytes, n: nat): seq<Answer>
  {
    if n == 0 then []
    else
      var a := ReadReply(s);
      [a] + (if a.Got? then ReadReplies(s[a.used..], n - 1) else [])
  }

  predicate Deliverable(r: Reply) { r.status < 10000 && 2 * |r.body| <= MAX_BODY }

  lemma {:induction false} RepliesReadBack(rs: seq<Reply>, rest: Bytes)
    requires forall i :: 0 <= i < |rs| ==> Deliverable(rs[i])
    ensures var got := ReadReplies(AllBytes(rs) + rest, |rs|);
      |got| == |rs| && forall i :: 0 <= i < |rs| ==>
        got[i] == Got(rs[i].status, rs[i].body, |ReplyBytes(rs[i])|)
  {
    hide ReadReply, ReplyBytes;
    if rs == [] {
    } else {
      var tail := AllBytes(rs[1..]) + rest;
      var s := AllBytes(rs) + rest;
      assert s == ReplyBytes(rs[0]) + tail;
      ClientReadsReply(rs[0], tail);
      assert s[|ReplyBytes(rs[0])|..] == tail;
      RepliesReadBack(rs[1..], rest);
      var got := ReadReplies(s, |rs|);
      assert got == [ReadReply(s)] + ReadReplies(tail, |rs| - 1);
      forall i | 0 <= i < |rs| ensures got[i] == Got(rs[i].status, rs[i].body, |ReplyBytes(rs[i])|) {
        if i > 0 {
          assert rs[i] == rs[1..][i - 1] && got[i] == ReadReplies(tail, |rs| - 1)[i - 1];
        }
      }
    }
  }

  /** A whole conversation: every call a client makes comes back with the reply the
      server computed for it, the server runs exactly the calls its table accepts,
      and both ends are left at a frame boundary. */
  lemma Conversation(asks: seq<Ask>, token: Bytes, engine: Engine)
    requires |token| == TOKEN_LEN
    requires forall i :: 0 <= i < |asks| ==> Sendable(asks[i].op, asks[i].args)
    requires forall i :: 0 <= i < |asks| ==> Deliverable(Replies([], asks, engine)[i])
    ensures var stream, rs := Concat(Requests(asks, token)), Replies([], asks, engine);
      var s := Run(stream, token, [], engine);
      var got := ReadReplies(AllBytes(s.replies), |asks|);
      && s.used == |stream| && s.ending == Silent && s.ran == RanAll([], asks)
      && |got| == |asks|
      && forall i :: 0 <= i < |asks| ==> got[i] == Got(rs[i].status, rs[i].body, |ReplyBytes(rs[i])|)
  {
    hide ReadFrame, ReadReply, ReplyBytes, Request, Replies;
    var fs := Requests(asks, token);
    forall i | 0 <= i < |fs| ensures AskFrame(fs[i], token) && AskOf(fs[i], token) == asks[i] {
      ServerReadsRequest(token, asks[i].op, asks[i].args, []);
      assert fs[i] + [] == fs[i];
    }
    assert Asks(fs, token) == asks;
    OneReplyPerFrame(fs, [], token, [], engine);
    assert Concat(fs) + [] == Concat(fs);
    Nothing(token, RanAll([], asks), engine);
    var rs := Replies([], asks, engine);
    assert rs + [] == rs;
    RepliesReadBack(rs, []);
    assert AllBytes(rs) + [] == AllBytes(rs);
  }

  lemma Nothing(token: Bytes, ran: seq<Ask>, engine: Engine)
    ensures Run([], token, ran, engine) == Session([], ran, 0, Silent)
  {}

  function OnlyKnown(a: Ask): seq<Ask> { if Runs(a) then [a] else [] }

  /** The requests with a known opcode and the right count, in order. */
  function KnownOf(asks: seq<Ask>): seq<Ask>
  {
    if asks == [] then [] else OnlyKnown(asks[0]) + KnownOf(asks[1..])
  }

  lemma HistoryIs(ran: seq<Ask>, a: Ask)
    ensures History(ran, a) == ran + OnlyKnown(a)
  {
    hide Runs;
    assert ran + [] == ran;
  }

  lemma {:induction false} RanAreKnown(ran: seq<Ask>, asks: seq<Ask>)
    ensures RanAll(ran, asks) == ran + KnownOf(asks)
    decreases |asks|
  {
    hide OnlyKnown, History;
    if asks == [] {
      assert ran + [] == ran;
    } else {
      HistoryIs(ran, asks[0]);
      RanAreKnown(History(ran, asks[0]), asks[1..]);
      assert ran + OnlyKnown(asks[0]) + KnownOf(asks[1..]) == ran + (OnlyKnown(asks[0]) + KnownOf(asks[1..]));
    }
  }

  lemma {:induction false} KnownSnoc(asks: seq<Ask>, a: Ask)
    ensures KnownOf(asks + [a]) == KnownOf(asks) + OnlyKnown(a)
  {
    hide OnlyKnown;
    if asks == [] {
      assert [a][1..] == [] && OnlyKnown(a) + [] == OnlyKnown(a) == [] + OnlyKnown(a);
    } else {
      assert (asks + [a])[1..] == asks[1..] + [a];
      KnownSnoc(asks[1..], a);
    }
  }

  /** An unknown opcode or a wrong count gets its own error; anything else is answered
      by the engine, run last. */
  lemma AnswerTo(known: seq<Ask>, a: Ask, engine: Engine)
    ensures var r := Respond(known, a, engine);
      if Runs(a) then r == engine(known + OnlyKnown(a))
      else r.status == if Find(OPS, a.op).None? then EOPCODE else EARGS
  {
    hide Find;
  }

  lemma KnownSoFar(asks: seq<Ask>)
    ensures RanAll([], asks) == KnownOf(asks)
  {
    RanAreKnown([], asks);
    assert [] + KnownOf(asks) == KnownOf(asks);
  }

  lemma KnownUpTo(asks: seq<Ask>, i: nat)
    requires i < |asks|
    ensures KnownOf(asks[..i + 1]) == KnownOf(asks[..i]) + OnlyKnown(asks[i])
  {
    assert asks[..i + 1] == asks[..i] + [asks[i]];
    KnownSnoc(asks[..i], asks[i]);
  }

  /** Over a whole session the engine runs the requests it knows, each once and in
      order, and every reply is the engine's to the known requests so far, or the error
      that says what was wrong. */
  lemma EngineRunsTheKnown(asks: seq<Ask>, engine: Engine, i: nat)
    requires i < |asks|
    ensures RanAll([], asks) == KnownOf(asks)
    ensures var r := Replies([], asks, engine)[i];
      if Runs(asks[i]) then r == engine(KnownOf(asks[..i + 1]))
      else r.status == if Find(OPS, asks[i].op).None? then EOPCODE else EARGS
  {
    hide Runs, Find, Respond, KnownOf, OnlyKnown, RanAll, Replies;
    KnownSoFar(asks);
    KnownSoFar(asks[..i]);
    KnownUpTo(asks, i);
    ReplyOrder([], asks, engine, i);
    AnswerTo(KnownOf(asks[..i]), asks[i], engine);
  }
}

// One session of the client: calls, the replacement of a session that has gone,
// and the files reopened so that the caller's handles keep their meaning.
module Reconnect {
  import opened Text
  import W = Wire

  datatype File = File(name: string, part: string)

  /** What is at the other end: nothing; an agent in step, whose slots are its open files
      in order; or one that is a reply behind, so that what is read answers an earlier
      request. */
  datatype Agent = Gone | Up(table: seq<File>) | Astray

  datatype Call = Open(file: File) | Quit | Other

  /** Status, and the slot an OPEN hands back (0 when there is none). */
  datatype Reply = Reply(status: int, slot: nat)

  /** What the wire does with one request: the agent's reply, the account itself saying
      `status` where the agent has to ask it; the agent lost; a reply read whole that
      cannot be used, from an agent that may have done the work; or one not read to its
      end before the client gave up. */
  datatype Event = Answered(status: int) | Lost | Unreadable(done: bool) | Late

  /** What becomes of an attempt at another session: none; one whose PING is not
      answered in time; or one that answers, and what the wire does with each replayed
      open. */
  datatype Rebuild = NoSpawn | Unproved | Spawned(events: seq<Event>)

  // ---- the agent ---------------------------------------------------------

  const POOL := 64

  /** The slot of a file, counted from 1; 0 when it is not open. */
  function Slot(table: seq<File>, f: File): (n: nat)
    ensures n <= |table| && (n > 0 <==> f in table) && (n > 0 ==> table[n - 1] == f)
  {
    if table == [] then 0
    else if table[0] == f then 1
    else
      var n := Slot(table[1..], f);
      if n == 0 then 0 else n + 1
  }

  /** DO.OPEN: a file already open has its slot handed back, and takes no other. */
  function OpenFile(table: seq<File>, f: File, status: int): (seq<File>, Reply)
  {
    if f in table then (table, Reply(W.OK, Slot(table, f)))
    else if |table| >= POOL then (table, Reply(W.EFAIL, 0))
    else if status == W.OK then (table + [f], Reply(W.OK, |table| + 1))
    else (table, Reply(status, 0))
  }

  function Do(table: seq<File>, call: Call, status: int): (seq<File>, Reply)
  {
    if call.Open? then OpenFile(table, call.file, status) else (table, Reply(status, 0))
  }

  /** call_raw: the agent afterwards and the reply as the client sees it. */
  function Raw(agent: Agent, call: Call, e: Event): (Agent, Reply)
  {
    if agent.Gone? || e.Lost? then (Gone, Reply(W.ECLOSED, 0))
    else
      match e
      case Late => (Astray, Reply(W.ECLOSED, 0))
      case Answered(st) =>
        if agent.Astray? then (Astray, Reply(st, 0))
        else
          var (t, r) := Do(agent.table, call, st);
          (Up(t), r)
      case Unreadable(done) =>
        (if agent.Astray? then Astray else Up(Do(agent.table, call, if done then W.OK else W.EFAIL).0),
         Reply(W.EPROTO, 0))
  }

  // ---- the client --------------------------------------------------------

  /** The wire's behaviour for the i-th replayed open. */
  function EventAt(events: seq<Event>, i: nat): Event
  {
    if i < |events| then events[i] else Answered(W.OK)
  }

  /** Replaying the opens from the i-th on, stopping at the first that fails. */
  function Replay(agent: Agent, opens: seq<File>, events: seq<Event>, i: nat): (Agent, bool)
    decreases |opens| - i
  {
    if i >= |opens| then (agent, true)
    else
      var (a, r) := Raw(agent, Open(opens[i]), EventAt(events, i));
      if r.status != W.OK then (a, false) else Replay(a, opens, events, i + 1)
  }

  datatype Link = Link(agent: Agent, opens: seq<File>, reconnects: nat)

  /** The agent a replacement starts from: a new one, or for an attached session the one
      it has, which is not the client's to stop. */
  function StartsFrom(agent: Agent, attached: bool): Agent
  {
    if attached && !agent.Gone? then agent else Up([])
  }

  function Rebuilt(l: Link, attached: bool, rb: Rebuild): (Agent, bool)
  {
    match rb
    case NoSpawn => (if attached then l.agent else Gone, false)
    case Unproved => (Astray, false)
    case Spawned(events) => Replay(StartsFrom(l.agent, attached), l.opens, events, 0)
  }

  function Remembered(f: File): File { File(Cut(f.name, 256), Cut(f.part, 16)) }

  predicate Failed(st: int) { st == W.ECLOSED || st == W.EPROTO }

  /** Whether this call will try to replace the session. */
  predicate Retries(l: Link, call: Call, e1: Event)
  {
    Failed(Raw(l.agent, call, e1).1.status) && !call.Quit? && l.reconnects < 3
  }

  /** The agent and reply once the exchange, and its one retry, are over. */
  function Settled(l: Link, attached: bool, call: Call, e1: Event, rb: Rebuild, e2: Event): (Agent, Reply)
  {
    var (a1, r1) := Raw(l.agent, call, e1);
    if !Retries(l, call, e1) then (a1, r1)
    else
      var (a, ok) := Rebuilt(l.(agent := a1), attached, rb);
      if ok then Raw(a, call, e2) else (a, r1)
  }

  /** mvs_call on a session's state. */
  function Called(l: Link, attached: bool, call: Call, e1: Event, rb: Rebuild, e2: Event): (Link, Reply)
  {
    var (a, r) := Settled(l, attached, call, e1, rb, e2);
    (Link(a, if r.status == W.OK && call.Open? then l.opens + [Remembered(call.file)] else l.opens,
          if r.status == W.OK then 0 else if Retries(l, call, e1) then l.reconnects + 1 else l.reconnects), r)
  }

  /** A call, and what the wire and a spawn do while it lasts. */
  datatype Step = Step(call: Call, e1: Event, rb: Rebuild, e2: Event)

  lemma CountAside(l: Link, n: nat, attached: bool, rb: Rebuild)
    ensures Rebuilt(l.(reconnects := n), attached, rb) == Rebuilt(l, attached, rb)
  {}

  class Session {
    var agent: Agent
    var opens: seq<File>
    var reconnects: nat
    var inReplay: bool
    const attached: bool

    constructor (attached: bool, agent: Agent)
      ensures State() == Link(agent, [], 0) && !inReplay && this.attached == attached
    {
      this.attached := attached;
      this.agent := agent;
      opens := [];
      reconnects := 0;
      inReplay := false;
    }

    function State(): Link
      reads this
    {
      Link(agent, opens, reconnects)
    }

    method CallRaw(call: Call, e: Event) returns (r: Reply)
      modifies this`agent
      ensures agent == Raw(old(agent), call, e).0 && r == Raw(old(agent), call, e).1
    {
      var x := Raw(agent, call, e);
      agent := x.0;
      r := x.1;
    }

    /** reconnect: refused while replaying; otherwise the files come back in order. */
    method Replace(rb: Rebuild) returns (ok: bool)
      modifies this`agent, this`inReplay
      ensures old(inReplay) ==> !ok && agent == old(agent) && inReplay
      ensures !old(inReplay) ==>
        !inReplay && agent == Rebuilt(old(State()), attached, rb).0 && ok == Rebuilt(old(State()), attached, rb).1
    {
      if inReplay {
        return false;
      }
      inReplay := true;
      if !rb.Spawned? {
        agent := if rb.Unproved? then Astray else if attached then agent else Gone;
        inReplay := false;
        return false;
      }
      agent := StartsFrom(agent, attached);
      ok := true;
      var i := 0;
      while ok && i < |opens|
        invariant 0 <= i <= |opens| && inReplay
        invariant Rebuilt(old(State()), attached, rb) ==
          if ok then Replay(agent, opens, rb.events, i) else (agent, false)
      {
        var r := CallRaw(Open(opens[i]), EventAt(rb.events, i));
        ok := r.status == W.OK;
        i := i + 1;
      }
      inReplay := false;
    }

    method Remember(call: Call)
      modifies this`opens
      ensures opens == if inReplay || !call.Open? then old(opens) else old(opens) + [Remembered(call.file)]
    {
      if !inReplay && call.Open? {
        opens := opens + [Remembered(call.file)];
      }
    }

    /** The replacement and, when it succeeds, the request once more. */
    method Again(call: Call, rb: Rebuild, e2: Event, failed: Reply) returns (r: Reply)
      requires !inReplay
      modifies this`agent, this`inReplay
      ensures !inReplay
      ensures var (a, ok) := Rebuilt(old(State()), attached, rb);
        if ok then agent == Raw(a, call, e2).0 && r == Raw(a, call, e2).1 else agent == a && r == failed
    {
      hide Raw, Rebuilt;
      var ok := Replace(rb);
      r := failed;
      if ok {
        r := CallRaw(call, e2);
      }
    }

    /** mvs_call: at most one replacement, then the request once more. */
    method MakeCall(call: Call, e1: Event, rb: Rebuild, e2: Event) returns (r: Reply)
      requires !inReplay
      modifies this
      ensures !inReplay
      ensures var x := Called(old(State()), attached, call, e1, rb, e2); State() == x.0 && r == x.1
    {
      hide Raw, Rebuilt, Remembered, Failed;
      r := CallRaw(call, e1);
      if Failed(r.status) && !call.Quit? && reconnects < 3 {
        reconnects := reconnects + 1;
        CountAside(old(State()).(agent := agent), reconnects, attached, rb);
        r := Again(call, rb, e2, r);
      }
      if r.status == W.OK {
        reconnects := 0;
        Remember(call);
      }
    }
  }

  /** A reply that is not OK hands back no slot, nor does one that answers something else. */
  lemma NoSlotOnFailure(agent: Agent, call: Call, e: Event)
    ensures Raw(agent, call, e).1.status != W.OK ==> Raw(agent, call, e).1.slot == 0
    ensures agent.Astray? ==> Raw(agent, call, e).1.slot == 0
  {}

  /** A file is remembered as it was named exactly when its name and part fit their
      buffers; otherwise by what fits. */
  lemma RememberedExactly(f: File)
    ensures Remembered(f) == f <==> |f.name| < 256 && |f.part| < 16
    ensures |f.name| >= 256 ==> Remembered(f).name == f.name[..255]
    ensures |f.part| >= 16 ==> Remembered(f).part == f.part[..15]
  {}

  // ---- files in order of first opening -----------------------------------

  function Add(table: seq<File>, f: File): seq<File> { if f in table then table else table + [f] }

  /** `table`, then the files not in it yet in the order they first occur. */
  function OpenAll(table: seq<File>, files: seq<File>): seq<File>
    decreases |files|
  {
    if files == [] then table else OpenAll(Add(table, files[0]), files[1..])
  }

  function Distinct(files: seq<File>): seq<File> { OpenAll([], files) }

  lemma {:induction false} OpenAllConcat(table: seq<File>, a: seq<File>, b: seq<File>)
    ensures OpenAll(table, a + b) == OpenAll(OpenAll(table, a), b)
    decreases |a|
  {
    if a == [] {
      assert a + b == b;
    } else {
      assert (a + b)[1..] == a[1..] + b;
      OpenAllConcat(Add(table, a[0]), a[1..], b);
    }
  }

  lemma {:induction false} OpenAllHas(table: seq<File>, files: seq<File>, f: File)
    ensures f in OpenAll(table, files) <==> f in table || f in files
    decreases |files|
  {
    if files == [] {
    } else {
      OpenAllHas(Add(table, files[0]), files[1..], f);
    }
  }

  /** Slots once given stay. */
  lemma {:induction false} OpenAllGrows(table: seq<File>, files: seq<File>)
    ensures |table| <= |OpenAll(table, files)| && OpenAll(table, files)[..|table|] == table
    decreases |files|
  {
    if files == [] {
    } else {
      var t := Add(table, files[0]);
      OpenAllGrows(t, files[1..]);
      assert OpenAll(t, files[1..])[..|table|] == OpenAll(t, files[1..])[..|t|][..|table|] == t[..|table|];
    }
  }

  /** Opening again what is open changes nothing. */
  lemma {:induction false} OpenAllAgain(table: seq<File>, files: seq<File>)
    requires forall f :: f in files ==> f in table
    ensures OpenAll(table, files) == table
    decreases |files|
  {
    if files == [] {
    } else {
      assert files[0] in table;
      OpenAllAgain(table, files[1..]);
    }
  }

  lemma DistinctSnoc(files: seq<File>, f: File)
    ensures Distinct(files + [f]) == Add(Distinct(files), f)
    ensures f in Distinct(files) <==> f in files
  {
    OpenAllConcat([], files, [f]);
    OpenAllHas([], files, f);
    assert [f][1..] == [];
    assert OpenAll(Add(Distinct(files), f), []) == Add(Distinct(files), f);
  }

  /** What comes after `k` opens a file not seen before, or it does not. */
  lemma DistinctUpTo(files: seq<File>, k: nat)
    requires k <= |files|
    ensures |Distinct(files[..k])| <= |Distinct(files)|
    ensures Distinct(files[..k]) == Distinct(files) <==> Covered(files, k)
    ensures k < |files| ==> Distinct(files[..k + 1]) == Add(Distinct(files[..k]), files[k])
    ensures forall f :: f in Distinct(files[..k]) <==> f in files[..k]
  {
    assert files == files[..k] + files[k..];
    OpenAllConcat([], files[..k], files[k..]);
    OpenAllGrows(Distinct(files[..k]), files[k..]);
    forall f ensures f in Distinct(files[..k]) <==> f in files[..k] {
      OpenAllHas([], files[..k], f);
    }
    if Covered(files, k) {
      OpenAllAgain(Distinct(files[..k]), files[k..]);
    } else {
      var j :| k <= j < |files| && files[j] !in files[..k];
      assert files[j] in files;
      OpenAllHas([], files, files[j]);
    }
    if k < |files| {
      assert files[..k + 1] == files[..k] + [files[k]];
      DistinctSnoc(files[..k], files[k]);
    }
  }

  /** Every file from the k-th on is one of the first k. */
  predicate Covered(files: seq<File>, k: nat)
    requires k <= |files|
  {
    forall j :: k <= j < |files| ==> files[j] in files[..k]
  }

  // ---- what a replay comes to --------------------------------------------

  /** What is replayed into: a new agent, one that has the files, one a reply behind. */
  datatype Mode = Fresh | Familiar | Behind

  /** The j-th replayed open comes back OK: the account opens the file, or the agent has
      it open already. */
  predicate Good(mode: Mode, opens: seq<File>, j: nat, e: Event)
    requires j < |opens|
  {
    e.Answered? && (e.status == W.OK || mode == Familiar || (mode == Fresh && opens[j] in opens[..j]))
  }

  /** The first replayed open from the i-th on that does not, |opens| when all do. */
  function FirstBad(mode: Mode, opens: seq<File>, events: seq<Event>, i: nat): (j: nat)
    requires i <= |opens|
    ensures i <= j <= |opens| && (j < |opens| ==> !Good(mode, opens, j, EventAt(events, j)))
    decreases |opens| - i
  {
    if i == |opens| || !Good(mode, opens, i, EventAt(events, i)) then i else FirstBad(mode, opens, events, i + 1)
  }

  /** The agent once `k` files are replayed. */
  function ReplayedTo(mode: Mode, table: seq<File>, opens: seq<File>, k: nat): Agent
    requires k <= |opens|
  {
    match mode
    case Fresh => Up(Distinct(opens[..k]))
    case Familiar => Up(table)
    case Behind => Astray
  }

  /** The agent when the j-th open does not come back OK. */
  function BrokenAt(mode: Mode, table: seq<File>, opens: seq<File>, j: nat, e: Event): Agent
    requires j < |opens|
  {
    match e
    case Lost => Gone
    case Late => Astray
    case Answered(_) => ReplayedTo(mode, table, opens, j)
    case Unreadable(done) => ReplayedTo(mode, table, opens, if done then j + 1 else j)
  }

  lemma ReplayStep(mode: Mode, table: seq<File>, opens: seq<File>, i: nat, e: Event)
    requires i < |opens| && |Distinct(opens)| <= POOL && (mode == Familiar ==> opens[i] in table)
    ensures var (a, r) := Raw(ReplayedTo(mode, table, opens, i), Open(opens[i]), e);
      && (r.status == W.OK <==> Good(mode, opens, i, e))
      && a == if Good(mode, opens, i, e) then ReplayedTo(mode, table, opens, i + 1)
              else BrokenAt(mode, table, opens, i, e)
  {
    hide Distinct;
    if mode == Fresh {
      DistinctUpTo(opens, i);
      DistinctUpTo(opens, i + 1);
    }
  }

  /** A replay read off the wire's events: everything, or what came before the first
      failure, with the failed open itself when it was done. */
  lemma {:induction false} ReplayOutcome(mode: Mode, table: seq<File>, opens: seq<File>, events: seq<Event>, i: nat)
    requires i <= |opens| && |Distinct(opens)| <= POOL
    requires mode == Familiar ==> forall f :: f in opens ==> f in table
    ensures var j := FirstBad(mode, opens, events, i);
      Replay(ReplayedTo(mode, table, opens, i), opens, events, i) ==
        if j == |opens| then (ReplayedTo(mode, table, opens, j), true)
        else (BrokenAt(mode, table, opens, j, EventAt(events, j)), false)
    decreases |opens| - i
  {
    if i == |opens| {
    } else {
      hide ReplayedTo, BrokenAt, Raw, Good, Distinct;
      ReplayStep(mode, table, opens, i, EventAt(events, i));
      if Good(mode, opens, i, EventAt(events, i)) {
        ReplayOutcome(mode, table, opens, events, i + 1);
      }
    }
  }

  /** An attached session's replay into its own agent changes nothing there, however the
      account would answer: every file is open already. */
  lemma AttachedReplayIsIdle(table: seq<File>, opens: seq<File>, events: seq<Event>)
    requires |Distinct(opens)| <= POOL && forall f :: f in opens ==> f in table
    requires forall i :: 0 <= i < |opens| ==> EventAt(events, i).Answered?
    ensures Replay(Up(table), opens, events, 0) == (Up(table), true)
  {
    ReplayOutcome(Familiar, table, opens, events, 0);
  }
}

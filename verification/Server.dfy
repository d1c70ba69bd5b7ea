// The lazy per-user server as interleaved steps: processes that probe, race for the
// lock, serve, fork session children, reap them and leave when idle.
module Server {
  import opened Text

  type Pid = nat

  const IDLE_EXIT_SECS := 300

  /** Where a process inside server_loop is. */
  datatype Pc = AtPoll | AtReap(timedOut: bool) | AtCheck(timedOut: bool) | AtFork | Leaving

  datatype Stage = Newborn | Serving | Finished

  datatype Proc =
    | Connecting                                       // --connect, or any other caller
    | Probing                                          // inside server_running, lock held for the test
    | Starting                                         // about to try the lock
    | Server(pc: Pc, children: nat, last: nat)
    | Child(parent: Option<Pid>, stage: Stage)         // a forked session child; None: its server has gone

  /** `lock` is the set of processes holding a descriptor of the locked pid file;
      it is free when there is none.  `now` is the clock. */
  datatype State = State(procs: map<Pid, Proc>, lock: set<Pid>, now: nat)

  datatype Step =
    | Arrive(p: Pid, proc: Proc)
    | Depart(p: Pid)
    | ProbeTake(p: Pid)
    | ProbeDrop(p: Pid)
    | ForkStarter(p: Pid, q: Pid)
    | Win(p: Pid)
    | Lose(p: Pid)
    | Poll(p: Pid, timedOut: bool)
    | ReapOne(p: Pid, c: Pid)
    | ReapDone(p: Pid)
    | IdleExit(p: Pid)
    | IdleStay(p: Pid)
    | ReadByte(p: Pid, hello: bool)
    | ForkChild(p: Pid, c: Pid)
    | ForkFails(p: Pid)
    | ChildDropsLock(c: Pid)
    | ChildEnds(c: Pid)
    | Unlock(p: Pid)
    | CloseOnExit(p: Pid)
    | Tick
    | Stop(p: Pid)                                     // SIGTERM: --stop, SHUTDOWN, a new build

  predicate Is(s: State, p: Pid, proc: Proc) { p in s.procs && s.procs[p] == proc }

  predicate IsServer(s: State, p: Pid) { p in s.procs && s.procs[p].Server? }

  predicate AtPc(s: State, p: Pid, pc: Pc) { IsServer(s, p) && s.procs[p].pc == pc }

  predicate IsChild(s: State, c: Pid, p: Pid) { c in s.procs && s.procs[c].Child? && s.procs[c].parent == Some(p) }

  /** The unreaped forks of `p`, running or finished. */
  function Kids(s: State, p: Pid): set<Pid> { set c | c in s.procs && IsChild(s, c, p) }

  predicate Enabled(s: State, t: Step)
  {
    match t
    case Arrive(p, proc) => p !in s.procs && (proc.Connecting? || proc.Starting?)
    case Depart(p) => Is(s, p, Connecting)
    case ProbeTake(p) => Is(s, p, Connecting) && s.lock == {}
    case ProbeDrop(p) => Is(s, p, Probing)
    case ForkStarter(p, q) => Is(s, p, Connecting) && q !in s.procs
    case Win(p) => Is(s, p, Starting) && s.lock == {}
    case Lose(p) => Is(s, p, Starting) && s.lock != {}
    case Poll(p, timedOut) => AtPc(s, p, AtPoll)
    case ReapOne(p, c) =>
      IsServer(s, p) && s.procs[p].pc.AtReap? && s.procs[p].children > 0 && Is(s, c, Child(Some(p), Finished))
    case ReapDone(p) =>
      IsServer(s, p) && s.procs[p].pc.AtReap? &&
      (s.procs[p].children == 0 || forall c :: c in s.procs ==> s.procs[c] != Child(Some(p), Finished))
    case IdleExit(p) =>
      AtPc(s, p, AtCheck(true)) && s.procs[p].children == 0 && s.now - s.procs[p].last >= IDLE_EXIT_SECS
    case IdleStay(p) =>
      AtPc(s, p, AtCheck(true)) && !(s.procs[p].children == 0 && s.now - s.procs[p].last >= IDLE_EXIT_SECS)
    case ReadByte(p, hello) => AtPc(s, p, AtCheck(false))
    case ForkChild(p, c) => AtPc(s, p, AtFork) && c !in s.procs
    case ForkFails(p) => AtPc(s, p, AtFork)
    case ChildDropsLock(c) => c in s.procs && s.procs[c].Child? && s.procs[c].stage.Newborn?
    case ChildEnds(c) => c in s.procs && s.procs[c].Child? && !s.procs[c].stage.Finished?
    case Unlock(p) => AtPc(s, p, Leaving)
    case CloseOnExit(p) => AtPc(s, p, Leaving)
    case Tick => true
    case Stop(p) => AtPc(s, p, AtPoll)
  }

  function SetPc(s: State, p: Pid, pc: Pc): State
    requires IsServer(s, p)
  {
    s.(procs := s.procs[p := s.procs[p].(pc := pc)])
  }

  /** The processes once `p` has exited: forks that had finished go with it, and those
      still running have no parent. */
  function Left(s: State, p: Pid): map<Pid, Proc>
  {
    map c | c in s.procs && c != p && !(IsChild(s, c, p) && s.procs[c].stage.Finished?) ::
      if IsChild(s, c, p) then s.procs[c].(parent := None) else s.procs[c]
  }

  function Apply(s: State, t: Step): State
    requires Enabled(s, t)
  {
    match t
    case Arrive(p, proc) => s.(procs := s.procs[p := proc])
    case Depart(p) => s.(procs := s.procs - {p})
    case ProbeTake(p) => s.(procs := s.procs[p := Probing], lock := {p})
    case ProbeDrop(p) => s.(procs := s.procs[p := Connecting], lock := {})
    case ForkStarter(p, q) => s.(procs := s.procs[q := Starting])
    case Win(p) => s.(procs := s.procs[p := Server(AtPoll, 0, s.now)], lock := {p})
    case Lose(p) => s.(procs := s.procs - {p})
    case Poll(p, timedOut) => SetPc(s, p, AtReap(timedOut))
    case ReapOne(p, c) =>
      var sv := s.procs[p];
      s.(procs := s.procs[p := sv.(children := sv.children - 1)] - {c}, lock := s.lock - {c})
    case ReapDone(p) => SetPc(s, p, AtCheck(s.procs[p].pc.timedOut))
    case IdleExit(p) => SetPc(s, p, Leaving)
    case IdleStay(p) => SetPc(s, p, AtPoll)
    case ReadByte(p, hello) =>
      s.(procs := s.procs[p := Server(if hello then AtFork else AtPoll, s.procs[p].children, s.now)])
    case ForkChild(p, c) =>
      var sv := s.procs[p];
      s.(procs := s.procs[p := Server(AtPoll, sv.children + 1, sv.last)][c := Child(Some(p), Newborn)],
         lock := if p in s.lock then s.lock + {c} else s.lock)
    case ForkFails(p) => SetPc(s, p, AtPoll)
    case ChildDropsLock(c) => s.(procs := s.procs[c := s.procs[c].(stage := Serving)], lock := s.lock - {c})
    case ChildEnds(c) =>
      s.(procs := if s.procs[c].parent.None? then s.procs - {c} else s.procs[c := s.procs[c].(stage := Finished)],
         lock := s.lock - {c})
    case Unlock(p) => State(Left(s, p), {}, s.now)
    case CloseOnExit(p) => State(Left(s, p), s.lock - {p}, s.now)
    case Tick => s.(now := s.now + 1)
    case Stop(p) => SetPc(s, p, Leaving)
  }

  // ---- the invariant -----------------------------------------------------

  /** A process in server_loop holds the lock and is the only one there; its count is
      the number of its unreaped forks. */
  predicate ServersOk(s: State)
  {
    && (forall p :: p in s.procs && s.procs[p].Server? ==>
          p in s.lock && s.procs[p].last <= s.now && s.procs[p].children == |Kids(s, p)|)
    && forall p, q :: p in s.procs && q in s.procs && s.procs[p].Server? && s.procs[q].Server? ==> p == q
  }

  /** A child with a parent has a server. */
  predicate ParentsOk(s: State)
  {
    forall c :: c in s.procs && s.procs[c].Child? && s.procs[c].parent.Some? ==> IsServer(s, s.procs[c].parent.value)
  }

  /** The lock is held by one prober alone, or by the server and children that have
      not dropped it yet. */
  predicate LockOk(s: State)
  {
    && (forall p :: p in s.procs && s.procs[p].Probing? ==> s.lock == {p})
    && forall p :: p in s.lock ==>
         p in s.procs && (s.procs[p].Probing? || s.procs[p].Server? || (s.procs[p].Child? && s.procs[p].stage.Newborn?))
  }

  /** What every step keeps, whatever is stopped. */
  predicate Inv(s: State) { ServersOk(s) && ParentsOk(s) && LockOk(s) }

  predicate Init(s: State) { s.procs == map[] && s.lock == {} }

  lemma InitInv(s: State)
    requires Init(s)
    ensures Inv(s) && NoOrphans(s) && LeavingOk(s)
  {}

  /** Kids of a server no step touches. */
  lemma SameKids(s: State, t: State, p: Pid)
    requires forall c :: (c in s.procs && IsChild(s, c, p)) <==> (c in t.procs && IsChild(t, c, p))
    ensures Kids(s, p) == Kids(t, p)
  {}

  lemma KidsWin(s: State, q: Pid)
    requires Inv(s) && Enabled(s, Win(q))
    ensures forall p :: IsServer(Apply(s, Win(q)), p) ==> p == q && Kids(Apply(s, Win(q)), p) == {}
  {}

  lemma KidsReap(s: State, q: Pid, c: Pid, p: Pid)
    requires Enabled(s, ReapOne(q, c)) && IsServer(s, p)
    ensures |Kids(Apply(s, ReapOne(q, c)), p)| == if p == q then |Kids(s, p)| - 1 else |Kids(s, p)|
  {
    var s' := Apply(s, ReapOne(q, c));
    if p == q {
      assert Kids(s', p) == Kids(s, p) - {c} && c in Kids(s, p);
    } else {
      SameKids(s, s', p);
    }
  }

  lemma KidsFork(s: State, q: Pid, c: Pid, p: Pid)
    requires Enabled(s, ForkChild(q, c)) && IsServer(s, p)
    ensures |Kids(Apply(s, ForkChild(q, c)), p)| == if p == q then |Kids(s, p)| + 1 else |Kids(s, p)|
  {
    var s' := Apply(s, ForkChild(q, c));
    if p == q {
      forall x ensures x in Kids(s', p) <==> x in Kids(s, p) + {c} {
        assert x != c && x != p ==> (x in s.procs <==> x in s'.procs);
      }
      assert Kids(s', p) == Kids(s, p) + {c} && c !in Kids(s, p);
    } else {
      SameKids(s, s', p);
    }
  }

  lemma KidsElse(s: State, t: Step, p: Pid)
    requires Enabled(s, t) && !t.Win? && !t.ReapOne? && !t.ForkChild?
    requires IsServer(Apply(s, t), p)
    ensures IsServer(s, p) && Kids(Apply(s, t), p) == Kids(s, p)
  {
    var s' := Apply(s, t);
    forall c ensures (c in s.procs && IsChild(s, c, p)) <==> (c in s'.procs && IsChild(s', c, p)) {}
    SameKids(s, s', p);
  }

  lemma CountKept(s: State, t: Step, p: Pid)
    requires Inv(s) && Enabled(s, t) && IsServer(Apply(s, t), p)
    ensures Apply(s, t).procs[p].children == |Kids(Apply(s, t), p)|
  {
    hide Kids, LockOk, ParentsOk;
    match t {
      case Win(q) => KidsWin(s, q);
      case ReapOne(q, c) => KidsReap(s, q, c, p);
      case ForkChild(q, c) => KidsFork(s, q, c, p);
      case _ => KidsElse(s, t, p);
    }
  }

  lemma StepKeepsServers(s: State, t: Step)
    requires Inv(s) && Enabled(s, t)
    ensures ServersOk(Apply(s, t))
  {
    var s' := Apply(s, t);
    StepKeepsUnique(s, t);
    hide Kids, LockOk, ParentsOk, Apply;
    forall p | p in s'.procs && s'.procs[p].Server? ensures s'.procs[p].children == |Kids(s', p)| {
      CountKept(s, t, p);
    }
  }

  lemma StepKeepsUnique(s: State, t: Step)
    requires Inv(s) && Enabled(s, t)
    ensures var s' := Apply(s, t);
      && (forall p :: p in s'.procs && s'.procs[p].Server? ==> p in s'.lock && s'.procs[p].last <= s'.now)
      && forall p, q :: p in s'.procs && q in s'.procs && s'.procs[p].Server? && s'.procs[q].Server? ==> p == q
  {
    hide Kids, ParentsOk;
  }

  lemma StepKeepsParents(s: State, t: Step)
    requires Inv(s) && Enabled(s, t)
    ensures ParentsOk(Apply(s, t))
  {}

  lemma StepKeepsLock(s: State, t: Step)
    requires Inv(s) && Enabled(s, t)
    ensures LockOk(Apply(s, t))
  {}

  /** Every step of every process, a stop signal included, keeps the invariant. */
  lemma StepKeepsInv(s: State, t: Step)
    requires Inv(s) && Enabled(s, t)
    ensures Inv(Apply(s, t))
  {
    StepKeepsServers(s, t);
    StepKeepsParents(s, t);
    StepKeepsLock(s, t);
  }

  lemma NoKids(s: State, p: Pid, c: Pid)
    requires Inv(s) && IsServer(s, p) && s.procs[p].children == 0
    ensures !IsChild(s, c, p)
  {
    assert IsChild(s, c, p) <==> c in Kids(s, p);
  }

  /** A run: steps each enabled where it is taken. */
  predicate Run(s: State, steps: seq<Step>)
    decreases |steps|
  {
    steps == [] || (Enabled(s, steps[0]) && Run(Apply(s, steps[0]), steps[1..]))
  }

  function End(s: State, steps: seq<Step>): State
    requires Run(s, steps)
    decreases |steps|
  {
    if steps == [] then s else End(Apply(s, steps[0]), steps[1..])
  }

  lemma {:induction false} RunKeepsInv(s: State, steps: seq<Step>)
    requires Inv(s) && Run(s, steps)
    ensures Inv(End(s, steps))
    decreases |steps|
  {
    if steps == [] {
    } else {
      StepKeepsInv(s, steps[0]);
      RunKeepsInv(Apply(s, steps[0]), steps[1..]);
    }
  }

  // ---- mutual exclusion, in every run ------------------------------------

  /** In every interleaving, with stop signals anywhere: at most one process serves, it
      holds the lock, its count is its unreaped forks, and every session child that has a
      parent has that one. */
  lemma OneServer(s: State, steps: seq<Step>)
    requires Init(s) && Run(s, steps)
    ensures var e := End(s, steps);
      && (forall p, q :: IsServer(e, p) && IsServer(e, q) ==> p == q)
      && (forall p :: IsServer(e, p) ==> p in e.lock && e.procs[p].children == |Kids(e, p)|)
      && (forall c :: c in e.procs && e.procs[c].Child? && e.procs[c].parent.Some? ==>
            IsServer(e, e.procs[c].parent.value) && forall q: Pid :: IsServer(e, q) ==> Some(q) == e.procs[c].parent)
  {
    InitInv(s);
    RunKeepsInv(s, steps);
  }

  // ---- children without a server -----------------------------------------

  /** No child is at work without a server. */
  predicate NoOrphans(s: State) { forall c :: c in s.procs && s.procs[c].Child? ==> s.procs[c].parent.Some? }

  predicate AllDone(s: State, p: Pid) { forall c :: c in s.procs && IsChild(s, c, p) ==> s.procs[c].stage.Finished? }

  /** A server on its way out has no fork at work. */
  predicate LeavingOk(s: State) { forall p :: p in s.procs && AtPc(s, p, Leaving) ==> AllDone(s, p) }

  predicate Exits(t: Step) { t.Unlock? || t.CloseOnExit? }

  /** An exit orphans nobody exactly when every fork of the server has finished. */
  lemma ExitOrphans(s: State, t: Step)
    requires Enabled(s, t) && Exits(t) && NoOrphans(s)
    ensures NoOrphans(Apply(s, t)) <==> AllDone(s, t.p)
  {
    var s' := Apply(s, t);
    if !AllDone(s, t.p) {
      var c :| c in s.procs && IsChild(s, c, t.p) && !s.procs[c].stage.Finished?;
      assert s'.procs[c].parent.None?;
    }
  }

  lemma OthersOrphanNobody(s: State, t: Step)
    requires Enabled(s, t) && !Exits(t) && NoOrphans(s)
    ensures NoOrphans(Apply(s, t))
  {}

  /** A stop leaves children at work without a server, whichever way the lock is given
      up, exactly when some fork of the server has not finished; forks that only wait to
      be reaped do not count. */
  lemma StopStrands(s: State, p: Pid)
    requires NoOrphans(s) && Enabled(s, Stop(p))
    ensures var t := Apply(s, Stop(p));
      && (NoOrphans(Apply(t, Unlock(p))) <==> AllDone(s, p))
      && (NoOrphans(Apply(t, CloseOnExit(p))) <==> AllDone(s, p))
  {
    var t := Apply(s, Stop(p));
    assert forall c :: (c in t.procs && IsChild(t, c, p)) <==> (c in s.procs && IsChild(s, c, p));
    assert forall c :: c in s.procs && IsChild(s, c, p) ==> t.procs[c] == s.procs[c];
    ExitOrphans(t, Unlock(p));
    ExitOrphans(t, CloseOnExit(p));
  }

  /** No child is without a server at any point of the run. */
  predicate AlwaysAttended(s: State, steps: seq<Step>)
    requires Run(s, steps)
    decreases |steps|
  {
    NoOrphans(s) && (steps == [] || AlwaysAttended(Apply(s, steps[0]), steps[1..]))
  }

  /** Every server that exits has no fork at work then. */
  predicate ExitsFit(s: State, steps: seq<Step>)
    requires Run(s, steps)
    decreases |steps|
  {
    steps == [] ||
    ((Exits(steps[0]) ==> AllDone(s, steps[0].p)) && ExitsFit(Apply(s, steps[0]), steps[1..]))
  }

  /** Over a whole run no child is ever at work without a server, exactly when every server
      that exits has no fork at work then. */
  lemma {:induction false} AttendedExactly(s: State, steps: seq<Step>)
    requires NoOrphans(s) && Run(s, steps)
    ensures AlwaysAttended(s, steps) <==> ExitsFit(s, steps)
    decreases |steps|
  {
    if steps == [] {
    } else {
      hide Enabled, Apply, NoOrphans, AllDone;
      var t := steps[0];
      if Exits(t) {
        ExitOrphans(s, t);
      } else {
        OthersOrphanNobody(s, t);
      }
      if NoOrphans(Apply(s, t)) {
        AttendedExactly(Apply(s, t), steps[1..]);
      } else {
        NotAttended(Apply(s, t), steps[1..]);
      }
    }
  }

  lemma NotAttended(s: State, steps: seq<Step>)
    requires Run(s, steps) && !NoOrphans(s)
    ensures !AlwaysAttended(s, steps)
  {}

  /** Every stop in the run reaches a server whose forks have all finished. */
  predicate StopsFit(s: State, steps: seq<Step>)
    requires Run(s, steps)
    decreases |steps|
  {
    steps == [] ||
    ((steps[0].Stop? ==> AllDone(s, steps[0].p)) && StopsFit(Apply(s, steps[0]), steps[1..]))
  }

  lemma StepKeepsLeaving(s: State, t: Step)
    requires Inv(s) && LeavingOk(s) && Enabled(s, t) && (t.Stop? ==> AllDone(s, t.p))
    ensures LeavingOk(Apply(s, t))
  {
    var s' := Apply(s, t);
    forall p, c | AtPc(s', p, Leaving) && c in s'.procs && IsChild(s', c, p) ensures s'.procs[c].stage.Finished? {
      if t.IdleExit? && t.p == p {
        NoKids(s, p, c);
      }
    }
  }

  /** So a run whose stops all reach such servers, and in particular one without a stop,
      never leaves a child alone: the idle exit is careful by itself. */
  lemma {:induction false} StopsFitRun(s: State, steps: seq<Step>)
    requires Inv(s) && LeavingOk(s) && Run(s, steps) && StopsFit(s, steps)
    ensures ExitsFit(s, steps) && LeavingOk(End(s, steps))
    decreases |steps|
  {
    if steps == [] {
    } else {
      hide Inv, AllDone, Apply;
      StepKeepsInv(s, steps[0]);
      StepKeepsLeaving(s, steps[0]);
      assert Exits(steps[0]) ==> AtPc(s, steps[0].p, Leaving);
      StopsFitRun(Apply(s, steps[0]), steps[1..]);
    }
  }

  /** From the start: with stops only of servers whose forks have finished, every child
      belongs, at every point, to the one server. */
  lemma EveryChildHasTheServer(s: State, steps: seq<Step>)
    requires Init(s) && Run(s, steps) && StopsFit(s, steps)
    ensures AlwaysAttended(s, steps) && NoOrphans(End(s, steps))
  {
    InitInv(s);
    StopsFitRun(s, steps);
    AttendedExactly(s, steps);
    AttendedAtEnd(s, steps);
  }

  lemma {:induction false} AttendedAtEnd(s: State, steps: seq<Step>)
    requires Run(s, steps) && AlwaysAttended(s, steps)
    ensures NoOrphans(End(s, steps))
    decreases |steps|
  {
    if steps == [] {
    } else {
      AttendedAtEnd(Apply(s, steps[0]), steps[1..]);
    }
  }

  // ---- the idle clock ----------------------------------------------------

  /** When the process last read a byte of the control pipe, or won the lock. */
  function Heard(s: State, steps: seq<Step>, p: Pid, at: nat): nat
    requires Run(s, steps)
    decreases |steps|
  {
    if steps == [] then at
    else
      var t := steps[0];
      Heard(Apply(s, t), steps[1..], p, if (t.ReadByte? || t.Win?) && t.p == p then s.now else at)
  }

  lemma {:induction false} LastIsHeard(s: State, steps: seq<Step>, p: Pid, at: nat)
    requires Run(s, steps) && (IsServer(s, p) ==> s.procs[p].last == at)
    ensures var e := End(s, steps); IsServer(e, p) ==> e.procs[p].last == Heard(s, steps, p, at)
    decreases |steps|
  {
    if steps == [] {
    } else {
      var t := steps[0];
      StepHeard(s, t, p, at);
      hide Enabled, Apply;
      LastIsHeard(Apply(s, t), steps[1..], p, if (t.ReadByte? || t.Win?) && t.p == p then s.now else at);
    }
  }

  lemma StepHeard(s: State, t: Step, p: Pid, at: nat)
    requires Enabled(s, t) && (IsServer(s, p) ==> s.procs[p].last == at)
    ensures var s' := Apply(s, t);
      IsServer(s', p) ==> s'.procs[p].last == if (t.ReadByte? || t.Win?) && t.p == p then s.now else at
  {}

  /** An idle exit comes only after the whole idle time since the last byte anyone wrote
      was read, or since the lock was won. */
  lemma IdleSinceLastByte(s: State, steps: seq<Step>, p: Pid)
    requires Init(s) && Run(s, steps) && Enabled(End(s, steps), IdleExit(p))
    ensures Heard(s, steps, p, 0) + IDLE_EXIT_SECS <= End(s, steps).now
  {
    LastIsHeard(s, steps, p, 0);
  }

  // ---- exits and elections -----------------------------------------------

  /** An idle exit is taken only by a server with no fork left, running or finished, and
      only once nothing has been read for the whole idle time. */
  lemma IdleExitIsSafe(s: State, steps: seq<Step>, p: Pid)
    requires Init(s) && Run(s, steps) && Enabled(End(s, steps), IdleExit(p))
    ensures var e := End(s, steps);
      && Kids(e, p) == {} && e.procs[p].last + IDLE_EXIT_SECS <= e.now
      && (NoOrphans(e) ==> forall c :: c in e.procs ==> !e.procs[c].Child?)
  {
    InitInv(s);
    RunKeepsInv(s, steps);
    NoneLeft(End(s, steps), p);
  }

  lemma NoneLeft(e: State, p: Pid)
    requires Inv(e) && IsServer(e, p) && e.procs[p].children == 0
    ensures Kids(e, p) == {} && (NoOrphans(e) ==> forall c :: c in e.procs ==> !e.procs[c].Child?)
  {
    forall c ensures !IsChild(e, c, p) {
      NoKids(e, p, c);
    }
    if NoOrphans(e) {
      forall c | c in e.procs ensures !e.procs[c].Child? {
        OnlyServer(e, p, c);
      }
    }
  }

  lemma OnlyServer(e: State, p: Pid, c: Pid)
    requires Inv(e) && IsServer(e, p) && NoOrphans(e)
    ensures c in e.procs && e.procs[c].Child? ==> IsChild(e, c, p)
  {}

  /** With stops of such servers only, the lock goes with nobody else holding it, so that
      closing it does as well as unlocking it. */
  lemma LockGoesAlone(s: State, steps: seq<Step>, p: Pid)
    requires Init(s) && Run(s, steps) && StopsFit(s, steps) && Enabled(End(s, steps), Unlock(p))
    ensures var e := End(s, steps);
      e.lock == {p} && Apply(e, CloseOnExit(p)) == Apply(e, Unlock(p))
  {
    InitInv(s);
    hide Inv, NoOrphans, LeavingOk, Apply, Enabled, Init;
    RunKeepsInv(s, steps);
    StopsFitRun(s, steps);
    EveryChildHasTheServer(s, steps);
    LockAlone(End(s, steps), p);
  }

  lemma LockAlone(e: State, p: Pid)
    requires Inv(e) && NoOrphans(e) && LeavingOk(e) && Enabled(e, Unlock(p))
    ensures e.lock == {p} && Apply(e, CloseOnExit(p)) == Apply(e, Unlock(p))
  {
    hide Kids;
    forall c | c in e.procs && e.procs[c].Child? ensures e.procs[c].stage.Finished? {
      assert e.procs[c].parent == Some(p) && IsChild(e, c, p);
    }
    assert e.lock == {p} && e.lock - {p} == {};
  }

  /** A second starter can win only when nobody serves, whatever was stopped; and then no
      child is left over either, unless it was orphaned. */
  lemma WinNeedsQuiet(s: State, steps: seq<Step>, p: Pid)
    requires Init(s) && Run(s, steps) && Enabled(End(s, steps), Win(p))
    ensures var e := End(s, steps);
      forall q :: q in e.procs ==> !e.procs[q].Server? && (e.procs[q].Child? ==> e.procs[q].parent.None?)
  {
    InitInv(s);
    RunKeepsInv(s, steps);
  }

  // ---- progress ----------------------------------------------------------

  /** The reap: any finished fork can be reaped, and it is over exactly when none is left. */
  lemma ReapTakesAll(s: State, p: Pid, timedOut: bool, c: Pid)
    requires Inv(s) && AtPc(s, p, AtReap(timedOut))
    ensures Enabled(s, ReapOne(p, c)) <==> IsChild(s, c, p) && s.procs[c].stage.Finished?
    ensures Enabled(s, ReapDone(p)) <==> forall k :: k in Kids(s, p) ==> !s.procs[k].stage.Finished?
  {
    if IsChild(s, c, p) {
      assert c in Kids(s, p);
    }
    assert s.procs[p].children == 0 ==> Kids(s, p) == {};
    assert forall k :: k in s.procs && s.procs[k] == Child(Some(p), Finished) ==> k in Kids(s, p);
  }

  lemma NoneIsNone(s: State, p: Pid)
    requires Inv(s) && IsServer(s, p)
    ensures s.procs[p].children == 0 <==> Kids(s, p) == {}
  {}

  /** A server is never stuck, whatever the others do: it polls, reaps until no finished fork
      is left, leaves exactly when it timed out with no fork and the idle time is over, and
      otherwise goes on. */
  lemma NeverStuck(s: State, p: Pid)
    requires Inv(s) && IsServer(s, p)
    ensures s.procs[p].pc.AtPoll? ==> Enabled(s, Poll(p, true)) && Enabled(s, Poll(p, false))
    ensures s.procs[p].pc.AtReap? ==> Enabled(s, ReapDone(p)) || exists c :: Enabled(s, ReapOne(p, c))
    ensures s.procs[p].pc.AtCheck? && s.procs[p].pc.timedOut ==>
      && (Enabled(s, IdleExit(p)) <==> Kids(s, p) == {} && s.procs[p].last + IDLE_EXIT_SECS <= s.now)
      && (Enabled(s, IdleStay(p)) <==> !Enabled(s, IdleExit(p)))
    ensures s.procs[p].pc.AtCheck? && !s.procs[p].pc.timedOut ==>
      Enabled(s, ReadByte(p, true)) && Enabled(s, ReadByte(p, false))
    ensures s.procs[p].pc.AtFork? ==> Enabled(s, ForkFails(p)) && forall c :: c !in s.procs ==> Enabled(s, ForkChild(p, c))
    ensures s.procs[p].pc.Leaving? ==> Enabled(s, Unlock(p)) && Enabled(s, CloseOnExit(p))
  {
    NoneIsNone(s, p);
    if s.procs[p].pc.AtReap? {
      ReapGoesOn(s, p, s.procs[p].pc.timedOut);
    }
    hide Inv, Kids;
  }

  lemma ReapGoesOn(s: State, p: Pid, timedOut: bool)
    requires Inv(s) && AtPc(s, p, AtReap(timedOut))
    ensures Enabled(s, ReapDone(p)) || exists c :: Enabled(s, ReapOne(p, c))
  {
    ReapTakesAll(s, p, timedOut, p);
    hide Enabled, Inv;
    if k :| k in Kids(s, p) && s.procs[k].stage.Finished? {
      ReapTakesAll(s, p, timedOut, k);
      assert Enabled(s, ReapOne(p, k));
    }
  }

  /** Nor is anybody else: a starter wins or loses as the lock is free or not, a child can
      drop the lock, end, or have ended, and the clock always runs. */
  lemma OthersNeverStuck(s: State, q: Pid)
    requires q in s.procs
    ensures s.procs[q].Starting? ==> (Enabled(s, Win(q)) <==> s.lock == {}) && (Enabled(s, Lose(q)) <==> s.lock != {})
    ensures s.procs[q].Connecting? ==>
      Enabled(s, Depart(q)) && (Enabled(s, ProbeTake(q)) <==> s.lock == {}) && forall c :: c !in s.procs ==> Enabled(s, ForkStarter(q, c))
    ensures s.procs[q].Probing? ==> Enabled(s, ProbeDrop(q))
    ensures s.procs[q].Child? ==>
      && (Enabled(s, ChildDropsLock(q)) <==> s.procs[q].stage.Newborn?)
      && (Enabled(s, ChildEnds(q)) <==> !s.procs[q].stage.Finished?)
    ensures Enabled(s, Tick) && Apply(s, Tick) == s.(now := s.now + 1)
  {}

  function Ticks(n: nat): (r: seq<Step>)
    ensures |r| == n && forall i :: 0 <= i < n ==> r[i] == Tick
  {
    seq(n, _ => Tick)
  }

  lemma {:induction false} TicksPass(s: State, n: nat)
    ensures Run(s, Ticks(n)) && End(s, Ticks(n)) == s.(now := s.now + n)
    decreases n
  {
    if n == 0 {
    } else {
      TicksPass(s.(now := s.now + 1), n - 1);
      assert Ticks(n)[1..] == Ticks(n - 1);
    }
  }

  /** A server nobody speaks to does go: with no fork, once as many seconds have passed as
      the idle time wants and no sooner, its next timeout frees the lock. */
  lemma QuietServerGoes(s: State, p: Pid, n: nat)
    requires Inv(s) && AtPc(s, p, AtPoll) && Kids(s, p) == {}
    ensures var wait := Ticks(n) + [Poll(p, true), ReapDone(p)];
      && Run(s, wait) && AtPc(End(s, wait), p, AtCheck(true))
      && (Enabled(End(s, wait), IdleExit(p)) <==> s.procs[p].last + IDLE_EXIT_SECS <= s.now + n)
    ensures s.procs[p].last + IDLE_EXIT_SECS <= s.now + n ==>
      var gone := Ticks(n) + [Poll(p, true), ReapDone(p)] + [IdleExit(p), Unlock(p)];
      Run(s, gone) && p !in End(s, gone).procs && End(s, gone).lock == {}
  {
    hide Run, End;
    var later := s.(now := s.now + n);
    TicksPass(s, n);
    NoneIsNone(s, p);
    QuietRound(later, p);
    RunConcat(s, Ticks(n), [Poll(p, true), ReapDone(p)]);
    if s.procs[p].last + IDLE_EXIT_SECS <= s.now + n {
      QuietExit(End(later, [Poll(p, true), ReapDone(p)]), p);
      RunConcat(s, Ticks(n) + [Poll(p, true), ReapDone(p)], [IdleExit(p), Unlock(p)]);
    }
  }

  lemma QuietRound(s: State, p: Pid)
    requires AtPc(s, p, AtPoll) && s.procs[p].children == 0
    ensures var steps := [Poll(p, true), ReapDone(p)];
      Run(s, steps) && End(s, steps) == SetPc(s, p, AtCheck(true))
  {
    var b := SetPc(s, p, AtReap(true));
    var c := SetPc(s, p, AtCheck(true));
    assert Apply(s, Poll(p, true)) == b && SetPc(b, p, AtCheck(true)) == c;
    TwoSteps(s, Poll(p, true), b, ReapDone(p), c);
  }

  lemma QuietExit(c: State, p: Pid)
    requires AtPc(c, p, AtCheck(true)) && c.procs[p].children == 0 && c.procs[p].last + IDLE_EXIT_SECS <= c.now
    ensures var steps := [IdleExit(p), Unlock(p)];
      Run(c, steps) && p !in End(c, steps).procs && End(c, steps).lock == {}
  {
    var d := SetPc(c, p, Leaving);
    assert Apply(c, IdleExit(p)) == d;
    TwoSteps(c, IdleExit(p), d, Unlock(p), Apply(d, Unlock(p)));
  }

  /** A server forks a session child, is stopped, and the next one starts. */
  function StopRun(): seq<Step>
  {
    [Arrive(1, Starting), Win(1), Poll(1, false), ReapDone(1), ReadByte(1, true)]
    + [ForkChild(1, 9), ChildDropsLock(9), Stop(1), Unlock(1), Arrive(2, Starting), Win(2)]
  }

  /** The exception is real: after that run the child is still at work and belongs to
      no server, beside a second server. */
  lemma StopStrandsChildren()
    ensures var s := State(map[], {}, 0);
      && Run(s, StopRun())
      && End(s, StopRun()) == State(map[9 := Child(None, Serving), 2 := Server(AtPoll, 0, 0)], {2}, 0)
      && !NoOrphans(End(s, StopRun()))
  {
    hide Run, End, Enabled;
    var s0 := State(map[], {}, 0);
    var s1 := State(map[1 := Server(AtFork, 0, 0)], {1}, 0);
    Prefix(s0, s1);
    Suffix(s1);
    RunConcat(s0, [Arrive(1, Starting), Win(1), Poll(1, false), ReapDone(1), ReadByte(1, true)],
              [ForkChild(1, 9), ChildDropsLock(9), Stop(1), Unlock(1), Arrive(2, Starting), Win(2)]);
    assert 9 in End(s0, StopRun()).procs;
  }

  lemma Suffix(s1: State)
    requires s1 == State(map[1 := Server(AtFork, 0, 0)], {1}, 0)
    ensures var steps := [ForkChild(1, 9), ChildDropsLock(9), Stop(1), Unlock(1), Arrive(2, Starting), Win(2)];
      Run(s1, steps) && End(s1, steps) == State(map[9 := Child(None, Serving), 2 := Server(AtPoll, 0, 0)], {2}, 0)
  {
    hide Run, End, Apply, Enabled;
    var s3 := State(map[1 := Server(AtPoll, 1, 0), 9 := Child(Some(1), Serving)], {1}, 0);
    var s5 := State(map[9 := Child(None, Serving)], {}, 0);
    Forked(s1, s3);
    Stopped(s3, s5);
    Replaced(s5);
    RunConcat(s3, [Stop(1), Unlock(1)], [Arrive(2, Starting), Win(2)]);
    RunConcat(s1, [ForkChild(1, 9), ChildDropsLock(9)], [Stop(1), Unlock(1)] + [Arrive(2, Starting), Win(2)]);
    assert [ForkChild(1, 9), ChildDropsLock(9)] + ([Stop(1), Unlock(1)] + [Arrive(2, Starting), Win(2)]) ==
      [ForkChild(1, 9), ChildDropsLock(9), Stop(1), Unlock(1), Arrive(2, Starting), Win(2)];
  }

  /** Two steps in a row. */
  lemma TwoSteps(s: State, a: Step, m: State, b: Step, e: State)
    requires Enabled(s, a) && Apply(s, a) == m && Enabled(m, b) && Apply(m, b) == e
    ensures Run(s, [a, b]) && End(s, [a, b]) == e
  {
    hide Enabled, Apply;
    RunCons(m, b, []);
    RunCons(s, a, [b]);
    assert [b] + [] == [b] && [a] + [b] == [a, b];
  }

  lemma Forked(s1: State, s3: State)
    requires s1 == State(map[1 := Server(AtFork, 0, 0)], {1}, 0)
    requires s3 == State(map[1 := Server(AtPoll, 1, 0), 9 := Child(Some(1), Serving)], {1}, 0)
    ensures Run(s1, [ForkChild(1, 9), ChildDropsLock(9)]) && End(s1, [ForkChild(1, 9), ChildDropsLock(9)]) == s3
  {
    var s2 := State(map[1 := Server(AtPoll, 1, 0), 9 := Child(Some(1), Newborn)], {1, 9}, 0);
    assert Apply(s1, ForkChild(1, 9)) == s2 && Apply(s2, ChildDropsLock(9)) == s3;
    TwoSteps(s1, ForkChild(1, 9), s2, ChildDropsLock(9), s3);
  }

  lemma Stopped(s3: State, s5: State)
    requires s3 == State(map[1 := Server(AtPoll, 1, 0), 9 := Child(Some(1), Serving)], {1}, 0)
    requires s5 == State(map[9 := Child(None, Serving)], {}, 0)
    ensures Run(s3, [Stop(1), Unlock(1)]) && End(s3, [Stop(1), Unlock(1)]) == s5
  {
    var s4 := State(map[1 := Server(Leaving, 1, 0), 9 := Child(Some(1), Serving)], {1}, 0);
    assert Apply(s3, Stop(1)) == s4 && Apply(s4, Unlock(1)) == s5;
    TwoSteps(s3, Stop(1), s4, Unlock(1), s5);
  }

  lemma Replaced(s5: State)
    requires s5 == State(map[9 := Child(None, Serving)], {}, 0)
    ensures Run(s5, [Arrive(2, Starting), Win(2)])
    ensures End(s5, [Arrive(2, Starting), Win(2)]) == State(map[9 := Child(None, Serving), 2 := Server(AtPoll, 0, 0)], {2}, 0)
  {
    var s6 := State(map[9 := Child(None, Serving), 2 := Starting], {}, 0);
    var s7 := State(map[9 := Child(None, Serving), 2 := Server(AtPoll, 0, 0)], {2}, 0);
    assert Apply(s5, Arrive(2, Starting)) == s6 && Apply(s6, Win(2)) == s7;
    TwoSteps(s5, Arrive(2, Starting), s6, Win(2), s7);
  }

  lemma Prefix(s0: State, s: State)
    requires s0 == State(map[], {}, 0) && s == State(map[1 := Server(AtFork, 0, 0)], {1}, 0)
    ensures var steps := [Arrive(1, Starting), Win(1), Poll(1, false), ReapDone(1), ReadByte(1, true)];
      Run(s0, steps) && End(s0, steps) == s
  {
    hide Run, End, Apply, Enabled;
    var b := State(map[1 := Server(AtPoll, 0, 0)], {1}, 0);
    Elected(s0, b);
    Woken(b, s);
    RunConcat(s0, [Arrive(1, Starting), Win(1)], [Poll(1, false), ReapDone(1), ReadByte(1, true)]);
    assert [Arrive(1, Starting), Win(1)] + [Poll(1, false), ReapDone(1), ReadByte(1, true)] ==
      [Arrive(1, Starting), Win(1), Poll(1, false), ReapDone(1), ReadByte(1, true)];
  }

  lemma Elected(s0: State, b: State)
    requires s0 == State(map[], {}, 0) && b == State(map[1 := Server(AtPoll, 0, 0)], {1}, 0)
    ensures Run(s0, [Arrive(1, Starting), Win(1)]) && End(s0, [Arrive(1, Starting), Win(1)]) == b
  {
    var a := State(map[1 := Starting], {}, 0);
    assert Apply(s0, Arrive(1, Starting)) == a && Apply(a, Win(1)) == b;
    TwoSteps(s0, Arrive(1, Starting), a, Win(1), b);
  }

  lemma Woken(b: State, s: State)
    requires b == State(map[1 := Server(AtPoll, 0, 0)], {1}, 0) && s == State(map[1 := Server(AtFork, 0, 0)], {1}, 0)
    ensures var steps := [Poll(1, false), ReapDone(1), ReadByte(1, true)]; Run(b, steps) && End(b, steps) == s
  {
    var c := State(map[1 := Server(AtReap(false), 0, 0)], {1}, 0);
    assert Apply(b, Poll(1, false)) == c;
    var d := State(map[1 := Server(AtCheck(false), 0, 0)], {1}, 0);
    assert Apply(c, ReapDone(1)) == d && Apply(d, ReadByte(1, true)) == s;
    hide Apply, Enabled;
    RunCons(d, ReadByte(1, true), []);
    RunCons(c, ReapDone(1), [ReadByte(1, true)]);
    RunCons(b, Poll(1, false), [ReapDone(1)] + [ReadByte(1, true)]);
    assert [Poll(1, false)] + ([ReapDone(1)] + [ReadByte(1, true)]) == [Poll(1, false), ReapDone(1), ReadByte(1, true)];
    assert [ReadByte(1, true)] + [] == [ReadByte(1, true)];
  }

  lemma RunCons(s: State, t: Step, rest: seq<Step>)
    requires Enabled(s, t) && Run(Apply(s, t), rest)
    ensures Run(s, [t] + rest) && End(s, [t] + rest) == End(Apply(s, t), rest)
  {
    assert ([t] + rest)[1..] == rest;
  }

  lemma {:induction false} RunConcat(s: State, a: seq<Step>, b: seq<Step>)
    requires Run(s, a) && Run(End(s, a), b)
    ensures Run(s, a + b) && End(s, a + b) == End(End(s, a), b)
    decreases |a|
  {
    if a == [] {
      assert a + b == b;
    } else {
      assert (a + b)[1..] == a[1..] + b;
      RunConcat(Apply(s, a[0]), a[1..], b);
    }
  }
}

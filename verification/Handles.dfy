// When the handles a caller holds keep their meaning: over one call, and over runs.
module Handles {
  import opened Text
  import W = Wire
  import opened Reconnect

  /** The agent, if one answers, is in step, and its table is the files the client
      remembers, in the order they were first opened. */
  predicate Faithful(l: Link)
  {
    && !l.agent.Astray? && |Distinct(l.opens)| <= POOL
    && (l.agent.Up? ==> l.agent.table == Distinct(l.opens))
  }

  predicate NameFits(call: Call) { call.Open? ==> |call.file.name| < 256 && |call.file.part| < 16 }

  /** A new file opened by an agent whose reply could not be read. */
  predicate Orphan(table: seq<File>, call: Call, e: Event)
  {
    call.Open? && e == Unreadable(true) && call.file !in table && |table| < POOL
  }

  /** A last exchange with an agent that has `table`, and has the call's file as well when
      it is `ahead`. */
  predicate LastKeeps(mode: Mode, table: seq<File>, ahead: bool, call: Call, e: Event)
  {
    e.Lost? || (mode != Behind && (e.Answered? || (e.Unreadable? && !ahead && !Orphan(table, call, e))))
  }

  /** A replay and the repeated call: all replayed opens come back OK and the last exchange
      does no harm; or the first that does not loses the agent, or was not needed. */
  predicate ReplayKeeps(mode: Mode, opens: seq<File>, events: seq<Event>, ahead: bool, call: Call, e2: Event)
  {
    var j := FirstBad(mode, opens, events, 0);
    if j == |opens| then LastKeeps(mode, Distinct(opens), ahead, call, e2)
    else
      match EventAt(events, j)
      case Lost => true
      case Unreadable(done) =>
        (mode == Fresh && Covered(opens, if done then j + 1 else j)) || (mode == Familiar && !ahead)
      case _ => false
  }

  /** What a replacement starts from, when the first exchange left an attached agent. */
  function ModeOf(l: Link, attached: bool, e1: Event): Mode
  {
    if !attached || l.agent.Gone? || e1.Lost? then Fresh else if e1.Late? then Behind else Familiar
  }

  /** The condition under which a call does no harm to the handles, over what the wire and
      the spawn do. */
  predicate Keeps(l: Link, attached: bool, call: Call, e1: Event, rb: Rebuild, e2: Event)
  {
    if !Retries(l, call, e1) then l.agent.Gone? || LastKeeps(Familiar, Distinct(l.opens), false, call, e1)
    else
      var mode := ModeOf(l, attached, e1);
      var ahead := mode == Familiar && Orphan(Distinct(l.opens), call, e1);
      match rb
      case NoSpawn => mode == Fresh || (mode == Familiar && !ahead)
      case Unproved => false
      case Spawned(events) => ReplayKeeps(mode, l.opens, events, ahead, call, e2)
  }

  /** One exchange with an agent that has the remembered files, or those and the call's. */
  lemma LastExchange(opens: seq<File>, ahead: bool, call: Call, e: Event, n: nat)
    requires NameFits(call) && |Distinct(opens)| <= POOL
    requires ahead ==> call.Open? && call.file !in Distinct(opens) && |Distinct(opens)| < POOL
    ensures var table := if ahead then Distinct(opens) + [call.file] else Distinct(opens);
      var (a, r) := Raw(Up(table), call, e);
      Faithful(Link(a, if r.status == W.OK && call.Open? then opens + [Remembered(call.file)] else opens, n)) <==>
        LastKeeps(Familiar, Distinct(opens), ahead, call, e)
  {
    if call.Open? {
      assert Remembered(call.file) == call.file;
      DistinctSnoc(opens, call.file);
    }
    hide Distinct, Remembered;
    assert call.Open? ==> |Distinct(opens) + [call.file]| == |Distinct(opens)| + 1;
  }

  /** A replacement that answers, for each kind of agent. */
  lemma Replacement(mode: Mode, opens: seq<File>, events: seq<Event>, ahead: bool, call: Call, e2: Event, n: nat)
    requires NameFits(call) && |Distinct(opens)| <= POOL
    requires ahead ==> mode == Familiar && call.Open? && call.file !in Distinct(opens) && |Distinct(opens)| < POOL
    ensures var table := if ahead then Distinct(opens) + [call.file] else Distinct(opens);
      var (a, ok) := Replay(ReplayedTo(mode, table, opens, 0), opens, events, 0);
      var (b, r) := if ok then Raw(a, call, e2) else (a, Reply(W.ECLOSED, 0));
      Faithful(Link(b, if r.status == W.OK && call.Open? then opens + [Remembered(call.file)] else opens, n)) <==>
        ReplayKeeps(mode, opens, events, ahead, call, e2)
  {
    var table := if ahead then Distinct(opens) + [call.file] else Distinct(opens);
    var j := FirstBad(mode, opens, events, 0);
    forall f | f in opens ensures f in table {
      OpenAllHas([], opens, f);
    }
    ReplayOutcome(mode, table, opens, events, 0);
    assert opens[..|opens|] == opens;
    hide Distinct, Replay, FirstBad, Raw, Remembered, BrokenAt, LastKeeps, Covered, Faithful;
    if j < |opens| {
      BrokenKeeps(mode, table, ahead, opens, j, EventAt(events, j), n);
    } else if mode == Behind {
      AstrayLast(opens, call, e2, n);
    } else {
      LastExchange(opens, ahead, call, e2, n);
      SameForBoth(mode, opens, ahead, call, e2);
    }
  }

  lemma SameForBoth(mode: Mode, opens: seq<File>, ahead: bool, call: Call, e: Event)
    requires mode != Behind
    ensures LastKeeps(mode, Distinct(opens), ahead, call, e) == LastKeeps(Familiar, Distinct(opens), ahead, call, e)
  {}

  /** A replay that broke off. */
  lemma BrokenKeeps(mode: Mode, table: seq<File>, ahead: bool, opens: seq<File>, j: nat, e: Event, n: nat)
    requires j < |opens| && !Good(mode, opens, j, e) && |Distinct(opens)| <= POOL && (ahead ==> mode == Familiar)
    requires mode == Familiar ==> (table == Distinct(opens) <==> !ahead)
    ensures Faithful(Link(BrokenAt(mode, table, opens, j, e), opens, n)) <==>
      match e
      case Lost => true
      case Unreadable(done) =>
        (mode == Fresh && Covered(opens, if done then j + 1 else j)) || (mode == Familiar && !ahead)
      case _ => false
  {
    DistinctUpTo(opens, j);
    DistinctUpTo(opens, j + 1);
    hide Distinct;
    assert e.Answered? && mode == Fresh ==> !Covered(opens, j);
  }

  lemma AstrayLast(opens: seq<File>, call: Call, e: Event, n: nat)
    requires |Distinct(opens)| <= POOL
    ensures var (a, r) := Raw(Astray, call, e);
      Faithful(Link(a, if r.status == W.OK && call.Open? then opens + [Remembered(call.file)] else opens, n)) <==>
        LastKeeps(Behind, Distinct(opens), false, call, e)
  {}

  /** Handles keep their meaning across a call, replacement and all, exactly when what the
      wire and the spawn do meets the condition, for spawned and attached sessions. */
  lemma HandlesKept(l: Link, attached: bool, call: Call, e1: Event, rb: Rebuild, e2: Event)
    requires Faithful(l) && NameFits(call)
    ensures Faithful(Called(l, attached, call, e1, rb, e2).0) <==> Keeps(l, attached, call, e1, rb, e2)
  {
    hide Called, Keeps;
    if Retries(l, call, e1) {
      KeptByRetry(l, attached, call, e1, rb, e2);
    } else {
      KeptAtOnce(l, attached, call, e1, rb, e2);
    }
  }

  lemma KeptAtOnce(l: Link, attached: bool, call: Call, e1: Event, rb: Rebuild, e2: Event)
    requires Faithful(l) && NameFits(call) && !Retries(l, call, e1)
    ensures Faithful(Called(l, attached, call, e1, rb, e2).0) <==> Keeps(l, attached, call, e1, rb, e2)
  {
    hide Distinct, Remembered, LastKeeps;
    if l.agent.Up? {
      LastExchange(l.opens, false, call, e1, Called(l, attached, call, e1, rb, e2).0.reconnects);
    }
  }

  lemma KeptByRetry(l: Link, attached: bool, call: Call, e1: Event, rb: Rebuild, e2: Event)
    requires Faithful(l) && NameFits(call) && Retries(l, call, e1)
    ensures Faithful(Called(l, attached, call, e1, rb, e2).0) <==> Keeps(l, attached, call, e1, rb, e2)
  {
    hide Distinct, Replay, ReplayKeeps, Raw, ModeOf, Orphan, Faithful, Remembered;
    var mode := ModeOf(l, attached, e1);
    var ahead := mode == Familiar && Orphan(Distinct(l.opens), call, e1);
    AfterFirst(l, attached, call, e1);
    if rb.Spawned? {
      OrphanIs(Distinct(l.opens), call, e1);
      assert |Distinct(l.opens)| <= POOL by {
        WithinPool(l);
      }
      Replacement(mode, l.opens, rb.events, ahead, call, e2, Called(l, attached, call, e1, rb, e2).0.reconnects);
    } else {
      NoReplacement(l, attached, call, e1, rb, e2);
    }
  }

  lemma WithinPool(l: Link)
    requires Faithful(l)
    ensures |Distinct(l.opens)| <= POOL
  {}

  lemma NoReplacement(l: Link, attached: bool, call: Call, e1: Event, rb: Rebuild, e2: Event)
    requires Faithful(l) && NameFits(call) && Retries(l, call, e1) && !rb.Spawned?
    ensures Faithful(Called(l, attached, call, e1, rb, e2).0) <==> Keeps(l, attached, call, e1, rb, e2)
  {
    hide Distinct, Raw, ModeOf, Orphan, Remembered;
    AfterFirst(l, attached, call, e1);
    assert call.Open? ==> |Distinct(l.opens) + [call.file]| == |Distinct(l.opens)| + 1;
  }

  lemma OrphanIs(table: seq<File>, call: Call, e: Event)
    ensures Orphan(table, call, e) ==> call.Open? && call.file !in table && |table| < POOL
  {}

  /** The agent a retry is left with, and the one a replacement starts from. */
  lemma AfterFirst(l: Link, attached: bool, call: Call, e1: Event)
    requires Faithful(l) && Retries(l, call, e1)
    ensures var mode := ModeOf(l, attached, e1);
      var ahead := mode == Familiar && Orphan(Distinct(l.opens), call, e1);
      var table := if ahead then Distinct(l.opens) + [call.file] else Distinct(l.opens);
      var a := Raw(l.agent, call, e1).0;
      && (mode == Familiar ==> a == Up(table)) && (mode == Behind ==> a == Astray)
      && (mode == Fresh && attached ==> a == Gone) && (ahead ==> call.Open?)
      && StartsFrom(a, attached) == ReplayedTo(mode, table, l.opens, 0)
  {
    assert l.opens[..0] == [] && Distinct([]) == [];
    hide Distinct;
  }

  /** Every handle an OPEN hands back is the slot of the file it was for, replacement or
      not, opened before or not. */
  lemma OpenGetsItsSlot(l: Link, attached: bool, file: File, e1: Event, rb: Rebuild, e2: Event)
    requires Faithful(l) && NameFits(Open(file))
    ensures var (after, r) := Called(l, attached, Open(file), e1, rb, e2);
      Keeps(l, attached, Open(file), e1, rb, e2) && r.status == W.OK ==>
        after.opens == l.opens + [file] && after.agent == Up(Distinct(after.opens)) &&
        file in after.agent.table && r.slot == Slot(after.agent.table, file)
  {
    hide Keeps;
    HandlesKept(l, attached, Open(file), e1, rb, e2);
    var (after, r) := Called(l, attached, Open(file), e1, rb, e2);
    if r.status == W.OK {
      assert Remembered(file) == file;
      var a := if Retries(l, Open(file), e1) then Rebuilt(l.(agent := Raw(l.agent, Open(file), e1).0), attached, rb).0
               else l.agent;
      hide Rebuilt, Distinct;
      SlotGiven(a, file, if Retries(l, Open(file), e1) then e2 else e1);
    }
  }

  lemma SlotGiven(agent: Agent, file: File, e: Event)
    ensures var (a, r) := Raw(agent, Open(file), e);
      r.status == W.OK ==> !a.Gone? && (a.Up? ==> file in a.table && r.slot == Slot(a.table, file))
  {
    if agent.Up? && file !in agent.table {
      var t := agent.table + [file];
      assert t[|agent.table|] == file;
    }
  }

  function RunFrom(l: Link, attached: bool, steps: seq<Step>): Link
    decreases |steps|
  {
    if steps == [] then l
    else
      var s := steps[0];
      RunFrom(Called(l, attached, s.call, s.e1, s.rb, s.e2).0, attached, steps[1..])
  }

  /** Every call of the run meets the condition. */
  predicate Clean(l: Link, attached: bool, steps: seq<Step>)
    decreases |steps|
  {
    steps == [] ||
    var s := steps[0];
    NameFits(s.call) && Keeps(l, attached, s.call, s.e1, s.rb, s.e2)
    && Clean(Called(l, attached, s.call, s.e1, s.rb, s.e2).0, attached, steps[1..])
  }

  /** A call never takes a slot away. */
  lemma OpensGrow(l: Link, attached: bool, s: Step)
    ensures var next := Called(l, attached, s.call, s.e1, s.rb, s.e2).0;
      Distinct(l.opens) <= Distinct(next.opens)
  {
    var next := Called(l, attached, s.call, s.e1, s.rb, s.e2).0;
    hide Settled, Distinct;
    if next.opens != l.opens {
      DistinctSnoc(l.opens, Remembered(s.call.file));
    }
  }

  /** The handle one call hands back, if it does. */
  function GivenBy(l: Link, attached: bool, s: Step): seq<(File, nat)>
  {
    var r := Called(l, attached, s.call, s.e1, s.rb, s.e2).1;
    if s.call.Open? && r.status == W.OK then [(s.call.file, r.slot)] else []
  }

  /** The handles handed back over a run, each with the file it was asked for. */
  function Given(l: Link, attached: bool, steps: seq<Step>): seq<(File, nat)>
    decreases |steps|
  {
    if steps == [] then []
    else
      var s := steps[0];
      GivenBy(l, attached, s) + Given(Called(l, attached, s.call, s.e1, s.rb, s.e2).0, attached, steps[1..])
  }

  /** A handle that names its file. */
  predicate Names(table: seq<File>, x: (File, nat)) { 0 < x.1 <= |table| && table[x.1 - 1] == x.0 }

  lemma StepKeepsHandles(l: Link, attached: bool, s: Step)
    requires Faithful(l) && NameFits(s.call) && Keeps(l, attached, s.call, s.e1, s.rb, s.e2)
    ensures var next := Called(l, attached, s.call, s.e1, s.rb, s.e2).0;
      && Faithful(next) && Distinct(l.opens) <= Distinct(next.opens)
      && forall x :: x in GivenBy(l, attached, s) ==> Names(Distinct(next.opens), x)
  {
    hide Called, Keeps, Distinct;
    HandlesKept(l, attached, s.call, s.e1, s.rb, s.e2);
    OpensGrow(l, attached, s);
    if s.call.Open? {
      OpenGetsItsSlot(l, attached, s.call.file, s.e1, s.rb, s.e2);
    }
  }

  /** Reconnecting is invisible over a whole run: whatever was lost and rebuilt on the
      way, every handle ever handed back names, at any agent that answers at the end, the
      file it was handed back for; and so does every handle from before. */
  lemma {:induction false} HandlesKeptOverRuns(l: Link, attached: bool, steps: seq<Step>)
    requires Faithful(l) && Clean(l, attached, steps)
    ensures var end := RunFrom(l, attached, steps);
      && Faithful(end) && Distinct(l.opens) <= Distinct(end.opens)
      && (forall x :: x in Given(l, attached, steps) ==> Names(Distinct(end.opens), x))
      && (end.agent.Up? ==> end.agent.table == Distinct(end.opens))
    decreases |steps|
  {
    if steps == [] {
    } else {
      var s := steps[0];
      var next := Called(l, attached, s.call, s.e1, s.rb, s.e2).0;
      StepKeepsHandles(l, attached, s);
      hide Called, Keeps, Distinct, GivenBy;
      HandlesKeptOverRuns(next, attached, steps[1..]);
    }
  }

  /** What the condition shuts out: an open whose reply could not be read leaves the agent
      a file ahead, the next new file gets the slot after it, and a replacement, whose
      agent opens only what the client remembers, has another file in that slot or none. */
  lemma OrphanThenRebuild(opens: seq<File>, lost: File, file: File)
    requires lost !in opens && file !in opens && file != lost && |opens| + 1 < POOL
    ensures var (agent, r) := Raw(Up(Distinct(opens) + [lost]), Open(file), Answered(W.OK));
      && r == Reply(W.OK, |Distinct(opens)| + 2)
      && Replay(Up([]), opens + [file], [], 0) == (Up(Distinct(opens + [file])), true)
      && |Distinct(opens + [file])| == |Distinct(opens)| + 1
  {
    var all := opens + [file];
    DistinctSnoc(opens, file);
    OpenAllHas([], opens, lost);
    DistinctShort([], opens);
    AllGood(all, 0);
    ReplayOutcome(Fresh, [], all, [], 0);
    assert all[..|all|] == all && all[..0] == [];
  }

  lemma {:induction false} DistinctShort(table: seq<File>, files: seq<File>)
    ensures |OpenAll(table, files)| <= |table| + |files|
    decreases |files|
  {
    if files == [] {
    } else {
      DistinctShort(Add(table, files[0]), files[1..]);
    }
  }

  lemma {:induction false} AllGood(opens: seq<File>, i: nat)
    requires i <= |opens|
    ensures FirstBad(Fresh, opens, [], i) == |opens|
    decreases |opens| - i
  {
    if i == |opens| {
    } else {
      AllGood(opens, i + 1);
    }
  }
}

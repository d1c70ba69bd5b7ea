// How often a session is replaced: at most three times more than three for each call
// that succeeded, and as often as that.
module Rebuilding {
  import W = Wire
  import opened Reconnect

  /** How many replacements a run attempts. */
  function Rebuilds(l: Link, attached: bool, steps: seq<Step>): nat
    decreases |steps|
  {
    if steps == [] then 0
    else
      var s := steps[0];
      (if Retries(l, s.call, s.e1) then 1 else 0)
      + Rebuilds(Called(l, attached, s.call, s.e1, s.rb, s.e2).0, attached, steps[1..])
  }

  /** How many of its calls return MVG_OK. */
  function Successes(l: Link, attached: bool, steps: seq<Step>): nat
    decreases |steps|
  {
    if steps == [] then 0
    else
      var s := steps[0];
      var (next, r) := Called(l, attached, s.call, s.e1, s.rb, s.e2);
      (if r.status == W.OK then 1 else 0) + Successes(next, attached, steps[1..])
  }

  lemma {:induction false} RebuildsBounded(l: Link, attached: bool, steps: seq<Step>)
    requires l.reconnects <= 3
    ensures l.reconnects + Rebuilds(l, attached, steps) <= 3 * (1 + Successes(l, attached, steps))
    decreases |steps|
  {
    if steps == [] {
    } else {
      var s := steps[0];
      RebuildsBounded(Called(l, attached, s.call, s.e1, s.rb, s.e2).0, attached, steps[1..]);
    }
  }

  /** Over any run of a fresh session, whatever the environment does, replacements are
      at most three more than three times the calls that succeeded. */
  lemma RunRebuildsBounded(agent: Agent, attached: bool, steps: seq<Step>)
    ensures Rebuilds(Link(agent, [], 0), attached, steps)
         <= 3 * (1 + Successes(Link(agent, [], 0), attached, steps))
  {
    RebuildsBounded(Link(agent, [], 0), attached, steps);
  }

  /** The bound is met: three calls to a session that will not come back. */
  lemma BoundMet()
    ensures var dead := Step(Other, Lost, NoSpawn, Lost);
      var steps := [dead, dead, dead];
      Rebuilds(Link(Gone, [], 0), false, steps) == 3 && Successes(Link(Gone, [], 0), false, steps) == 0
  {
    var dead := Step(Other, Lost, NoSpawn, Lost);
    DeadCall(2, []);
    DeadCall(1, [dead]);
    DeadCall(0, [dead, dead]);
    assert [dead] + [dead, dead] == [dead, dead, dead] && [dead] + [dead] == [dead, dead] && [dead] + [] == [dead];
  }

  lemma DeadCall(n: nat, rest: seq<Step>)
    requires n < 3
    ensures var steps := [Step(Other, Lost, NoSpawn, Lost)] + rest;
      && Rebuilds(Link(Gone, [], n), false, steps) == 1 + Rebuilds(Link(Gone, [], n + 1), false, rest)
      && Successes(Link(Gone, [], n), false, steps) == Successes(Link(Gone, [], n + 1), false, rest)
  {
    var dead := Step(Other, Lost, NoSpawn, Lost);
    assert ([dead] + rest)[1..] == rest;
    assert Called(Link(Gone, [], n), false, Other, Lost, NoSpawn, Lost) == (Link(Gone, [], n + 1), Reply(W.ECLOSED, 0));
  }

  /** A call that succeeds forgets the failures before it: the next loss is replaced. */
  lemma SuccessForgets(l: Link, attached: bool, s: Step, call: Call)
    requires Called(l, attached, s.call, s.e1, s.rb, s.e2).1.status == W.OK && !call.Quit?
    ensures Retries(Called(l, attached, s.call, s.e1, s.rb, s.e2).0, call, Lost)
  {}

  /** Calls before each of which the session is lost and comes back. */
  function Losses(n: nat): seq<Step>
  {
    if n == 0 then [] else [Step(Other, Lost, Spawned([]), Answered(W.OK))] + Losses(n - 1)
  }

  /** A session lost before every call, however many, is replaced every time and every call
      succeeds. */
  lemma {:induction false} AlwaysReplaced(n: nat)
    ensures Rebuilds(Link(Up([]), [], 0), false, Losses(n)) == n
    ensures Successes(Link(Up([]), [], 0), false, Losses(n)) == n
  {
    if n == 0 {
    } else {
      AlwaysReplaced(n - 1);
      assert Losses(n)[1..] == Losses(n - 1);
      assert Called(Link(Up([]), [], 0), false, Other, Lost, Spawned([]), Answered(W.OK)) ==
        (Link(Up([]), [], 0), Reply(W.OK, 0));
    }
  }

  /** Two replacements that fail and one that succeeds, `k` times, then three that fail. */
  function Worst(k: nat): seq<Step>
  {
    var dead := Step(Other, Lost, NoSpawn, Lost);
    if k == 0 then [dead, dead, dead]
    else [dead, dead, Step(Other, Lost, Spawned([]), Answered(W.OK))] + Worst(k - 1)
  }

  /** The bound is met for every number of successes. */
  lemma {:induction false} BoundMetAlways(agent: Agent, k: nat)
    requires agent == Gone || agent == Up([])
    ensures var l := Link(agent, [], 0);
      Successes(l, false, Worst(k)) == k && Rebuilds(l, false, Worst(k)) == 3 * (1 + k)
    decreases k
  {
    hide Rebuilds, Successes;
    var dead, back := Step(Other, Lost, NoSpawn, Lost), Step(Other, Lost, Spawned([]), Answered(W.OK));
    if k == 0 {
      NothingCalled(Link(Gone, [], 3));
      TwoLost(agent, dead, []);
      LostCall(Gone, 2, dead, []);
      assert [dead] + [] == [dead] && [dead, dead] + ([dead] + []) == [dead, dead, dead];
    } else {
      var rest := Worst(k - 1);
      TwoLost(agent, back, rest);
      LostCall(Gone, 2, back, rest);
      assert [dead, dead] + ([back] + rest) == Worst(k);
      BoundMetAlways(Up([]), k - 1);
    }
  }

  lemma NothingCalled(l: Link)
    ensures Rebuilds(l, false, []) == 0 == Successes(l, false, [])
  {}

  lemma TwoLost(agent: Agent, s: Step, rest: seq<Step>)
    requires agent == Gone || agent == Up([])
    ensures var dead, l, steps := Step(Other, Lost, NoSpawn, Lost), Link(agent, [], 0), [s] + rest;
      && Rebuilds(l, false, [dead, dead] + steps) == 2 + Rebuilds(Link(Gone, [], 2), false, steps)
      && Successes(l, false, [dead, dead] + steps) == Successes(Link(Gone, [], 2), false, steps)
  {
    hide Rebuilds, Successes;
    var dead, steps := Step(Other, Lost, NoSpawn, Lost), [s] + rest;
    LostCall(agent, 0, dead, [dead] + steps);
    LostCall(Gone, 1, dead, steps);
    assert [dead] + ([dead] + steps) == [dead, dead] + steps;
  }

  lemma LostCall(agent: Agent, n: nat, s: Step, rest: seq<Step>)
    requires n < 3 && (agent == Gone || agent == Up([])) && s.call == Other && s.e1 == Lost
    requires s.rb == NoSpawn || (s.rb == Spawned([]) && s.e2 == Answered(W.OK))
    ensures var l, steps := Link(agent, [], n), [s] + rest;
      var next := if s.rb == NoSpawn then Link(Gone, [], n + 1) else Link(Up([]), [], 0);
      && Rebuilds(l, false, steps) == 1 + Rebuilds(next, false, rest)
      && Successes(l, false, steps) == (if s.rb == NoSpawn then 0 else 1) + Successes(next, false, rest)
  {
    assert ([s] + rest)[1..] == rest;
  }
}

// The client's registry of sessions: a linked list, newest first, capped by the
// number of licences the caller allows.
module Registry {
  import opened Text

  class Session {
    const account: string
    var next: Session?

    constructor (account: string)
      ensures this.account == account && next == null
    {
      this.account := account;
      next := null;
    }
  }

  /** The accounts left when room is made for one more under a cap of `jobs`: the
      oldest are at the end and go first. */
  function Retired(accounts: seq<string>, jobs: nat): seq<string>
    requires jobs >= 1
  {
    accounts[..Least(|accounts|, jobs - 1)]
  }

  /** The registry after opening `path` (the account's resolved path). */
  function Opened(accounts: seq<string>, path: Option<string>, spawns: bool, jobs: nat): seq<string>
    requires jobs >= 1
  {
    match path
    case None => accounts
    case Some(a) =>
      if a in accounts then accounts
      else if spawns then [a] + Retired(accounts, jobs) else Retired(accounts, jobs)
  }

  function Without(accounts: seq<string>, i: nat): seq<string>
    requires i < |accounts|
  {
    accounts[..i] + accounts[i + 1..]
  }

  ghost function AccountsOf(l: seq<Session>): (r: seq<string>)
    ensures |r| == |l| && forall i :: 0 <= i < |l| ==> r[i] == l[i].account
  {
    seq(|l|, i requires 0 <= i < |l| => l[i].account)
  }

  lemma PushedAccounts(s: Session, kept: seq<Session>)
    ensures AccountsOf([s] + kept) == [s.account] + AccountsOf(kept)
  {}

  lemma UnlinkedAccounts(l: seq<Session>, i: nat)
    requires i < |l|
    ensures AccountsOf(l[..i] + l[i + 1..]) == Without(AccountsOf(l), i)
  {}

  class Sessions {
    var head: Session?
    var jobs: nat
    ghost var list: seq<Session>

    ghost predicate Valid()
      reads this, list
    {
      && jobs >= 1
      && (forall i, j :: 0 <= i < j < |list| ==> list[i] != list[j])
      && head == NodeAt(0)
      && forall i :: 0 <= i < |list| ==> list[i].next == NodeAt(i + 1)
    }

    ghost function NodeAt(i: nat): Session?
      reads this
    {
      if i < |list| then list[i] else null
    }

    ghost function Accounts(): seq<string>
      reads this
    {
      AccountsOf(list)
    }

    constructor (n: int)
      ensures Valid() && list == [] && jobs == if n > 0 then n else 1
    {
      head := null;
      jobs := if n > 0 then n else 1;
      list := [];
    }

    /** Take the node at `i` out; `prev` is the one before it, null for the head. */
    method Unlink(prev: Session?, cur: Session, ghost i: nat)
      requires Valid() && i < |list| && cur == list[i]
      requires if i == 0 then prev == null else prev == list[i - 1]
      modifies this, list
      ensures Valid() && jobs == old(jobs) && list == old(list)[..i] + old(list)[i + 1..]
    {
      ghost var was := list;
      if prev == null {
        head := cur.next;
      } else {
        prev.next := cur.next;
      }
      list := list[..i] + list[i + 1..];
      forall k | 0 <= k < |list| ensures list[k].next == NodeAt(k + 1) {
        if k < i {
          assert list[k] == was[k] && (k + 1 < i ==> list[k + 1] == was[k + 1]);
        } else {
          assert list[k] == was[k + 1];
        }
      }
    }

    /** mvs_close: unlink the session wherever it is; one that is not here changes
        nothing.  `at` is where it was, |list| when it was not. */
    method Close(s: Session) returns (ghost at: nat)
      requires Valid()
      modifies this, list
      ensures Valid() && jobs == old(jobs) && at <= |old(list)|
      ensures at == |old(list)| <==> s !in old(list)
      ensures at == |old(list)| ==> list == old(list)
      ensures at < |old(list)| ==> old(list)[at] == s && list == old(list)[..at] + old(list)[at + 1..]
      ensures at < |old(list)| ==> Accounts() == Without(old(Accounts()), at)
    {
      hide AccountsOf, Without;
      var prev: Session? := null;
      var cur := head;
      at := 0;
      while cur != null && cur != s
        invariant at <= |list| && cur == NodeAt(at)
        invariant if at == 0 then prev == null else prev == list[at - 1]
        invariant forall k :: 0 <= k < at ==> list[k] != s
        decreases |list| - at
      {
        prev := cur;
        cur := cur.next;
        at := at + 1;
      }
      if cur != null {
        UnlinkedAccounts(list, at);
        Unlink(prev, cur, at);
      }
    }

    /** A live session for this account, when there is one. */
    method Lookup(path: string) returns (s: Session?)
      requires Valid()
      ensures s == null <==> path !in Accounts()
      ensures s != null ==> s in list && s.account == path
    {
      s := head;
      ghost var i := 0;
      while s != null
        invariant 0 <= i <= |list| && s == NodeAt(i)
        invariant forall k :: 0 <= k < i ==> list[k].account != path
        decreases |list| - i
      {
        if s.account == path {
          assert Accounts()[i] == path;
          return;
        }
        s := s.next;
        i := i + 1;
      }
    }

    method Live() returns (n: nat)
      requires Valid()
      ensures n == |list|
    {
      n := 0;
      var s := head;
      while s != null
        invariant n <= |list| && s == NodeAt(n)
        decreases |list| - n
      {
        n := n + 1;
        s := s.next;
      }
    }

    method Last() returns (s: Session)
      requires Valid() && head != null
      ensures |list| > 0 && s == list[|list| - 1]
    {
      s := head;
      ghost var i := 0;
      while s.next != null
        invariant 0 <= i < |list| && s == list[i]
        decreases |list| - i
      {
        s := s.next;
        i := i + 1;
      }
    }

    /** Retire the oldest sessions until there is room for one more. */
    method MakeRoom()
      requires Valid()
      modifies this, list
      ensures Valid() && jobs == old(jobs)
      ensures list == old(list)[..Least(|old(list)|, jobs - 1)]
    {
      hide Accounts, Without, AccountsOf;
      var live := Live();
      ghost var was := list;
      assert list == was[..|list|];
      while live >= jobs && head != null
        invariant Valid() && jobs == old(jobs) && live == |list| <= |was|
        invariant list == was[..|list|] && |list| >= Least(|was|, jobs - 1)
        invariant forall x :: x in list ==> x in was
        decreases live
      {
        var last := Last();
        ghost var before := list;
        ghost var at := Close(last);
        assert at == |before| - 1;
        assert list == before[..|before| - 1];
        live := live - 1;
      }
    }

    /** A new session at the front. */
    method Push(path: string) returns (s: Session)
      requires Valid()
      modifies this
      ensures Valid() && jobs == old(jobs) && fresh(s) && s.account == path && list == [s] + old(list)
    {
      s := new Session(path);
      s.next := head;
      head := s;
      ghost var rest := list;
      list := [s] + list;
      forall k | 0 <= k < |list| ensures list[k].next == NodeAt(k + 1) {
        if k > 0 {
          assert list[k] == rest[k - 1];
        }
      }
    }

    /** mvs_open: the account's own session if it has one, otherwise a new one at the
        front after the oldest have been retired to keep within the cap. */
    method Open(path: Option<string>, spawnSucceeds: bool) returns (s: Session?, spawned: bool)
      requires Valid()
      modifies this, list
      ensures Valid() && jobs == old(jobs)
      ensures Accounts() == Opened(old(Accounts()), path, spawnSucceeds, jobs)
      ensures path.Some? && path.value in old(Accounts()) ==> list == old(list)
      ensures spawned <==> path.Some? && path.value !in old(Accounts())
      ensures s != null <==> path.Some? && (spawned ==> spawnSucceeds)
      ensures s != null ==> s in list && s.account == path.value && (spawned ==> fresh(s) && list[0] == s)
    {
      hide Without, NodeAt;
      spawned := false;
      if path.None? {
        return null, false;
      }
      s := Lookup(path.value);
      if s != null {
        return;
      }
      MakeRoom();
      assert Accounts() == Retired(old(Accounts()), jobs);
      spawned := true;
      if !spawnSucceeds {
        return null, true;
      }
      ghost var kept := list;
      s := Push(path.value);
      PushedAccounts(s, kept);
    }
  }

  // ---- runs --------------------------------------------------------------

  datatype Step =
    | OpenStep(path: Option<string>, spawns: bool)
    | CloseStep(i: nat)        // close the i-th live session, if there is one

  function After(accounts: seq<string>, step: Step, jobs: nat): seq<string>
    requires jobs >= 1
  {
    match step
    case OpenStep(path, spawns) => Opened(accounts, path, spawns, jobs)
    case CloseStep(i) => if i < |accounts| then Without(accounts, i) else accounts
  }

  function RunFrom(accounts: seq<string>, steps: seq<Step>, jobs: nat): seq<string>
    requires jobs >= 1
    decreases |steps|
  {
    if steps == [] then accounts else RunFrom(After(accounts, steps[0], jobs), steps[1..], jobs)
  }

  predicate Distinct(a: seq<string>) { forall i, j :: 0 <= i < j < |a| ==> a[i] != a[j] }

  predicate WithinCap(accounts: seq<string>, jobs: nat) { Distinct(accounts) && |accounts| <= jobs }

  lemma StepKeeps(accounts: seq<string>, step: Step, jobs: nat)
    requires jobs >= 1 && WithinCap(accounts, jobs)
    ensures WithinCap(After(accounts, step, jobs), jobs)
  {
    match step
    case OpenStep(path, spawns) =>
      if path.Some? && path.value !in accounts && spawns {
        var r := [path.value] + Retired(accounts, jobs);
        forall i, j | 0 <= i < j < |r| ensures r[i] != r[j] {
          assert r[j] == accounts[j - 1];
        }
      }
    case CloseStep(i) =>
  }

  /** Every run from an empty registry holds at most the cap, one session an account. */
  lemma {:induction false} RunKeepsCap(accounts: seq<string>, steps: seq<Step>, jobs: nat)
    requires jobs >= 1 && WithinCap(accounts, jobs)
    ensures WithinCap(RunFrom(accounts, steps, jobs), jobs)
    decreases |steps|
  {
    if steps == [] {
    } else {
      StepKeeps(accounts, steps[0], jobs);
      RunKeepsCap(After(accounts, steps[0], jobs), steps[1..], jobs);
    }
  }

  /** A registry that forgets only what is closed: every session spawned since, newest
      first, and how many of the newest are live. */
  datatype Book = Book(log: seq<string>, live: nat)

  function Live(b: Book): seq<string>
    requires b.live <= |b.log|
  {
    b.log[..b.live]
  }

  /** An open of an account that is not live makes room, if room is wanting, by letting the
      oldest go, and a successful one puts a session in front; a close takes one out. */
  function Noted(b: Book, step: Step, jobs: nat): (r: Book)
    requires jobs >= 1 && b.live <= |b.log|
    ensures r.live <= |r.log|
  {
    match step
    case OpenStep(path, spawns) =>
      if path.None? || path.value in Live(b) then b
      else
        var kept := Least(b.live, jobs - 1);
        if spawns then Book([path.value] + b.log, kept + 1) else Book(b.log, kept)
    case CloseStep(i) => if i < b.live then Book(Without(b.log, i), b.live - 1) else b
  }

  function NotedAll(b: Book, steps: seq<Step>, jobs: nat): (r: Book)
    requires jobs >= 1 && b.live <= |b.log|
    ensures r.live <= |r.log|
    decreases |steps|
  {
    if steps == [] then b else NotedAll(Noted(b, steps[0], jobs), steps[1..], jobs)
  }

  /** Over any run, failed spawns and closes included, the live sessions are the newest of
      those spawned and not closed, newest first: what is retired is always the oldest. */
  lemma {:induction false} LiveAreNewest(b: Book, steps: seq<Step>, jobs: nat)
    requires jobs >= 1 && b.live <= |b.log|
    ensures RunFrom(Live(b), steps, jobs) == Live(NotedAll(b, steps, jobs))
    decreases |steps|
  {
    if steps == [] {
    } else {
      StepNoted(b, steps[0], jobs);
      hide After, Noted, Live;
      LiveAreNewest(Noted(b, steps[0], jobs), steps[1..], jobs);
    }
  }

  lemma StepNoted(b: Book, step: Step, jobs: nat)
    requires jobs >= 1 && b.live <= |b.log|
    ensures After(Live(b), step, jobs) == Live(Noted(b, step, jobs))
  {
    match step
    case OpenStep(path, spawns) =>
      if path.Some? && path.value !in Live(b) {
        var kept := Least(b.live, jobs - 1);
        assert Live(b)[..kept] == b.log[..kept];
        assert ([path.value] + b.log)[..kept + 1] == [path.value] + b.log[..kept];
      }
    case CloseStep(i) =>
      if i < b.live {
        assert Without(b.log, i)[..b.live - 1] == Without(Live(b), i);
      }
  }

  predicate Opens(steps: seq<Step>) { forall i :: 0 <= i < |steps| ==> steps[i].OpenStep? && steps[i].spawns }

  /** And when every open spawns and nothing is closed, a session is retired only for want
      of a licence: as many are live as were ever spawned, or as the cap allows. */
  lemma {:induction false} RetiredForRoomOnly(b: Book, steps: seq<Step>, jobs: nat)
    requires jobs >= 1 && b.live == Least(|b.log|, jobs) && Opens(steps)
    ensures var r := NotedAll(b, steps, jobs); r.live == Least(|r.log|, jobs)
    decreases |steps|
  {
    if steps == [] {
    } else {
      RetiredForRoomOnly(Noted(b, steps[0], jobs), steps[1..], jobs);
    }
  }
}

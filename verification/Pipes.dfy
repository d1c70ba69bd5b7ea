// A FIFO whose kernel delivers in pieces, and the exact-count loops over it.
module Pipes {
  import opened Text
  import opened Wire

  /** The kernel's next choice: a signal, a poll that times out, or up to `k` bytes. */
  datatype Event = Interrupted | Quiet | Ready(k: nat)

  function Quiets(plan: seq<Event>): nat
  {
    if plan == [] then 0 else (if plan[0] == Quiet then 1 else 0) + Quiets(plan[1..])
  }

  class Pipe {
    var bytes: Bytes          // written and not yet read
    var plan: seq<Event>      // what the kernel will do; afterwards it serves in full

    constructor (plan: seq<Event>)
      ensures bytes == [] && this.plan == plan
    {
      bytes := [];
      this.plan := plan;
    }

    /** At most what `Ready` grants of `n`, and at least one. */
    method Granted(n: nat) returns (g: nat)
      requires n > 0
      modifies this`plan
      ensures g <= n && (g == 0 ==> |plan| < |old(plan)|)
      ensures Quiets(plan) <= Quiets(old(plan)) && |plan| <= |old(plan)|
    {
      if plan == [] {
        return n;
      }
      var e := plan[0];
      plan := plan[1..];
      return match e case Ready(k) => Least(n, if k == 0 then 1 else k) case _ => 0;
    }

    /** read(): -1 interrupted, 0 nothing left to come, or the bytes taken. */
    method Read(n: nat) returns (r: int, chunk: Bytes)
      requires n > 0
      modifies this
      ensures Quiets(plan) <= Quiets(old(plan)) && |plan| <= |old(plan)|
      ensures r < 0 ==> bytes == old(bytes) && |plan| < |old(plan)|
      ensures r == 0 ==> bytes == old(bytes) == []
      ensures r > 0 ==> r <= n && r <= |old(bytes)| && chunk == old(bytes)[..r] && bytes == old(bytes)[r..]
    {
      chunk := [];
      if bytes == [] {
        return 0, chunk;
      }
      var g := Granted(Least(n, |bytes|));
      if g == 0 {
        return -1, chunk;
      }
      chunk := bytes[..g];
      bytes := bytes[g..];
      r := g;
    }

    /** write(): -1 interrupted, or how many bytes went. */
    method Write(data: Bytes) returns (w: int)
      requires data != []
      modifies this
      ensures |plan| <= |old(plan)|
      ensures w <= |data| && w != 0
      ensures w < 0 ==> bytes == old(bytes) && |plan| < |old(plan)|
      ensures w > 0 ==> bytes == old(bytes) + data[..w]
    {
      var g := Granted(|data|);
      if g == 0 {
        return -1;
      }
      bytes := bytes + data[..g];
      w := g;
    }

    /** poll(): -1 interrupted, 0 nothing within the slice, 1 something to read. */
    method Poll() returns (pr: int)
      modifies this`plan
      ensures |plan| <= |old(plan)| && Quiets(plan) <= Quiets(old(plan))
      ensures pr < 0 ==> |plan| < |old(plan)|
      ensures pr == 0 ==> bytes == [] || (|plan| < |old(plan)| && Quiets(plan) + 1 == Quiets(old(plan)))
      ensures pr > 0 ==> bytes != [] && plan == old(plan)
    {
      if bytes == [] {
        return 0;
      }
      if plan != [] && plan[0] == Quiet {
        plan := plan[1..];
        return 0;
      }
      if plan != [] && plan[0] == Interrupted {
        plan := plan[1..];
        return -1;
      }
      return 1;
    }
  }

  /** read_full: exactly `n` bytes however they arrive, or failure with the pipe dry. */
  method ReadFull(p: Pipe, n: nat) returns (ok: bool, got: Bytes)
    modifies p
    ensures ok <==> |old(p.bytes)| >= n
    ensures ok ==> got == old(p.bytes)[..n] && p.bytes == old(p.bytes)[n..]
    ensures !ok ==> p.bytes == []
  {
    got := [];
    while |got| < n
      invariant |got| <= n && got + p.bytes == old(p.bytes)
      decreases n - |got|, |p.plan|
    {
      var r, chunk := p.Read(n - |got|);
      if r == 0 {
        return false, got;
      }
      if r > 0 {
        got := got + chunk;
      }
    }
    ok := true;
  }

  /** write_full: all of it, in order, however few bytes each call takes. */
  method WriteFull(p: Pipe, data: Bytes)
    modifies p
    ensures p.bytes == old(p.bytes) + data
  {
    var i := 0;
    while i < |data|
      invariant 0 <= i <= |data| && p.bytes == old(p.bytes) + data[..i]
      decreases |data| - i, |p.plan|
    {
      var w := p.Write(data[i..]);
      if w > 0 {
        assert data[..i] + data[i..][..w] == data[..i + w];
        i := i + w;
      }
    }
    assert data[..i] == data;
  }

  /** read_all: the client's bounded form.  It fails only on a dead session, a dry
      pipe, or a deadline's worth of quiet slices. */
  method ReadAll(p: Pipe, n: nat, timeout: nat, alive: bool) returns (ok: bool, got: Bytes)
    requires timeout > 0
    modifies p
    ensures ok ==> |old(p.bytes)| >= n && got == old(p.bytes)[..n] && p.bytes == old(p.bytes)[n..]
    ensures |old(p.bytes)| >= n && alive && Waited(Quiets(old(p.plan)), Least(timeout, 1000)) < timeout ==> ok
    ensures Quiets(p.plan) <= Quiets(old(p.plan))
  {
    got := [];
    var waited := 0;
    var slice := Least(timeout, 1000);
    ghost var quiet := 0;     // slices waited with bytes in the pipe
    while |got| < n
      invariant |got| <= n && got + p.bytes == old(p.bytes)
      invariant quiet + Quiets(p.plan) <= Quiets(old(p.plan))
      invariant |old(p.bytes)| >= n ==> waited == Waited(quiet, slice)
      decreases n - |got|, |p.plan|, timeout - waited
    {
      var pr := p.Poll();
      if pr == 0 {
        if !alive {
          return false, got;
        }
        waited := waited + slice;
        if p.bytes != [] {
          quiet := quiet + 1;
        }
        if waited >= timeout {
          if |old(p.bytes)| >= n {
            WaitedGrows(quiet, Quiets(old(p.plan)), slice);
          }
          return false, got;
        }
      } else if pr > 0 {
        var r, chunk := p.Read(n - |got|);
        if r > 0 {
          got := got + chunk;
        }
      }
    }
    ok := true;
  }

  /** Milliseconds in `n` slices. */
  function Waited(n: nat, slice: nat): nat { if n == 0 then 0 else Waited(n - 1, slice) + slice }

  lemma {:induction false} WaitedGrows(a: nat, b: nat, slice: nat)
    requires a <= b
    ensures Waited(a, slice) <= Waited(b, slice)
  {
    if a < b {
      WaitedGrows(a, b - 1, slice);
    }
  }
}

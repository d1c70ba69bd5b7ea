// The open-form control of a file, `<file>.DICT/%FILE%`: once git has learned a
// hashed file's geometry, staging the file again does not move it.
module Sticky {
  import opened Text
  import opened Paths

  const SUFFIX := ".DICT/%FILE%"
  const CTL_MAX := 512

  predicate IsControlPath(path: string) { |path| > |SUFFIX| && HasSuffix(path, SUFFIX) }

  /** A control of class hash; a directory has no geometry. */
  predicate Hash(control: string) { |control| >= 4 && control[..4] == "hash" }

  /** Where the recorded control is looked up, through the two fixed buffers. */
  function LookedUp(path: string): string
    requires IsControlPath(path)
  {
    Cut(Cut(path[..|path| - |SUFFIX|], 512) + SUFFIX, 600)
  }

  function Fits(tree: Index, path: string): Option<string>
  {
    if path in tree && |tree[path]| < CTL_MAX then Some(tree[path]) else None
  }

  /** staged_control, then mv_git_committed_control. */
  function Recorded(index: Index, head: Index, path: string): Option<string>
  {
    if Fits(index, path).Some? then Fits(index, path) else Fits(head, path)
  }

  /** mv_git_sticky_control */
  function Kept(index: Index, head: Index, path: string, content: string): string
  {
    if !IsControlPath(path) || !Hash(content) then content
    else match Recorded(index, head, LookedUp(path))
      case Some(c) => if Hash(c) then c else content
      case None => content
  }

  /** What a repository can be asked to do to a control. */
  datatype Step =
    | StageBlob(path: string, content: string)   // GITSTAGEBLOB: to the index on disk
    | BatchBlob(path: string, content: string)   // the server's STAGEBLOB: to the open batch
    | StageCtl(path: string, content: string)    // the server's STAGECTL: flush, then verbatim
    | EndBatch
    | Commit

  /** The index on disk, the batch's own index while one is open, and the commit. */
  datatype State = State(index: Index, batch: Option<Index>, head: Index)

  function Flushed(s: State): State
  {
    match s.batch
    case Some(b) => State(b, None, s.head)
    case None => s
  }

  function After(s: State, step: Step): State
  {
    match step
    case StageBlob(p, c) =>
      var path := Cut(p, 600);
      s.(index := Put(s.index, path, Kept(s.index, s.head, path, c)))
    case BatchBlob(p, c) =>
      var open := if s.batch.Some? then s.batch.value else s.index;
      s.(batch := Some(Put(open, p, Kept(s.index, s.head, p, c))))
    case StageCtl(p, c) =>
      var f := Flushed(s);
      f.(index := Put(f.index, Cut(p, 700), c))
    case EndBatch => Flushed(s)
    case Commit =>
      var f := Flushed(s);
      f.(head := f.index)
  }

  function Run(s: State, steps: seq<Step>): State
    decreases |steps|
  {
    if steps == [] then s else Run(After(s, steps[0]), steps[1..])
  }

  class Repository {
    var index: Index
    var batch: Option<Index>
    var head: Index

    function Now(): State
      reads this
    {
      State(index, batch, head)
    }

    constructor (index: Index, head: Index)
      ensures Now() == State(index, None, head)
    {
      this.index, this.head := index, head;
      batch := None;
    }

    method Sticky(path: string, content: string) returns (use: string)
      ensures use == Kept(index, head, path, content)
    {
      use := content;
      if !IsControlPath(path) || !Hash(content) {
        return;
      }
      var base := Cut(path[..|path| - |SUFFIX|], 512);
      var at := Cut(base + SUFFIX, 600);
      var keep := Fits(index, at);
      if keep.None? {
        keep := Fits(head, at);
      }
      if keep.Some? && Hash(keep.value) {
        use := keep.value;
      }
    }

    method GitStageBlob(path: string, content: string)
      modifies this
      ensures Now() == After(old(Now()), StageBlob(path, content))
    {
      var p := Cut(path, 600);
      var use := Sticky(p, content);
      index := Put(index, p, use);
    }

    method OpStageBlob(path: string, content: string)
      modifies this
      ensures Now() == After(old(Now()), BatchBlob(path, content))
    {
      var use := Sticky(path, content);
      if batch.None? {
        batch := Some(index);
      }
      batch := Some(Put(batch.value, path, use));
    }

    method BatchEnd()
      modifies this
      ensures Now() == After(old(Now()), EndBatch)
    {
      if batch.Some? {
        index := batch.value;
        batch := None;
      }
    }

    method OpStageCtl(path: string, content: string)
      modifies this
      ensures Now() == After(old(Now()), StageCtl(path, content))
    {
      BatchEnd();
      index := Put(index, Cut(path, 700), content);
    }

    method GitCommit()
      modifies this
      ensures Now() == After(old(Now()), Commit)
    {
      BatchEnd();
      head := index;
    }

    /** A session's requests about controls, one after another.  A geometry `g` settled for
        a control `p` stays, as long as only hashed content is staged there, or becomes the
        last edit. */
    method Perform(steps: seq<Step>, ghost p: string, ghost g: string)
      modifies this
      ensures Now() == Run(old(Now()), steps)
      ensures Control(p) && old(Settled(Now(), p, g)) && (forall i :: 0 <= i < |steps| ==> Hashed(steps[i], p)) ==>
        Settled(Now(), p, LastEdit(g, p, steps))
    {
      hide After, Settled, Control, Hashed, LastEdit;
      ghost var was := Now();
      var i := 0;
      assert steps[0..] == steps;
      while i < |steps|
        invariant 0 <= i <= |steps| && Run(was, steps) == Run(Now(), steps[i..])
      {
        assert steps[i..][0] == steps[i] && steps[i..][1..] == steps[i + 1..];
        match steps[i] {
          case StageBlob(path, content) => GitStageBlob(path, content);
          case BatchBlob(path, content) => OpStageBlob(path, content);
          case StageCtl(path, content) => OpStageCtl(path, content);
          case EndBatch => BatchEnd();
          case Commit => GitCommit();
        }
        i := i + 1;
      }
      if Control(p) && Settled(was, p, g) && forall i :: 0 <= i < |steps| ==> Hashed(steps[i], p) {
        StickyOverRuns(was, steps, p, g);
      }
    }
  }

  // ---- geometry over runs ------------------------------------------------

  /** A control path git can hold, within the buffers. */
  predicate Control(p: string)
  {
    IsControlPath(p) && |p| < 512 + |SUFFIX| && Storable(p)
  }

  predicate Good(c: string) { Hash(c) && |c| < CTL_MAX }

  /** The index, and the batch if one is open, hold geometry `g` for `p`. */
  predicate Settled(s: State, p: string, g: string)
  {
    Good(g) && p in s.index && s.index[p] == g &&
    (s.batch.Some? ==> p in s.batch.value && s.batch.value[p] == g)
  }

  function Target(step: Step): string
  {
    match step
    case StageBlob(p, _) => Cut(p, 600)
    case BatchBlob(p, _) => p
    case StageCtl(p, _) => Cut(p, 700)
    case _ => ""
  }

  /** Whatever is staged at `p` is of class hash, and an edit of it fits. */
  predicate Hashed(step: Step, p: string)
  {
    !step.EndBatch? && !step.Commit? && Target(step) == p ==>
      Hash(step.content) && (step.StageCtl? ==> Good(step.content))
  }

  /** The last edit of `p`, or `g` when there was none. */
  function LastEdit(g: string, p: string, steps: seq<Step>): string
  {
    if steps == [] then g
    else
      var last := steps[|steps| - 1];
      if last.StageCtl? && Target(last) == p then last.content
      else LastEdit(g, p, steps[..|steps| - 1])
  }

  lemma LookedUpItself(p: string)
    requires Control(p)
    ensures LookedUp(p) == p
  {
    assert p == p[..|p| - |SUFFIX|] + SUFFIX;
  }

  lemma {:induction false} RunSnoc(s: State, steps: seq<Step>)
    requires steps != []
    ensures Run(s, steps) == After(Run(s, steps[..|steps| - 1]), steps[|steps| - 1])
    decreases |steps|
  {
    hide After;
    if |steps| > 1 {
      RunSnoc(After(s, steps[0]), steps[1..]);
      assert steps[1..][..|steps| - 2] == steps[..|steps| - 1][1..];
    } else {
      assert steps[..0] == [] && steps[1..] == [];
    }
  }

  lemma StepSettled(s: State, step: Step, p: string, g: string)
    requires Control(p) && Settled(s, p, g) && Hashed(step, p)
    ensures Settled(After(s, step), p, if step.StageCtl? && Target(step) == p then step.content else g)
    ensures step.Commit? ==> p in After(s, step).head && After(s, step).head[p] == g
  {
    hide Storable, LookedUp, IsControlPath;
    LookedUpItself(p);
    assert IsControlPath(p) by {
      StorableControl(p);
    }
  }

  /** Over any run that stages only hashed content at `p`, the control stays what was
      recorded, or what the last edit put there; a commit carries it along. */
  lemma {:induction false} StickyOverRuns(s: State, steps: seq<Step>, p: string, g: string)
    requires Control(p) && Settled(s, p, g)
    requires forall i :: 0 <= i < |steps| ==> Hashed(steps[i], p)
    ensures Settled(Run(s, steps), p, LastEdit(g, p, steps))
    ensures steps != [] && steps[|steps| - 1].Commit? ==>
      p in Run(s, steps).head && Run(s, steps).head[p] == LastEdit(g, p, steps)
    decreases |steps|
  {
    hide After, Settled, Control, Hashed, Target;
    if steps == [] {
    } else {
      var n := |steps| - 1;
      StickyOverRuns(s, steps[..n], p, g);
      RunSnoc(s, steps);
      StepSettled(Run(s, steps[..n]), steps[n], p, LastEdit(g, p, steps[..n]));
    }
  }

  /** Nothing usable is recorded for `p`, and no batch is open. */
  predicate Unknown(s: State, p: string)
  {
    s.batch.None? && Recorded(s.index, s.head, p).None?
  }

  /** The first staging of a file git knows nothing about records its geometry at once,
      or when the batch it went into is flushed. */
  lemma FirstRecording(s: State, p: string, c: string)
    requires Control(p) && Good(c) && Unknown(s, p)
    ensures Settled(After(s, StageBlob(p, c)), p, c)
    ensures Settled(Run(s, [BatchBlob(p, c), EndBatch]), p, c)
  {
    hide Storable, LookedUp;
    LookedUpItself(p);
    var one := After(s, BatchBlob(p, c));
    var steps := [BatchBlob(p, c), EndBatch];
    assert steps[1..] == [EndBatch] && [EndBatch][1..] == [];
    assert Run(one, [EndBatch]) == Run(After(one, EndBatch), []);
  }

  /** A control that left the index but not the commit comes back as committed. */
  lemma CommittedComesBack(s: State, p: string, c: string, g: string)
    requires Control(p) && Hash(c) && s.batch.None?
    requires Good(g) && p !in s.index && p in s.head && s.head[p] == g
    ensures Settled(After(s, StageBlob(p, c)), p, g)
  {
    hide Storable, LookedUp;
    LookedUpItself(p);
  }

  /** From a file's first staging on, whatever is staged later: the first geometry, or
      the last edit. */
  lemma {:induction false} FirstGeometryHolds(s: State, p: string, c: string, steps: seq<Step>)
    requires Control(p) && Good(c) && Unknown(s, p)
    requires forall i :: 0 <= i < |steps| ==> Hashed(steps[i], p)
    ensures Settled(Run(s, [StageBlob(p, c)] + steps), p, LastEdit(c, p, steps))
  {
    hide After, Settled, Control, Hashed, Target, Unknown;
    FirstRecording(s, p, c);
    assert ([StageBlob(p, c)] + steps)[1..] == steps;
    StickyOverRuns(After(s, StageBlob(p, c)), steps, p, c);
  }

  /** Staging something else moves a recorded geometry exactly when it is an edit of the
      control, or is not of class hash. */
  lemma MovesOnlyWhen(s: State, step: Step, p: string, g: string)
    requires Control(p) && Settled(s, p, g) && !step.EndBatch? && !step.Commit?
    requires step.content != g
    ensures !Settled(After(s, step), p, g) <==>
      Target(step) == p && (step.StageCtl? || !Hash(step.content))
  {
    hide Storable, LookedUp, IsControlPath;
    LookedUpItself(p);
    StorableControl(p);
  }

  /** Why STAGECTL flushes first: left open, the batch would carry the old geometry
      over the edit. */
  lemma UnflushedEditIsLost(s: State, p: string, g: string, edit: string)
    requires Control(p) && Settled(s, p, g) && s.batch.Some?
    ensures Flushed(s.(index := Put(s.index, p, edit))).index[p] == g
    ensures var r := Run(s, [StageCtl(p, edit), EndBatch]); p in r.index && r.index[p] == edit
  {
    hide Storable;
    var steps := [StageCtl(p, edit), EndBatch];
    var one := After(s, steps[0]);
    assert steps[1..] == [EndBatch] && [EndBatch][1..] == [];
    assert Run(one, [EndBatch]) == Run(After(one, EndBatch), []);
  }

  /** A control that git has sticks, staged either way, exactly when it is of class hash
      and fits the buffer, whatever is committed. */
  lemma SticksExactlyWhen(s: State, p: string, c: string)
    requires Control(p) && Hash(c) && p in s.index && c != s.index[p] && s.batch.None?
    ensures After(s, StageBlob(p, c)).index[p] == s.index[p] <==> Good(s.index[p])
    ensures After(s, BatchBlob(p, c)).batch.value[p] == s.index[p] <==> Good(s.index[p])
  {
    hide Storable, LookedUp;
    LookedUpItself(p);
  }

  // ---- a first staging in a batch ----------------------------------------

  /** The last content batched for `p`. */
  function LastBatched(steps: seq<Step>, p: string): Option<string>
  {
    if steps == [] then None
    else
      var last := steps[|steps| - 1];
      if last.BatchBlob? && last.path == p then Some(last.content) else LastBatched(steps[..|steps| - 1], p)
  }

  predicate OnlyBatched(steps: seq<Step>) { forall i :: 0 <= i < |steps| ==> steps[i].BatchBlob? }

  /** While a batch is open nothing reaches the index on disk, so nothing sticks yet. */
  lemma {:induction false} InBatch(s: State, steps: seq<Step>, p: string)
    requires Control(p) && Unknown(s, p) && OnlyBatched(steps)
    ensures var r := Run(s, steps);
      && r.index == s.index && r.head == s.head && (steps == [] ==> r == s)
      && (LastBatched(steps, p).Some? ==>
            r.batch.Some? && p in r.batch.value && r.batch.value[p] == LastBatched(steps, p).value)
    decreases |steps|
  {
    if steps == [] {
    } else {
      hide Storable, LookedUp, IsControlPath, Control, Run;
      var n := |steps| - 1;
      InBatch(s, steps[..n], p);
      RunSnoc(s, steps);
      LookedUpItself(p);
      assert Storable(p) && IsControlPath(p) by {
        StorableControl(p);
      }
    }
  }

  lemma StorableControl(p: string)
    requires Control(p)
    ensures Storable(p) && IsControlPath(p)
  {}

  lemma {:induction false} RunConcat(s: State, a: seq<Step>, b: seq<Step>)
    ensures Run(s, a + b) == Run(Run(s, a), b)
    decreases |a|
  {
    hide After;
    if a == [] {
      assert a + b == b;
    } else {
      assert (a + b)[1..] == a[1..] + b;
      RunConcat(After(s, a[0]), a[1..], b);
    }
  }

  /** What a first batch records is the last geometry batched for the file, so its first
      staging holds only if nothing else was batched over it; from the flush on it is
      that geometry or the last edit. */
  lemma BatchedGeometryHolds(s: State, batched: seq<Step>, p: string, steps: seq<Step>)
    requires Control(p) && Unknown(s, p) && OnlyBatched(batched)
    requires LastBatched(batched, p).Some? && Good(LastBatched(batched, p).value)
    requires forall i :: 0 <= i < |steps| ==> Hashed(steps[i], p)
    ensures Settled(Run(s, batched + [EndBatch] + steps), p, LastEdit(LastBatched(batched, p).value, p, steps))
  {
    hide Control, Hashed, Unknown, LastEdit, Good, LastBatched;
    var g := LastBatched(batched, p).value;
    var open := Run(s, batched);
    InBatch(s, batched, p);
    var flushed := After(open, EndBatch);
    assert Settled(flushed, p, g);
    RunConcat(s, batched + [EndBatch], steps);
    RunConcat(s, batched, [EndBatch]);
    assert Run(open, [EndBatch]) == flushed by {
      assert [EndBatch][1..] == [];
      assert Run(flushed, []) == flushed;
    }
    StickyOverRuns(flushed, steps, p, g);
  }

  // ---- which paths and contents ------------------------------------------

  /** A control lies beside the dictionary of a file with a name, and is of class hash when
      it begins so. */
  lemma ControlsAre(s: string)
    ensures IsControlPath(s) <==> exists base :: base != "" && s == base + ".DICT/%FILE%"
    ensures Hash(s) <==> exists rest :: s == "hash" + rest
  {
    if IsControlPath(s) {
      assert s == s[..|s| - |SUFFIX|] + SUFFIX;
    }
    if base :| base != "" && s == base + ".DICT/%FILE%" {
      assert s[|base|..] == SUFFIX;
    }
    if Hash(s) {
      assert s == "hash" + s[4..];
    }
    if rest :| s == "hash" + rest {
      assert s[..4] == "hash";
    }
  }

  /** A control is looked up where it is staged exactly when its file's name fits the
      buffer. */
  lemma LookedUpExactly(p: string)
    requires IsControlPath(p)
    ensures LookedUp(p) == p <==> |p| < 512 + |SUFFIX|
  {
    var base := p[..|p| - |SUFFIX|];
    assert p == base + SUFFIX;
    if |base| >= 512 {
      assert |Cut(base, 512) + SUFFIX| == 511 + |SUFFIX|;
    }
  }

  /** A path too long for the buffer it is read into loses its end. */
  lemma LongPathsCut(s: State, p: string, c: string, q: string)
    requires q != if |p| < 600 then p else p[..599]
    ensures q in After(s, StageBlob(p, c)).index <==> q in s.index
    ensures q in s.index ==> After(s, StageBlob(p, c)).index[q] == s.index[q]
    ensures s.batch.None? && q != (if |p| < 700 then p else p[..699]) ==>
      (q in After(s, StageCtl(p, c)).index <==> q in s.index)
  {
    hide Kept, Storable;
  }
}

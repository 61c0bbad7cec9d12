/** The VFS wrappers and `vfs_read_file` (fs/vfs.c:136-303, 1767-1869) as programs that
    any number of tasks run, step by step and interleaved in every way. */
module VfsPrograms {
  import opened Bytes
  import opened Outcomes
  import opened VfsLock

  /** A wrapper around a backend operation that only reads, one around an operation
      that may write, or `vfs_read_file`. */
  datatype Call = Looking | Writing | ReadFile(path: nat)

  predicate Reading(c: Call) {
    !c.Writing?
  }

  /** A call that has begun: before its acquire has succeeded, or between acquire and
      release. A read-file call then knows the size once it has taken it, and the
      bytes it has so far. `entry` is what the files were when it got in. */
  datatype Frame =
    | Waiting(call: Call)
    | Inside(call: Call, size: Option<nat>, buf: seq<Byte>, entry: Files)

  /** Each task's calls, innermost last. */
  datatype Tasks = Tasks(lock: Lock, stacks: map<Task, seq<Frame>>, fs: Files)

  function Stack(s: Tasks, t: Task): seq<Frame> {
    if t in s.stacks then s.stacks[t] else []
  }

  datatype Step =
    | Begin(t: Task, call: Call)    // call a wrapper, from outside or from a backend
    | Try(t: Task)                  // one turn of the acquire loop
    | Change(t: Task, fs: Files)    // the backend writes
    | TakeSize(t: Task)             // ops->stat
    | TakeBytes(t: Task, n: nat)    // one ops->read that delivers n bytes
    | Finish(t: Task)               // release and return, with or without a result

  /** What the code of the task allows next. Nothing here looks at the lock: that a
      backend runs only under it follows from the shape of the wrappers. */
  predicate Can(s: Tasks, e: Step) {
    var st := Stack(s, e.t);
    var top := if st == [] then Waiting(Looking) else st[|st| - 1];
    match e
    case Begin(_, call) => st == [] || (top.Inside? && (Reading(top.call) ==> Reading(call)))
    case Try(_) => st != [] && top.Waiting?
    case Change(_, _) => st != [] && top.Inside? && top.call.Writing?
    case TakeSize(_) => st != [] && top.Inside? && top.call.ReadFile? && top.size.None? && top.call.path in s.fs
    case TakeBytes(_, n) =>
      && st != [] && top.Inside? && top.call.ReadFile? && top.size.Some? && 0 < n && |top.buf| + n <= top.size.value
      && top.call.path in s.fs && |top.buf| + n <= |s.fs[top.call.path]|
    case Finish(_) => st != [] && top.Inside?
  }

  function WithTop(s: Tasks, t: Task, f: Frame): Tasks {
    var st := Stack(s, t);
    if st == [] then s else s.(stacks := s.stacks[t := st[|st| - 1 := f]])
  }

  function Next(s: Tasks, e: Step): Tasks
    requires Can(s, e)
  {
    var st := Stack(s, e.t);
    match e
    case Begin(t, call) => s.(stacks := s.stacks[t := st + [Waiting(call)]])
    case Try(t) =>
      var (l, entered) := Turn(s.lock, t);
      if entered then WithTop(s.(lock := l), t, Inside(st[|st| - 1].call, None, [], s.fs)) else s
    case Change(_, fs) => s.(fs := fs)
    case TakeSize(t) =>
      var top := st[|st| - 1];
      WithTop(s, t, top.(size := Some(|s.fs[top.call.path]|)))
    case TakeBytes(t, n) =>
      var top := st[|st| - 1];
      WithTop(s, t, top.(buf := top.buf + s.fs[top.call.path][|top.buf|..|top.buf| + n]))
    case Finish(t) => s.(lock := Unlock(s.lock), stacks := s.stacks[t := st[..|st| - 1]])
  }

  ghost predicate IsProgramRun(tr: seq<Tasks>, es: seq<Step>) {
    && |tr| == |es| + 1 && tr[0].lock == UNLOCKED && (forall t :: Stack(tr[0], t) == [])
    && forall i | 0 <= i < |es| :: Can(tr[i], es[i]) && tr[i + 1] == Next(tr[i], es[i])
  }

  // ----- the programs keep the discipline of the lock ------------------------------------

  function Depth(st: seq<Frame>): nat {
    if st == [] then 0 else Depth(st[..|st| - 1]) + if st[|st| - 1].Inside? then 1 else 0
  }

  /** The lock, and how often each task is inside. */
  ghost function Abs(s: Tasks): State {
    State(s.lock, map t | t in s.stacks :: Depth(s.stacks[t]), s.fs)
  }

  lemma HeldIs(s: Tasks, t: Task)
    ensures Held(Abs(s), t) == Depth(Stack(s, t))
  {
  }

  lemma DepthTop(st: seq<Frame>, f: Frame)
    requires st != []
    ensures Depth(st[|st| - 1 := f]) == Depth(st[..|st| - 1]) + if f.Inside? then 1 else 0
    ensures Depth(st + [f]) == Depth(st) + if f.Inside? then 1 else 0
  {
    assert st[|st| - 1 := f][..|st| - 1] == st[..|st| - 1];
    assert (st + [f])[..|st|] == st;
  }

  lemma DepthPush(st: seq<Frame>, f: Frame)
    ensures Depth(st + [f]) == Depth(st) + if f.Inside? then 1 else 0
  {
    assert (st + [f])[..|st|] == st;
  }

  /** The lock event a step is; those that are none only look. */
  function EventOf(e: Step): Event {
    match e
    case Try(t) => Acquire(t)
    case Finish(t) => Release(t)
    case Change(t, fs) => VfsLock.Change(t, fs)
    case _ => Look(e.t)
  }

  /** Who is in, how deep, and the files, are what the lock model says after the
      same event. */
  ghost predicate SameView(a: State, b: State) {
    a.lock == b.lock && a.fs == b.fs && forall t: Task :: Held(a, t) == Held(b, t)
  }

  /** Every step of a program is a step of the lock model, and keeps its rules: what
      touches a backend, or releases, does so between its own acquire and
      release. */
  lemma StepRefines(s: Tasks, e: Step)
    requires Can(s, e)
    ensures !e.Begin? ==> MayDo(Abs(s), EventOf(e))
    ensures SameView(Abs(Next(s, e)), if e.Begin? then Abs(s) else After(Abs(s), EventOf(e)))
  {
    hide Can, Next, Turn, Unlock;
    var st, s' := Stack(s, e.t), Next(s, e);
    StepStacks(s, e);
    StepDepth(s, e);
    forall t: Task ensures Held(Abs(s'), t) == Held(if e.Begin? then Abs(s) else After(Abs(s), EventOf(e)), t) {
      HeldIs(s, t);
      HeldIs(s', t);
      HeldIs(s, e.t);
    }
    HeldIs(s, e.t);
  }

  /** Other tasks' calls are as they were. */
  lemma StepStacks(s: Tasks, e: Step)
    requires Can(s, e)
    ensures forall t: Task | t != e.t :: Stack(Next(s, e), t) == Stack(s, t)
    ensures Next(s, e).fs == if e.Change? then e.fs else s.fs
    ensures Next(s, e).lock == if e.Try? then Turn(s.lock, e.t).0 else if e.Finish? then Unlock(s.lock) else s.lock
  {
    hide Unlock;
  }

  lemma StepDepth(s: Tasks, e: Step)
    requires Can(s, e)
    ensures var d, d' := Depth(Stack(s, e.t)), Depth(Stack(Next(s, e), e.t));
            && (e.Try? ==> d' == d + if Turn(s.lock, e.t).1 then 1 else 0)
            && (e.Finish? ==> d > 0 && d' == d - 1)
            && (!e.Try? && !e.Finish? ==> d' == d)
            && (!e.Begin? && !e.Try? ==> d > 0)
  {
    hide Turn, Unlock;
    var st := Stack(s, e.t);
    match e
    case Begin(t, call) => DepthPush(st, Waiting(call));
    case Try(t) => DepthTop(st, Inside(st[|st| - 1].call, None, [], s.fs));
    case TakeSize(t) =>
      DepthTop(st, st[|st| - 1].(size := Some(|s.fs[st[|st| - 1].call.path]|)));
    case TakeBytes(t, n) =>
      var top := st[|st| - 1];
      DepthTop(st, top.(buf := top.buf + s.fs[top.call.path][|top.buf|..|top.buf| + n]));
    case _ =>
  }

  // ----- what holds in every state of every run ---------------------------------------------

  /** Frames below a waiting one are inside, and below a reading one nothing hangs
      above that writes. */
  ghost predicate StackOk(st: seq<Frame>) {
    && (forall i | 0 <= i < |st| - 1 :: st[i].Inside?)
    && (forall i, j | 0 <= i < j < |st| :: Reading(st[i].call) ==> Reading(st[j].call))
  }

  /** What a reading call that is inside knows is true of the files as they are now,
      and as they were when it got in. */
  ghost predicate FrameOk(f: Frame, fs: Files) {
    f.Inside? && Reading(f.call) ==>
      && f.entry == fs
      && (f.call.ReadFile? && f.size.Some? ==>
        f.call.path in fs && f.size.value == |fs[f.call.path]| && |f.buf| <= f.size.value &&
        f.buf == fs[f.call.path][..|f.buf|])
      && (f.size.None? ==> f.buf == [])
  }

  ghost predicate Sound(s: Tasks) {
    && Inv(Abs(s))
    && (forall t: Task :: StackOk(Stack(s, t)))
    && (forall t: Task, i | 0 <= i < |Stack(s, t)| :: FrameOk(Stack(s, t)[i], s.fs))
  }

  lemma InvSame(a: State, b: State)
    requires Inv(a) && SameView(b, a)
    ensures Inv(b)
  {
    forall t: Task ensures Held(b, t) == if b.lock.owner == t then b.lock.depth else 0 {
      assert Held(b, t) == Held(a, t);
    }
  }

  /** Whoever is inside keeps everyone else out. */
  lemma OnlyOne(s: Tasks, t: Task, u: Task, i: nat)
    requires Inv(Abs(s)) && Depth(Stack(s, t)) > 0 && i < |Stack(s, u)| && Stack(s, u)[i].Inside?
    ensures u == t
  {
    InsideDepth(Stack(s, u), i);
    HeldIs(s, t);
    HeldIs(s, u);
    assert Held(Abs(s), t) == if s.lock.owner == t then s.lock.depth else 0;
    assert Held(Abs(s), u) == if s.lock.owner == u then s.lock.depth else 0;
  }

  lemma {:induction false} InsideDepth(st: seq<Frame>, i: nat)
    requires i < |st| && st[i].Inside?
    ensures Depth(st) > 0
  {
    if i < |st| - 1 { InsideDepth(st[..|st| - 1], i); }
  }

  lemma StackStep(s: Tasks, e: Step)
    requires Can(s, e) && StackOk(Stack(s, e.t))
    ensures StackOk(Stack(Next(s, e), e.t))
  {
    hide Turn, Unlock;
  }

  lemma FrameStep(s: Tasks, e: Step, t: Task, i: nat)
    requires Sound(s) && Can(s, e) && i < |Stack(Next(s, e), t)|
    ensures FrameOk(Stack(Next(s, e), t)[i], Next(s, e).fs)
  {
    hide Unlock, Depth, Inv, Turn;
    StepStacks(s, e);
    if e.Change? {
      StepDepth(s, e);
      var f := Stack(s, t)[i];
      if f.Inside? {
        OnlyOne(s, e.t, t, i);
        assert StackOk(Stack(s, t));
      }
    } else if t != e.t {
      assert FrameOk(Stack(s, t)[i], s.fs);
    } else {
      OwnFrame(s, e, i);
    }
  }

  lemma OwnFrame(s: Tasks, e: Step, i: nat)
    requires Can(s, e) && !e.Change? && i < |Stack(Next(s, e), e.t)|
    requires forall k | 0 <= k < |Stack(s, e.t)| :: FrameOk(Stack(s, e.t)[k], s.fs)
    ensures FrameOk(Stack(Next(s, e), e.t)[i], s.fs)
  {
    hide Unlock, Turn;
    var st := Stack(s, e.t);
    if i < |st| { assert FrameOk(st[i], s.fs); }
    if e.TakeBytes? && i == |st| - 1 {
      var top := st[i];
      var c := s.fs[top.call.path];
      assert c[..|top.buf|] + c[|top.buf|..|top.buf| + e.n] == c[..|top.buf| + e.n];
    }
  }

  lemma SoundStep(s: Tasks, e: Step)
    requires Sound(s) && Can(s, e)
    ensures Sound(Next(s, e))
  {
    hide Inv, StackOk, FrameOk, Can, Next;
    var s' := Next(s, e);
    StepRefines(s, e);
    StepStacks(s, e);
    if !e.Begin? { InvStep(Abs(s), EventOf(e)); }
    InvSame(if e.Begin? then Abs(s) else After(Abs(s), EventOf(e)), Abs(s'));
    forall t: Task ensures StackOk(Stack(s', t)) {
      if t == e.t { StackStep(s, e); }
    }
    forall t: Task, i | 0 <= i < |Stack(s', t)| ensures FrameOk(Stack(s', t)[i], s'.fs) {
      FrameStep(s, e, t, i);
    }
  }

  lemma {:induction false} SoundAlways(tr: seq<Tasks>, es: seq<Step>, i: nat)
    requires IsProgramRun(tr, es) && i < |tr|
    ensures Sound(tr[i])
  {
    hide Next, Can;
    if i == 0 {
      forall t: Task ensures Held(Abs(tr[0]), t) == 0 {
        HeldIs(tr[0], t);
        assert Stack(tr[0], t) == [];
      }
    } else {
      SoundAlways(tr, es, i - 1);
      SoundStep(tr[i - 1], es[i - 1]);
    }
  }

  /** In every state of every run at most one task is inside any call; a task inside
      is never made to wait for itself; and a backend runs, and the lock is
      released, only by the task that holds it. */
  lemma OneInside(tr: seq<Tasks>, es: seq<Step>, i: nat, t: Task)
    requires IsProgramRun(tr, es) && i < |tr| && Depth(Stack(tr[i], t)) > 0
    ensures tr[i].lock == Lock(true, Depth(Stack(tr[i], t)), t) && Turn(tr[i].lock, t).1
    ensures forall u: Task | u != t :: Depth(Stack(tr[i], u)) == 0 && !Turn(tr[i].lock, u).1
    ensures i < |es| && !es[i].Begin? && !es[i].Try? ==> es[i].t == t
  {
    SoundAlways(tr, es, i);
    HeldIs(tr[i], t);
    forall u: Task | u != t ensures Depth(Stack(tr[i], u)) == 0 {
      HeldIs(tr[i], u);
    }
    if i < |es| && !es[i].Begin? && !es[i].Try? {
      StepDepth(tr[i], es[i]);
    }
  }

  /** When `vfs_read_file` has all its bytes they are the whole file of one single
      state: the one it entered in, which is also the present one, whatever
      other tasks did in between. */
  lemma ReadFileReturnsOneState(tr: seq<Tasks>, es: seq<Step>, i: nat, t: Task)
    requires IsProgramRun(tr, es) && i < |tr| && Stack(tr[i], t) != []
    requires var top := Stack(tr[i], t)[|Stack(tr[i], t)| - 1];
             top.Inside? && top.call.ReadFile? && top.size == Some(|top.buf|)
    ensures var top := Stack(tr[i], t)[|Stack(tr[i], t)| - 1];
            top.entry == tr[i].fs && top.call.path in top.entry && top.buf == top.entry[top.call.path]
  {
    hide IsProgramRun, Inv;
    SoundAlways(tr, es, i);
    var top := Stack(tr[i], t)[|Stack(tr[i], t)| - 1];
    assert FrameOk(top, tr[i].fs);
  }

  /** `entry` is the files at the moment of entry, and no step of anyone changes it. */
  lemma EntryIsEntry(s: Tasks, e: Step, t: Task, i: nat)
    requires Can(s, e) && i < |Stack(Next(s, e), t)| && Stack(Next(s, e), t)[i].Inside?
    ensures i < |Stack(s, t)|
    ensures Stack(s, t)[i].Waiting? ==> e == Try(t) && Stack(Next(s, e), t)[i].entry == s.fs
    ensures Stack(s, t)[i].Inside? ==>
              Stack(Next(s, e), t)[i].entry == Stack(s, t)[i].entry &&
              Stack(Next(s, e), t)[i].call == Stack(s, t)[i].call
  {
    hide Turn, Unlock;
  }

  /** No run gets stuck: if any call is under way, some task can do a step other than
      wait. */
  lemma NoDeadlock(tr: seq<Tasks>, es: seq<Step>, i: nat, t: Task)
    requires IsProgramRun(tr, es) && i < |tr| && Stack(tr[i], t) != []
    ensures exists u: Task :: CanMove(tr[i], u)
  {
    hide IsProgramRun;
    var s := tr[i];
    SoundAlways(tr, es, i);
    if CanMove(s, t) { return; }
    var o := s.lock.owner;
    HeldIs(s, o);
    assert Held(Abs(s), o) == s.lock.depth;
    assert CanMove(s, o);
  }

  /** The task's innermost call is inside, or would get in at once. */
  ghost predicate CanMove(s: Tasks, u: Task) {
    Stack(s, u) != [] && (Can(s, Finish(u)) || (Can(s, Try(u)) && Turn(s.lock, u).1))
  }
}

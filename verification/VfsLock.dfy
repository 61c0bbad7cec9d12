/** The recursive lock that serialises filesystem operations (fs/vfs.c:64-134),
    as one lock shared by any number of interleaved tasks. */
module VfsLock {
  import opened Bytes

  /** A task is named by its address, so 0 names none (NULL). */
  type Task = t: nat | t != 0 witness 1

  datatype Lock = Lock(busy: bool, depth: nat, owner: nat)

  const UNLOCKED := Lock(false, 0, 0)

  /** One turn of the loop in `vfs_fs_op_acquire`, which runs with interrupts
      off: either `me` is in, or nothing changed and it will try again. */
  function Turn(l: Lock, me: Task): (r: (Lock, bool)) {
    if l.busy && l.owner == me then (l.(depth := l.depth + 1), true)
    else if !l.busy then (Lock(true, 1, me), true)
    else (l, false)
  }

  /** `vfs_fs_op_release` does not look at who calls it. */
  function Unlock(l: Lock): Lock {
    if l.depth > 1 then l.(depth := l.depth - 1) else UNLOCKED
  }

  /** The lock as the kernel keeps it. */
  class LockVars {
    var busy: bool
    var depth: nat
    var owner: nat

    ghost function Value(): Lock
      reads this
    {
      Lock(busy, depth, owner)
    }

    method AcquireTurn(me: Task) returns (entered: bool)
      modifies this
      ensures (Value(), entered) == Turn(old(Value()), me)
    {
      if busy && owner == me {
        depth := depth + 1;
        return true;
      }
      if !busy {
        busy, owner, depth := true, me, 1;
        return true;
      }
      return false;
    }

    method Release()
      modifies this
      ensures Value() == Unlock(old(Value()))
    {
      if depth > 1 {
        depth := depth - 1;
        return;
      }
      busy, owner, depth := false, 0, 0;
    }
  }

  // ----- all interleavings --------------------------------------------------------

  type Files = map<nat, seq<Byte>> // by path

  /** `held[t]` counts the acquires task t has made and not yet released. */
  datatype State = State(lock: Lock, held: map<Task, nat>, fs: Files)

  function Held(s: State, t: Task): nat {
    if t in s.held then s.held[t] else 0
  }

  datatype Event =
    | Acquire(t: Task)
    | Release(t: Task)
    | Look(t: Task)              // a backend operation that only reads
    | Change(t: Task, fs: Files) // one step of a backend operation that writes

  /** The discipline of the wrappers (fs/vfs.c:136-303): a task touches a backend,
      and releases, only between its own acquire and release. That the wrappers
      keep it is proved in VfsPrograms. */
  predicate MayDo(s: State, e: Event) {
    !e.Acquire? ==> Held(s, e.t) > 0
  }

  function After(s: State, e: Event): State {
    match e
    case Acquire(t) =>
      var (l, entered) := Turn(s.lock, t);
      State(l, if entered then s.held[t := Held(s, t) + 1] else s.held, s.fs)
    case Release(t) => State(Unlock(s.lock), s.held[t := if Held(s, t) > 0 then Held(s, t) - 1 else 0], s.fs)
    case Look(_) => s
    case Change(_, fs) => s.(fs := fs)
  }

  ghost predicate IsRun(tr: seq<State>, es: seq<Event>) {
    && |tr| == |es| + 1
    && tr[0].lock == UNLOCKED && (forall t: Task :: Held(tr[0], t) == 0)
    && forall i | 0 <= i < |es| :: MayDo(tr[i], es[i]) && tr[i + 1] == After(tr[i], es[i])
  }

  /** The lock says exactly who is inside and how deep. */
  ghost predicate Inv(s: State) {
    && s.lock.busy == (s.lock.depth > 0) == (s.lock.owner != 0)
    && forall t: Task :: Held(s, t) == if s.lock.owner == t then s.lock.depth else 0
  }

  lemma InvStep(s: State, e: Event)
    requires Inv(s) && MayDo(s, e)
    ensures Inv(After(s, e))
  {
    var s' := After(s, e);
    forall t: Task ensures Held(s', t) == if s'.lock.owner == t then s'.lock.depth else 0 {
      assert Held(s, t) == if s.lock.owner == t then s.lock.depth else 0;
      assert Held(s, e.t) == if s.lock.owner == e.t then s.lock.depth else 0;
    }
  }

  lemma {:induction false} InvHolds(tr: seq<State>, es: seq<Event>, i: nat)
    requires IsRun(tr, es) && i < |tr|
    ensures Inv(tr[i])
  {
    if i > 0 {
      InvHolds(tr, es, i - 1);
      InvStep(tr[i - 1], es[i - 1]);
    }
  }

  /** In every state of every run at most one task is inside; the lock's depth is
      that task's outstanding acquires; and a task that is inside is never made
      to wait when it acquires again. */
  lemma MutualExclusion(tr: seq<State>, es: seq<Event>, i: nat, t: Task, u: Task)
    requires IsRun(tr, es) && i < |tr|
    requires Held(tr[i], t) > 0
    ensures Held(tr[i], u) > 0 ==> u == t
    ensures tr[i].lock == Lock(true, Held(tr[i], t), t)
    ensures Turn(tr[i].lock, t).1
    ensures u != t ==> Turn(tr[i].lock, u) == (tr[i].lock, false)
  {
    InvHolds(tr, es, i);
  }

  /** When the last release is made the lock is free for whoever comes next. */
  lemma ReleaseFrees(tr: seq<State>, es: seq<Event>, i: nat)
    requires IsRun(tr, es) && i < |es| && es[i].Release?
    ensures Held(tr[i], es[i].t) == 1 <==> !tr[i + 1].lock.busy
    ensures Held(tr[i + 1], es[i].t) == Held(tr[i], es[i].t) - 1
  {
    InvHolds(tr, es, i);
    assert Held(tr[i], es[i].t) > 0;
  }
}

/** Advisory whole-file locks (fs/flock.c) and the open-file descriptions that
    hold them (fs/vfs.c:925-935, 1046-1078). */
module Flock {
  import opened Outcomes

  const SLOTS := 64

  type Path = string

  /** A description is named by its address; 0 is NULL. */
  datatype Holder = Holder(file: nat, path: Path, exclusive: bool)

  const EMPTY := Holder(0, "", false)

  datatype File = File(path: Path, refs: nat)

  /** The bits of flock(2)'s operation argument. */
  datatype Request = Request(sh: bool, ex: bool, nb: bool, un: bool)

  datatype Lock = Lock(path: Path, exclusive: bool)

  /** The locks a table records, by description. */
  ghost function Locks(t: seq<Holder>): map<nat, Lock> {
    map f | f in Holders(t) :: LockOf(t, f)
  }

  ghost function Holders(t: seq<Holder>): set<nat> {
    set i | 0 <= i < |t| && t[i].file != 0 :: t[i].file
  }

  ghost function LockOf(t: seq<Holder>, f: nat): Lock
    requires f in Holders(t)
  {
    var i :| 0 <= i < |t| && t[i].file == f;
    Lock(t[i].path, t[i].exclusive)
  }

  /** Each description has at most one record. */
  ghost predicate OneEach(t: seq<Holder>) {
    forall i, j | 0 <= i < j < |t| && t[i].file != 0 :: t[i].file != t[j].file
  }

  lemma LockAt(t: seq<Holder>, i: nat)
    requires OneEach(t) && i < |t| && t[i].file != 0
    ensures t[i].file in Locks(t) && Locks(t)[t[i].file] == Lock(t[i].path, t[i].exclusive)
  {
    assert t[i].file in Holders(t);
  }

  /** Two descriptions hold locks on one path only if both are shared. */
  ghost predicate Safe(locks: map<nat, Lock>) {
    forall f, g | f in locks && g in locks && f != g && locks[f].path == locks[g].path ::
      !locks[f].exclusive && !locks[g].exclusive
  }

  /** Someone else's lock on the path stands in the way. */
  ghost predicate Blocked(locks: map<nat, Lock>, f: nat, path: Path, ex: bool) {
    exists g :: g in locks && g != f && locks[g].path == path && (ex || locks[g].exclusive)
  }

  /** No record is left for a description that has none. */
  ghost predicate Full(locks: map<nat, Lock>, f: nat) {
    |locks| == SLOTS && f !in locks
  }

  class Table {
    var table: seq<Holder>
    var files: map<nat, File> // the live descriptions

    ghost predicate Valid()
      reads this
    {
      && |table| == SLOTS && OneEach(table)
      && (forall i | 0 <= i < |table| && table[i].file != 0 ::
            table[i].file in files && files[table[i].file].path == table[i].path)
      && (forall f | f in files :: f != 0 && files[f].refs > 0)
      && Safe(Locks(table))
    }

    constructor ()
      ensures Valid() && Locks(table) == map[] && files == map[]
    {
      table := seq(SLOTS, _ => EMPTY);
      files := map[];
    }

    /** `flock_find` */
    method Find(file: nat) returns (i: nat)
      ensures i <= |table|
      ensures i < |table| ==> table[i].file == file
      ensures i == |table| ==> forall k | 0 <= k < |table| :: table[k].file != file
    {
      i := 0;
      while i < |table|
        invariant i <= |table| && forall k | 0 <= k < i :: table[k].file != file
      {
        if table[i].file == file { return; }
        i := i + 1;
      }
    }

    /** `flock_conflicts` */
    method Conflicts(file: nat, path: Path, ex: bool) returns (c: bool)
      requires OneEach(table)
      ensures c <==> Blocked(Locks(table), file, path, ex)
    {
      hide Locks;
      for i := 0 to |table|
        invariant forall k | 0 <= k < i :: !InTheWay(table[k], file, path, ex)
      {
        var h := table[i];
        if h.file == 0 || h.file == file || h.path != path { continue; }
        if ex || h.exclusive {
          LockAt(table, i);
          return true;
        }
      }
      NobodyBlocks(table, file, path, ex);
      return false;
    }

    /** `ir0_flock_release_file` */
    method ReleaseFile(file: nat)
      requires Valid()
      modifies this`table
      ensures Valid() && Locks(table) == old(Locks(table)) - {file}
    {
      hide Locks;
      NullHoldsNothing(table);
      if file == 0 { return; }
      var i := Find(file);
      if i == |table| {
        NotHolding(table, file);
        return;
      }
      RemoveLock(table, i);
      table := table[i := EMPTY];
    }

    /** `ir0_flock_apply`. A request that is refused changes nothing: an upgrade
        that cannot be had keeps the lock already held. */
    method Apply(file: nat, r: Request) returns (err: Errno)
      requires Valid() && (file == 0 || file in files)
      modifies this`table
      ensures Valid()
      ensures file == 0 <==> err == EBADF
      ensures file != 0 && (if r.un then r.sh || r.ex else r.sh == r.ex) <==> err == EINVAL
      ensures file != 0 && r.un && !r.sh && !r.ex ==> err == OK && Locks(table) == old(Locks(table)) - {file}
      ensures file != 0 && !r.un && r.sh != r.ex ==>
                err == if old(Blocked(Locks(table), file, files[file].path, r.ex)) then
                  (if r.nb then EWOULDBLOCK else ENOLCK)
                       else if old(Full(Locks(table), file)) then ENOLCK else OK
      ensures file != 0 && !r.un && err == OK ==>
                Locks(table) == old(Locks(table))[file := Lock(files[file].path, r.ex)]
      ensures err != OK ==> unchanged(this)
    {
      hide Locks, Full;
      if file == 0 { return EBADF; }
      if r.un {
        if r.sh || r.ex { return EINVAL; }
        ReleaseFile(file);
        return OK;
      }
      if !r.sh && !r.ex { return EINVAL; }
      if r.sh && r.ex { return EINVAL; }
      var path := files[file].path;
      var c := Conflicts(file, path, r.ex);
      if c { return if r.nb then EWOULDBLOCK else ENOLCK; }
      var i := Find(file);
      if i == |table| {
        i := Find(0);
        if i == |table| {
          AllTaken(table, file);
          return ENOLCK;
        }
        table := table[i := Holder(file, path, false)];
      }
      PutLock(old(table), table, i, file, path, r.ex);
      table := table[i := table[i].(exclusive := r.ex)];
      HadRoom(old(table), table, file, Lock(path, r.ex));
      return OK;
    }

    /** The end of `vfs_open`: a new description at an address that is not in
        use, which may well be one that was freed before. It holds no lock. */
    method Open(file: nat, path: Path)
      requires Valid() && file != 0 && file !in files
      modifies this`files
      ensures Valid() && files == old(files)[file := File(path, 1)]
      ensures Locks(table) == old(Locks(table)) && file !in Locks(table)
    {
      NotHolding(table, file);
      files := files[file := File(path, 1)];
    }

    /** `vfs_file_acquire`, as dup(2) and fork(2) use it: the lock is shared. */
    method Dup(file: nat)
      requires Valid() && file in files
      modifies this`files
      ensures Valid() && files == old(files)[file := old(files)[file].(refs := old(files)[file].refs + 1)]
      ensures Locks(table) == old(Locks(table))
    {
      files := files[file := files[file].(refs := files[file].refs + 1)];
    }

    /** `vfs_close`: only the last reference takes the lock with it. */
    method Close(file: nat)
      requires Valid() && file in files
      modifies this
      ensures Valid()
      ensures old(files)[file].refs > 1 ==>
                Locks(table) == old(Locks(table)) && files == old(files)[file := old(files)[file].(refs := old(files)[file].refs - 1)]
      ensures old(files)[file].refs == 1 ==> Locks(table) == old(Locks(table)) - {file} && files == old(files) - {file}
    {
      hide Locks;
      var refs := files[file].refs - 1;
      if refs > 0 {
        files := files[file := files[file].(refs := refs)];
        return;
      }
      ReleaseFile(file);
      Released(table, file);
      files := files - {file};
    }
  }

  lemma Released(t: seq<Holder>, file: nat)
    requires OneEach(t) && file !in Locks(t) && file != 0
    ensures forall k | 0 <= k < |t| :: t[k].file != file
  {
    forall k | 0 <= k < |t| && t[k].file != 0 ensures t[k].file != file {
      LockAt(t, k);
    }
  }

  // ----- whole runs -------------------------------------------------------------

  datatype Op =
    | OpenOp(file: nat, path: Path)
    | DupOp(file: nat)
    | CloseOp(file: nat)
    | FlockOp(file: nat, r: Request)

  /** What there is to see: the live descriptions and the locks they hold. */
  datatype World = World(files: map<nat, File>, locks: map<nat, Lock>)

  ghost function WorldOf(t: Table): World
    reads t
  {
    World(t.files, Locks(t.table))
  }

  /** What flock(2) answers on a live description. */
  ghost function FlockAnswer(w: World, f: nat, r: Request): Errno
    requires f in w.files
  {
    if (if r.un then r.sh || r.ex else r.sh == r.ex) then EINVAL
    else if r.un then OK
    else if Blocked(w.locks, f, w.files[f].path, r.ex) then (if r.nb then EWOULDBLOCK else ENOLCK)
    else if Full(w.locks, f) then ENOLCK
    else OK
  }

  /** The reference: what an operation answers and does. Calls on descriptions that are
      not live are refused, and so is a second description at a live address. */
  ghost function Answer(w: World, op: Op): Errno {
    match op
    case OpenOp(f, _) => if f == 0 || f in w.files then EBADF else OK
    case FlockOp(f, r) => if f !in w.files then EBADF else FlockAnswer(w, f, r)
    case _ => if op.file in w.files then OK else EBADF
  }

  /** A shared lock is granted exactly if no other description holds the path exclusively,
      an exclusive one exactly if no other holds it at all, as long as there is a
      record for it. */
  lemma GrantedIff(w: World, f: nat, r: Request)
    requires f in w.files && !r.un && r.sh != r.ex && |w.locks| <= SLOTS
    ensures FlockAnswer(w, f, r) == OK <==>
              && (f in w.locks || |w.locks| < SLOTS)
              && forall g | g in w.locks && g != f && w.locks[g].path == w.files[f].path ::
                   r.sh && !w.locks[g].exclusive
  {
  }

  /** So any number of descriptions hold a path shared: one more always can, and the
      others keep theirs. */
  lemma SharedTogether(w: World, f: nat, r: Request)
    requires f in w.files && r.sh && !r.ex && !r.un && |w.locks| < SLOTS
    requires forall g | g in w.locks && w.locks[g].path == w.files[f].path :: !w.locks[g].exclusive
    ensures var w' := After(w, FlockOp(f, r));
            && f in w'.locks && w'.locks[f] == Lock(w.files[f].path, false)
            && forall g | g in w.locks && g != f :: g in w'.locks && w'.locks[g] == w.locks[g]
  {
    GrantedIff(w, f, r);
  }

  ghost function After(w: World, op: Op): World {
    if Answer(w, op) != OK then w
    else
      match op
      case OpenOp(f, path) => w.(files := w.files[f := File(path, 1)])
      case DupOp(f) => w.(files := w.files[f := File(w.files[f].path, w.files[f].refs + 1)])
      case CloseOp(f) =>
        if w.files[f].refs > 1 then w.(files := w.files[f := File(w.files[f].path, w.files[f].refs - 1)])
        else World(w.files - {f}, w.locks - {f})
      case FlockOp(f, r) =>
        if r.un then w.(locks := w.locks - {f}) else w.(locks := w.locks[f := Lock(w.files[f].path, r.ex)])
  }

  ghost function AfterAll(w: World, ops: seq<Op>): World {
    if ops == [] then w else After(AfterAll(w, ops[..|ops| - 1]), ops[|ops| - 1])
  }

  /** Closing as often as was duplicated, plus once: only the last close gives the lock
      up, and with it the description. */
  lemma {:induction false} LastCloseReleases(w: World, f: nat, n: nat)
    requires f in w.files && n <= w.files[f].refs
    ensures var w' := AfterAll(w, seq(n, _ => CloseOp(f)));
            && (n < w.files[f].refs ==>
                  w'.locks == w.locks && w'.files == w.files[f := File(w.files[f].path, w.files[f].refs - n)])
            && (0 < n == w.files[f].refs ==> w' == World(w.files - {f}, w.locks - {f}))
  {
    var ops := seq(n, _ => CloseOp(f));
    if n == 0 {
      assert w.files[f := File(w.files[f].path, w.files[f].refs)] == w.files;
    } else {
      LastCloseReleases(w, f, n - 1);
      assert ops[..n - 1] == seq(n - 1, _ => CloseOp(f));
      assert ops[n - 1] == CloseOp(f);
    }
  }

  /** A close undoes a dup, whoever holds what. */
  lemma DupThenClose(w: World, f: nat)
    requires f in w.files && w.files[f].refs > 0
    ensures After(After(w, DupOp(f)), CloseOp(f)) == w
  {
    assert After(After(w, DupOp(f)), CloseOp(f)).files == w.files;
  }

  /** Once the last reference is closed, whatever only this lock kept out is granted. */
  lemma CloseLetsIn(w: World, f: nat, g: nat, r: Request)
    requires f in w.files && g in w.files && f != g && w.files[f].refs == 1 && f in w.locks && |w.locks| <= SLOTS
    requires !r.un && r.sh != r.ex
    requires forall h | h in w.locks && h != f && h != g :: w.locks[h].path != w.files[g].path
    ensures Answer(After(w, CloseOp(f)), FlockOp(g, r)) == OK
  {
    var w' := After(w, CloseOp(f));
    assert w.locks.Keys == w'.locks.Keys + {f};
    assert |w.locks| == |w.locks.Keys| && |w'.locks| == |w'.locks.Keys|;
    GrantedIff(w', g, r);
  }

  method Step(t: Table, op: Op) returns (err: Errno)
    requires t.Valid()
    modifies t
    ensures t.Valid() && err == Answer(old(WorldOf(t)), op) && WorldOf(t) == After(old(WorldOf(t)), op)
  {
    hide Locks, Blocked, Full, Safe, OneEach;
    NullHoldsNothing(t.table);
    var file := op.file;
    match op
    case OpenOp(_, path) =>
      if file == 0 || file in t.files { return EBADF; }
      t.Open(file, path);
      return OK;
    case DupOp(_) =>
      if file !in t.files { return EBADF; }
      t.Dup(file);
      return OK;
    case CloseOp(_) =>
      if file !in t.files { return EBADF; }
      t.Close(file);
      return OK;
    case FlockOp(_, r) =>
      if file !in t.files { return EBADF; }
      err := t.Apply(file, r);
  }

  /** Over any run of open, dup, close and flock calls, on whatever descriptions: the
      answers and the locks are those of the reference, every path has either
      shared holders only or one exclusive holder, every description at most one
      record, and every record a live description. */
  method Run(t: Table, ops: seq<Op>) returns (errs: seq<Errno>)
    requires t.Valid()
    modifies t
    ensures t.Valid() && |errs| == |ops|
    ensures WorldOf(t) == AfterAll(old(WorldOf(t)), ops)
    ensures forall i | 0 <= i < |ops| :: errs[i] == Answer(AfterAll(old(WorldOf(t)), ops[..i]), ops[i])
    ensures Safe(Locks(t.table)) && OneEach(t.table) && |Locks(t.table)| <= SLOTS
    ensures forall f | f in Locks(t.table) :: f in t.files && Locks(t.table)[f].path == t.files[f].path
  {
    hide Locks, After, Answer;
    errs := [];
    ghost var w := WorldOf(t);
    for i := 0 to |ops|
      invariant t.Valid() && |errs| == i
      invariant WorldOf(t) == AfterAll(w, ops[..i])
      invariant forall k | 0 <= k < i :: errs[k] == Answer(AfterAll(w, ops[..k]), ops[k])
    {
      var err := Step(t, ops[i]);
      assert ops[..i + 1][..i] == ops[..i];
      errs := errs + [err];
    }
    assert ops[..|ops|] == ops;
    LocksFit(t.table);
    forall f | f in Locks(t.table) ensures f in t.files && Locks(t.table)[f].path == t.files[f].path {
      HolderOf(t.table, f);
    }
  }

  lemma HolderOf(t: seq<Holder>, f: nat)
    requires OneEach(t) && f in Locks(t)
    ensures f != 0 && exists i :: 0 <= i < |t| && t[i].file == f && Locks(t)[f].path == t[i].path
  {
    var i :| 0 <= i < |t| && t[i].file == f;
    LockAt(t, i);
  }

  ghost predicate InTheWay(h: Holder, file: nat, path: Path, ex: bool) {
    h.file != 0 && h.file != file && h.path == path && (ex || h.exclusive)
  }

  lemma NobodyBlocks(t: seq<Holder>, file: nat, path: Path, ex: bool)
    requires OneEach(t) && forall k | 0 <= k < |t| :: !InTheWay(t[k], file, path, ex)
    ensures !Blocked(Locks(t), file, path, ex)
  {
    forall g | g in Locks(t) && g != file ensures !(Locks(t)[g].path == path && (ex || Locks(t)[g].exclusive)) {
      var i :| 0 <= i < |t| && t[i].file == g;
      LockAt(t, i);
      assert !InTheWay(t[i], file, path, ex);
    }
  }

  lemma NullHoldsNothing(t: seq<Holder>)
    ensures 0 !in Locks(t) && Locks(t) - {0} == Locks(t)
  {
  }

  lemma NotHolding(t: seq<Holder>, file: nat)
    requires forall k | 0 <= k < |t| :: t[k].file != file
    ensures file !in Locks(t) && Locks(t) - {file} == Locks(t)
  {
  }

  lemma RemoveLock(t: seq<Holder>, i: nat)
    requires OneEach(t) && i < |t| && t[i].file != 0
    ensures OneEach(t[i := EMPTY]) && Locks(t[i := EMPTY]) == Locks(t) - {t[i].file}
    ensures Safe(Locks(t)) ==> Safe(Locks(t[i := EMPTY]))
  {
    var t' := t[i := EMPTY];
    SameLocks(t, t', i, t[i].file);
  }

  /** Tables that differ in one slot record the same locks for everyone else. */
  lemma SameLocks(t: seq<Holder>, t': seq<Holder>, i: nat, file: nat)
    requires OneEach(t) && OneEach(t') && |t| == |t'| && i < |t|
    requires t[i].file == 0 || t[i].file == file
    requires t'[i].file == 0 || t'[i].file == file
    requires forall k | 0 <= k < |t| && k != i :: t'[k] == t[k]
    ensures forall f | f != file ::
              (f in Locks(t) <==> f in Locks(t')) && (f in Locks(t) ==> Locks(t')[f] == Locks(t)[f])
    ensures file in Locks(t') ==> t'[i].file == file || exists k :: 0 <= k < |t| && k != i && t[k].file == file
  {
    forall f | f != file
      ensures (f in Locks(t) <==> f in Locks(t')) && (f in Locks(t) ==> Locks(t')[f] == Locks(t)[f])
    {
      if f in Locks(t) {
        var k :| 0 <= k < |t| && t[k].file == f;
        LockAt(t, k);
        LockAt(t', k);
      }
      if f in Locks(t') {
        var k :| 0 <= k < |t'| && t'[k].file == f;
        LockAt(t, k);
      }
    }
  }

  lemma AllTaken(t: seq<Holder>, file: nat)
    requires OneEach(t) && |t| == SLOTS
    requires forall k | 0 <= k < |t| :: t[k].file != 0 && t[k].file != file
    ensures Full(Locks(t), file)
  {
    CountHolders(t, |t|);
    assert t[..|t|] == t;
    assert Locks(t).Keys == Holders(t);
  }

  /** A table has no more locks than slots. */
  lemma {:induction false} AtMostSlots(t: seq<Holder>)
    ensures |Holders(t)| <= |t|
  {
    if t != [] {
      var a := t[..|t| - 1];
      AtMostSlots(a);
      forall f | f in Holders(t) ensures f in Holders(a) + {t[|t| - 1].file} {
        var i :| 0 <= i < |t| && t[i].file != 0 && t[i].file == f;
        if i < |a| { assert a[i].file == f; }
      }
      var both := Holders(a) + {t[|t| - 1].file};
      assert Holders(t) <= both;
      assert both == Holders(t) + (both - Holders(t));
    }
  }

  lemma LocksFit(t: seq<Holder>)
    ensures |Locks(t)| <= |t|
  {
    AtMostSlots(t);
    assert Locks(t).Keys == Holders(t);
    assert |Locks(t)| == |Locks(t).Keys|;
  }

  /** So if one more fitted in, there was room. */
  lemma HadRoom(t: seq<Holder>, t': seq<Holder>, file: nat, l: Lock)
    requires |t'| == SLOTS && Locks(t') == Locks(t)[file := l]
    ensures !Full(Locks(t), file)
  {
    AtMostSlots(t');
    assert Locks(t').Keys == Holders(t') == Locks(t).Keys + {file};
    assert |Locks(t)| == |Locks(t).Keys|;
  }

  lemma {:induction false} CountHolders(t: seq<Holder>, n: nat)
    requires OneEach(t) && n <= |t| && forall k | 0 <= k < |t| :: t[k].file != 0
    ensures |Holders(t[..n])| == n
  {
    hide Holders;
    if n > 0 {
      CountHolders(t, n - 1);
      HoldersGrow(t, n - 1);
    } else {
      NoHolders(t);
    }
  }

  lemma NoHolders(t: seq<Holder>)
    ensures Holders(t[..0]) == {}
  {
  }

  lemma HoldersGrow(t: seq<Holder>, n: nat)
    requires OneEach(t) && n < |t| && t[n].file != 0
    ensures Holders(t[..n + 1]) == Holders(t[..n]) + {t[n].file} && t[n].file !in Holders(t[..n])
  {
    var a, b := t[..n], t[..n + 1];
    forall f ensures f in Holders(b) <==> f in Holders(a) || f == t[n].file {
      if f in Holders(b) {
        var i :| 0 <= i < |b| && b[i].file != 0 && b[i].file == f;
        if i < n { assert a[i].file == f; }
      }
      if f in Holders(a) {
        var i :| 0 <= i < |a| && a[i].file != 0 && a[i].file == f;
        assert b[i].file == f;
      }
      assert b[n].file == t[n].file;
    }
  }

  /** Granting a lock that nobody blocks. `t1` is the table with a slot for
      `file`, which may be new. */
  lemma PutLock(t: seq<Holder>, t1: seq<Holder>, i: nat, file: nat, path: Path, ex: bool)
    requires OneEach(t) && |t| == |t1| && i < |t| && file != 0
    requires t1[i].file == file && t1[i].path == path
    requires t1 == t || (t[i].file == 0 && (forall k | 0 <= k < |t| :: t[k].file != file) && t1 == t[i := t1[i]])
    requires Safe(Locks(t)) && !Blocked(Locks(t), file, path, ex)
    ensures var t' := t1[i := t1[i].(exclusive := ex)];
            OneEach(t') && Locks(t') == Locks(t)[file := Lock(path, ex)] && Safe(Locks(t'))
  {
    hide Locks;
    var t' := t1[i := t1[i].(exclusive := ex)];
    SameLocks(t, t', i, file);
    LockAt(t', i);
    assert Locks(t') == Locks(t)[file := Lock(path, ex)];
    SafePut(Locks(t), file, path, ex);
  }

  lemma SafePut(locks: map<nat, Lock>, file: nat, path: Path, ex: bool)
    requires Safe(locks) && !Blocked(locks, file, path, ex)
    ensures Safe(locks[file := Lock(path, ex)])
  {
  }
}

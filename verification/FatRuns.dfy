/** Whole runs of FAT16 operations by name. */
module FatRuns {
  import opened Bytes
  import opened Outcomes
  import opened FatNames
  import D = FatDirs
  import opened FatTree
  import FatChain
  import V = FatVolume
  import opened FatTidy
  import opened FatFs

  datatype Op =
    | CreateOp(dir: nat, name: Text)
    | MkdirOp(dir: nat, name: Text)
    | ReadOp(dir: nat, name: Text, count: nat, off: int)
    | WriteOp(dir: nat, name: Text, buf: seq<Byte>, off: int)
    | TruncateOp(dir: nat, name: Text, len: nat)
    | UnlinkOp(dir: nat, name: Text)
    | RmdirOp(dir: nat, name: Text)
    | LinkOp(dir: nat, name: Text, newDir: nat, newName: Text)
    | RenameOp(dir: nat, name: Text, newDir: nat, newName: Text)

  function NameOf(op: Op): NKey {
    NKey(op.dir, Key(op.name))
  }

  predicate HasNewName(op: Op) {
    op.LinkOp? || op.RenameOp?
  }

  function NewNameOf(op: Op): NKey {
    if HasNewName(op) then NKey(op.newDir, Key(op.newName)) else NameOf(op)
  }

  // ----- the reference: a tree of names and files -------------------------------------------

  /** What a step chose: the identity of a new directory, and whether a copy that failed
      left an empty file under its new name. */
  datatype Note = Note(made: nat, left: bool)

  /** What an operation with this answer does to the tree, on clusters of `cb` bytes. */
  ghost function After(t: Tree, op: Op, err: Errno, note: Note, cb: nat): Tree
    requires cb > 0
  {
    var k, k' := NameOf(op), NewNameOf(op);
    match op
    case CreateOp(_, _) => if err == OK then t[k := File(EMPTY)] else t
    case MkdirOp(_, _) => if err == OK then t[k := Dir(note.made)] else t
    case ReadOp(_, _, _, _) => t
    case WriteOp(_, _, buf, off) =>
      if err == OK && off >= 0 then t[k := File(WrittenTo(ContentIn(t, k), off, buf, cb))] else t
    case TruncateOp(_, _, len) => if err == OK then t[k := File(ResizedTo(ContentIn(t, k), len, cb))] else t
    case UnlinkOp(_, _) => if err == OK then t - {k} else t
    case RmdirOp(_, _) => if err == OK then t - {k} else t
    case LinkOp(_, _, _, _) =>
      if err == OK then t[k' := File(Copied(ContentIn(t, k)))]
      else if note.left then t[k' := File(EMPTY)] else t
    case RenameOp(_, _, _, _) =>
      if err == OK then t[k' := File(Copied(ContentIn(t, k)))] - {k}
      else if !IsFile(t, k) then t
      else if note.left then t[k' := File(EMPTY)]
      else t - {k'}
  }

  /** What a successful read must return. */
  ghost function Expected(t: Tree, op: Op): seq<Byte> {
    if op.ReadOp? && op.off >= 0 then Slice(BytesAt(t, NameOf(op)), op.off, op.count) else []
  }

  // ----- one step -----------------------------------------------------------------------------

  /** The operations this model speaks of: the directories exist, a new name can be found
      again, a directory is not removed by its dots, and a rename does not
      replace a directory. */
  ghost predicate Admissible(s: State, op: Op) {
    && op.dir in s.dirs
    && (op.CreateOp? || op.MkdirOp? ==> Findable(op.name))
    && (op.RmdirOp? ==> !DotKey(Key(op.name)))
    && (HasNewName(op) ==> op.newDir in s.dirs && Findable(op.newName))
    && (op.RenameOp? && op.newDir in s.at && Key(op.newName) in s.at[op.newDir] ==> IsFile(TreeOf(s), NewNameOf(op)))
  }

  method CheckOp(fs: Fs, op: Op, junk: seq<Byte>) returns (ok: bool)
    requires fs.Valid()
    ensures ok <==> Admissible(fs.St(), op)
  {
    hide ContentsOf, V.Volume.Valid, Good, TreeOf, Findable, DotKey, Key;
    if op.dir !in fs.dirs { return false; }
    if (op.CreateOp? || op.MkdirOp?) && !Findable(op.name) { return false; }
    if op.RmdirOp? && DotKey(Key(op.name)) { return false; }
    if HasNewName(op) {
      if op.newDir !in fs.dirs || !Findable(op.newName) { return false; }
      var e, i := fs.Locate(op.newDir, op.newName, junk);
      if op.RenameOp? && e == EISDIR { return false; }
    }
    return true;
  }

  /** A moment of a run: directories, entries and files, the clusters each entry has, and
      how many nobody has. */
  datatype Snap = Snap(st: State, chains: map<V.Ref, seq<FatChain.U16>>, free: nat)

  ghost function SnapOf(fs: Fs): Snap
    reads fs, fs.vol
  {
    Snap(fs.St(), fs.vol.chains, fs.vol.Free())
  }

  ghost function SlotsIn(s: Snap, d: nat): seq<D.DirSlot> {
    if d in s.st.dirs then s.st.dirs[d] else []
  }

  ghost function IndexIn(s: Snap, d: nat): D.Index {
    if d in s.st.at then s.st.at[d] else map[]
  }

  ghost function LenIn(s: Snap, k: NKey): nat {
    var r := RefAt(s.st.at, k);
    if r in s.chains then |s.chains[r]| else 0
  }

  /** Whether a new name finds a place. */
  ghost function RoomIn(s: Snap, d: nat, name: Text): Errno {
    D.RoomAnswer(SlotsIn(s, d), IndexIn(s, d), name)
  }

  /** What an operation answers in state `s`. */
  ghost function Answer(s: Snap, op: Op, cb: nat): Errno {
    var t, k, at := TreeOf(s.st), NameOf(op), IndexIn(s, op.dir);
    match op
    case CreateOp(dir, name) => RoomIn(s, dir, name)
    case MkdirOp(dir, name) => MkdirAnswer(RoomIn(s, dir, name), s.free)
    case ReadOp(_, _, _, off) => if !IsFile(t, k) then FileAnswer(at, t, k) else if off < 0 then EINVAL else OK
    case WriteOp(_, _, buf, off) =>
      if !IsFile(t, k) then FileAnswer(at, t, k)
      else WriteAnswer(|BytesAt(t, k)|, off, |buf|, cb, LenIn(s, k) + s.free)
    case TruncateOp(_, _, len) =>
      if !IsFile(t, k) then FileAnswer(at, t, k) else ClustersAnswer(len, cb, LenIn(s, k) + s.free)
    case UnlinkOp(_, _) => FileAnswer(at, t, k)
    case RmdirOp(_, _) => RmdirAnswer(at, t, k)
    case LinkOp(_, _, newDir, newName) =>
      if !IsFile(t, k) then if k.key in at then EPERM else ENOENT
      else if RoomIn(s, newDir, newName) != OK then RoomIn(s, newDir, newName)
      else ClustersAnswer(|BytesAt(t, k)|, cb, s.free)
    case RenameOp(_, _, newDir, newName) =>
      var k' := NewNameOf(op);
      if !IsFile(t, k) then FileAnswer(at, t, k)
      else RenameAnswer(k, k', RenameRoom(SlotsIn(s, newDir), IndexIn(s, newDir), newName), |BytesAt(t, k)|, cb,
                        s.free + if k' in t then LenIn(s, k') else 0)
  }

  /** A copy that found a place for its name and failed leaves an empty file there. */
  ghost predicate Leaves(s: Snap, op: Op, err: Errno) {
    && err != OK && IsFile(TreeOf(s.st), NameOf(op))
    && match op
       case LinkOp(_, _, newDir, newName) => RoomIn(s, newDir, newName) == OK
       case RenameOp(_, _, newDir, newName) =>
         NameOf(op) != NewNameOf(op) && RenameRoom(SlotsIn(s, newDir), IndexIn(s, newDir), newName) == OK
       case _ => false
  }

  /** What is true of each operation that is carried out, on any volume. */
  ghost predicate IsStep(s: Snap, s': Snap, op: Op, err: Errno, note: Note, data: seq<Byte>, cb: nat)
    requires cb > 0
  {
    && err == Answer(s, op, cb)
    && TreeOf(s'.st) == After(TreeOf(s.st), op, err, note, cb)
    && (op.ReadOp? && err == OK ==> data == Expected(TreeOf(s.st), op))
    && (op.MkdirOp? && err == OK ==> note.made !in s.st.dirs)
    && (note.left <==> Leaves(s, op, err))
  }

  /** Creating and reading. */
  method StepRead(fs: Fs, op: Op, junk: seq<Byte>) returns (err: Errno, data: seq<Byte>)
    requires fs.Valid() && Admissible(fs.St(), op) && (op.CreateOp? || op.ReadOp?)
    modifies fs, fs.vol
    ensures fs.Valid() && fs.vol.cb > 0 && IsStep(old(SnapOf(fs)), SnapOf(fs), op, err, Note(0, false), data, fs.vol.cb)
  {
    hide ContentsOf, V.Volume.Valid, Good, TreeOf, Findable, DotKey, Key, D.RoomAnswer, FileAnswer, Slice;
    ghost var a, t, k := fs.at, fs.Tree(), NameOf(op);
    data := [];
    match op
    case CreateOp(dir, name) => err := fs.Create(dir, name, junk);
    case ReadOp(dir, name, count, off) =>
      err, data := fs.Read(dir, name, count, off, junk);
      AnswerIs(a[op.dir], t, k);
  }

  /** Writing and cutting. */
  method StepWrite(fs: Fs, op: Op, junk: seq<Byte>) returns (err: Errno)
    requires fs.Valid() && Admissible(fs.St(), op) && (op.WriteOp? || op.TruncateOp?)
    modifies fs, fs.vol
    ensures fs.Valid() && fs.vol.cb > 0 && IsStep(old(SnapOf(fs)), SnapOf(fs), op, err, Note(0, false), [], fs.vol.cb)
  {
    hide ContentsOf, V.Volume.Valid, Good, TreeOf, Findable, DotKey, Key, FileAnswer, WrittenTo, ResizedTo,
         ClustersAnswer, V.FreeSet;
    ghost var a, t, k := fs.at, fs.Tree(), NameOf(op);
    match op
    case WriteOp(dir, name, buf, off) =>
      err := fs.Write(dir, name, buf, off, junk);
      AnswerIs(a[op.dir], t, k);
    case TruncateOp(dir, name, len) =>
      err := fs.Truncate(dir, name, len, junk);
      AnswerIs(a[op.dir], t, k);
  }

  /** Removing names, and making directories. */
  method StepName(fs: Fs, op: Op, junk: seq<Byte>) returns (err: Errno, ghost note: Note)
    requires fs.Valid() && Admissible(fs.St(), op) && (op.MkdirOp? || op.UnlinkOp? || op.RmdirOp?)
    modifies fs, fs.vol
    ensures fs.Valid() && fs.vol.cb > 0 && IsStep(old(SnapOf(fs)), SnapOf(fs), op, err, note, [], fs.vol.cb)
  {
    hide ContentsOf, V.Volume.Valid, Good, TreeOf, Findable, DotKey, Key, D.RoomAnswer, FileAnswer, RmdirAnswer;
    note := Note(0, false);
    match op
    case MkdirOp(dir, name) =>
      ghost var made;
      err, made := fs.Mkdir(dir, name, junk);
      note := Note(made, false);
    case UnlinkOp(dir, name) => err := fs.Unlink(dir, name, junk);
    case RmdirOp(dir, name) => err := fs.Rmdir(dir, name, junk);
  }

  /** Copying and moving. */
  method StepCopy(fs: Fs, op: Op, junk: seq<Byte>) returns (err: Errno, ghost note: Note)
    requires fs.Valid() && Admissible(fs.St(), op) && HasNewName(op)
    modifies fs, fs.vol
    ensures fs.Valid() && fs.vol.cb > 0 && IsStep(old(SnapOf(fs)), SnapOf(fs), op, err, note, [], fs.vol.cb)
  {
    hide ContentsOf, V.Volume.Valid, Good, TreeOf, Findable, DotKey, Key, D.RoomAnswer, FileAnswer, ClustersAnswer,
         V.FreeSet, Encode, D.CutText;
    ghost var a, t, k, k', s := fs.at, fs.Tree(), NameOf(op), NewNameOf(op), SnapOf(fs);
    GoodAt(fs.St(), op.dir);
    GoodAt(fs.St(), op.newDir);
    match op {
      case LinkOp(dir, name, newDir, newName) =>
        err := fs.Link(dir, name, newDir, newName, junk);
      case RenameOp(dir, name, newDir, newName) =>
        err := fs.Rename(dir, name, newDir, newName, junk);
        AnswerIs(a[op.dir], t, k);
        RenamedTree(t, k, k');
    }
    note := Note(0, Leaves(s, op, err));
  }

  lemma RenamedTree(t: Tree, k: NKey, k': NKey)
    ensures IsFile(t, k) && k != k' ==>
              (t - {k'})[k' := File(Copied(t[k].content))] - {k} == t[k' := File(Copied(ContentIn(t, k)))] - {k}
    ensures (t - {k'})[k' := File(EMPTY)] == t[k' := File(EMPTY)]
    ensures (t - {k})[k := File(EMPTY)] != t - {k}
  {
    assert k in (t - {k})[k := File(EMPTY)] && k !in t - {k};
  }

  /** Every operation, on every volume, failing ones included, answers and acts as the
      tree of names and files says. */
  method Step(fs: Fs, op: Op, junk: seq<Byte>) returns (err: Errno, data: seq<Byte>, ghost note: Note)
    requires fs.Valid() && Admissible(fs.St(), op)
    modifies fs, fs.vol
    ensures fs.Valid() && fs.vol.cb > 0 && IsStep(old(SnapOf(fs)), SnapOf(fs), op, err, note, data, fs.vol.cb)
  {
    hide Fs.Valid, Admissible, IsStep;
    data, note := [], Note(0, false);
    if HasNewName(op) {
      err, note := StepCopy(fs, op, junk);
    } else if op.MkdirOp? || op.UnlinkOp? || op.RmdirOp? {
      err, note := StepName(fs, op, junk);
    } else if op.WriteOp? || op.TruncateOp? {
      err := StepWrite(fs, op, junk);
    } else {
      err, data := StepRead(fs, op, junk);
    }
  }

  // ----- whole runs --------------------------------------------------------------------------

  /** A run: the operations, which of them were carried out, with their answers, and
      the states before and after each. */
  datatype Trace = Trace(states: seq<Snap>, ops: seq<Op>, ran: seq<bool>, errs: seq<Errno>, notes: seq<Note>,
                         bytes: seq<seq<Byte>>)

  /** An operation is carried out exactly if it is admissible; one that is not is left
      out. */
  ghost predicate TraceStep(s: Snap, s': Snap, op: Op, ran: bool, err: Errno, note: Note, data: seq<Byte>, cb: nat)
    requires cb > 0
  {
    && (ran <==> Admissible(s.st, op))
    && if ran then IsStep(s, s', op, err, note, data, cb) else s' == s
  }

  ghost predicate IsTrace(r: Trace, cb: nat)
    requires cb > 0
  {
    && |r.ops| == |r.ran| == |r.errs| == |r.notes| == |r.bytes| && |r.states| == |r.ops| + 1
    && forall i | 0 <= i < |r.ops| ::
      TraceStep(r.states[i], r.states[i + 1], r.ops[i], r.ran[i], r.errs[i], r.notes[i], r.bytes[i], cb)
  }

  /** The tree after the first `n` operations. */
  ghost function AfterAll(r: Trace, t: Tree, n: nat, cb: nat): Tree
    requires n <= |r.ops| == |r.ran| == |r.errs| == |r.notes| && cb > 0
  {
    if n == 0 then t
    else
      var u := AfterAll(r, t, n - 1, cb);
      if r.ran[n - 1] then After(u, r.ops[n - 1], r.errs[n - 1], r.notes[n - 1], cb) else u
  }

  /** Every run, on every volume, failures and cuts of every kind included: names,
      directories and bytes are those of the reference at every moment, and every
      read returns the reference's bytes. */
  lemma {:induction false} RunRefines(r: Trace, cb: nat, n: nat)
    requires cb > 0 && IsTrace(r, cb) && n <= |r.ops|
    ensures TreeOf(r.states[n].st) == AfterAll(r, TreeOf(r.states[0].st), n, cb)
    ensures forall i | 0 <= i < n && r.ran[i] && r.ops[i].ReadOp? && r.errs[i] == OK ::
              r.bytes[i] == Expected(AfterAll(r, TreeOf(r.states[0].st), i, cb), r.ops[i])
  {
    hide After, Answer, Admissible, TreeOf, Expected, NameOf, Leaves;
    if n > 0 {
      RunRefines(r, cb, n - 1);
      assert TraceStep(r.states[n - 1], r.states[n], r.ops[n - 1], r.ran[n - 1], r.errs[n - 1], r.notes[n - 1],
             r.bytes[n - 1], cb);
    }
  }

  predicate Touches(op: Op, k: NKey) {
    !op.ReadOp? && (k == NameOf(op) || k == NewNameOf(op))
  }

  /** `k` names the same in both trees, or nothing in either. */
  ghost predicate SameAt(t: Tree, t': Tree, k: NKey) {
    (k in t' <==> k in t) && (k in t ==> t'[k] == t[k])
  }

  lemma AfterElsewhere(t: Tree, op: Op, err: Errno, note: Note, cb: nat, k: NKey)
    requires cb > 0 && !Touches(op, k)
    ensures SameAt(t, After(t, op, err, note, cb), k)
  {
    hide Key, WrittenTo, ResizedTo, ContentIn, Copied, IsFile;
  }

  /** A name that no operation of a run touches names the same file, byte for byte, after
      any run. */
  lemma {:induction false} UntouchedKept(r: Trace, cb: nat, n: nat, k: NKey)
    requires cb > 0 && IsTrace(r, cb) && n <= |r.ops|
    requires forall i | 0 <= i < n && r.ran[i] :: !Touches(r.ops[i], k)
    ensures SameAt(TreeOf(r.states[0].st), TreeOf(r.states[n].st), k)
  {
    hide After, Answer, Admissible, TreeOf, Expected, NameOf, Leaves, Touches;
    if n > 0 {
      UntouchedKept(r, cb, n - 1, k);
      assert TraceStep(r.states[n - 1], r.states[n], r.ops[n - 1], r.ran[n - 1], r.errs[n - 1], r.notes[n - 1],
             r.bytes[n - 1], cb);
      if r.ran[n - 1] { AfterElsewhere(TreeOf(r.states[n - 1].st), r.ops[n - 1], r.errs[n - 1], r.notes[n - 1], cb,
           k); }
    }
  }

  lemma TraceMore(r: Trace, s: Snap, op: Op, ran: bool, err: Errno, note: Note, data: seq<Byte>, cb: nat)
    requires cb > 0 && IsTrace(r, cb) && TraceStep(r.states[|r.ops|], s, op, ran, err, note, data, cb)
    ensures IsTrace(Trace(r.states + [s], r.ops + [op], r.ran + [ran], r.errs + [err], r.notes + [note],
              r.bytes + [data]), cb)
  {
    hide TraceStep;
    var r', n := Trace(r.states + [s], r.ops + [op], r.ran + [ran], r.errs + [err], r.notes + [note],
        r.bytes + [data]), |r.ops|;
    forall i | 0 <= i <= n
      ensures TraceStep(r'.states[i], r'.states[i + 1], r'.ops[i], r'.ran[i], r'.errs[i], r'.notes[i], r'.bytes[i], cb)
    {
      if i < n {
        assert TraceStep(r.states[i], r.states[i + 1], r.ops[i], r.ran[i], r.errs[i], r.notes[i], r.bytes[i], cb);
      }
    }
  }

  lemma NoSteps(s: Snap, cb: nat)
    requires cb > 0
    ensures IsTrace(Trace([s], [], [], [], [], []), cb)
  {
  }

  lemma TraceSizes(r: Trace, cb: nat)
    requires cb > 0 && IsTrace(r, cb)
    ensures |r.ops| == |r.ran| == |r.errs| == |r.notes| == |r.bytes| && |r.states| == |r.ops| + 1
  {
  }

  lemma ClusterSize(fs: Fs)
    requires fs.Valid()
    ensures fs.vol.cb > 0
  {
  }

  /** Any run of admissible operations, failures included, on any volume, ends in the tree
      the reference gives; each operation answers as the tree and the slots before
      it say; and names that are not touched stay as they are. */
  method Run(fs: Fs, ops: seq<Op>, junk: seq<Byte>) returns (ran: seq<bool>, errs: seq<Errno>, bytes: seq<seq<Byte>>,
             ghost r: Trace)
    requires fs.Valid()
    modifies fs, fs.vol
    ensures fs.Valid() && fs.vol.cb > 0 && IsTrace(r, fs.vol.cb)
    ensures r.ops == ops && r.ran == ran && r.errs == errs && r.bytes == bytes && r.states[0] == old(SnapOf(fs)) &&
              r.states[|ops|] == SnapOf(fs)
    ensures fs.Tree() == AfterAll(r, old(fs.Tree()), |ops|, fs.vol.cb)
    ensures forall k | forall i | 0 <= i < |ops| && ran[i] ::
              !Touches(ops[i], k) :: SameAt(old(fs.Tree()), fs.Tree(), k)
  {
    hide Fs.Valid, TreeOf, Admissible, IsTrace, IsStep, AfterAll, Touches, SameAt;
    ran, errs, bytes := [], [], [];
    ClusterSize(fs);
    ghost var cb := fs.vol.cb;
    r := Trace([SnapOf(fs)], [], [], [], [], []);
    NoSteps(SnapOf(fs), cb);
    for i := 0 to |ops|
      invariant fs.Valid() && IsTrace(r, cb)
      invariant r.ops == ops[..i] && r.ran == ran && r.errs == errs && r.bytes == bytes && |r.states| == i + 1
      invariant r.states[0] == old(SnapOf(fs)) && r.states[i] == SnapOf(fs)
    {
      var ok := CheckOp(fs, ops[i], junk);
      var err, data := EINVAL, [];
      ghost var note := Note(0, false);
      if ok { err, data, note := Step(fs, ops[i], junk); }
      TraceMore(r, SnapOf(fs), ops[i], ok, err, note, data, cb);
      r := Trace(r.states + [SnapOf(fs)], r.ops + [ops[i]], r.ran + [ok], r.errs + [err], r.notes + [note],
          r.bytes + [data]);
      ran, errs, bytes := ran + [ok], errs + [err], bytes + [data];
    }
    assert ops[..|ops|] == ops;
    TraceSizes(r, cb);
    RunRefines(r, cb, |ops|);
    forall k | forall i | 0 <= i < |ops| && ran[i] :: !Touches(ops[i], k) ensures SameAt(old(fs.Tree()), fs.Tree(), k) {
      UntouchedKept(r, cb, |ops|, k);
    }
  }

  // ----- where growing gives zeros -----------------------------------------------------------

  /** What a user who never looks behind the end of a file expects. */
  datatype Plain = PlainDir(id: nat) | PlainFile(bytes: seq<Byte>)

  ghost function Seen(t: Tree): map<NKey, Plain> {
    map k | k in t :: if t[k].Dir? then PlainDir(t[k].id) else PlainFile(t[k].content.bytes)
  }

  ghost function PlainBytes(p: map<NKey, Plain>, k: NKey): seq<Byte> {
    if k in p && p[k].PlainFile? then p[k].bytes else []
  }

  /** Writes zero-pad and overlay, and cuts keep a prefix. */
  ghost function PlainAfter(p: map<NKey, Plain>, op: Op, err: Errno, note: Note): map<NKey, Plain> {
    var k, k' := NameOf(op), NewNameOf(op);
    match op
    case CreateOp(_, _) => if err == OK then p[k := PlainFile([])] else p
    case MkdirOp(_, _) => if err == OK then p[k := PlainDir(note.made)] else p
    case ReadOp(_, _, _, _) => p
    case WriteOp(_, _, buf, off) => if err == OK && off >= 0 then p[k := PlainFile(Written(PlainBytes(p, k), off,
        buf))] else p
    case TruncateOp(_, _, len) => if err == OK then p[k := PlainFile(Fit(PlainBytes(p, k), len))] else p
    case UnlinkOp(_, _) => if err == OK then p - {k} else p
    case RmdirOp(_, _) => if err == OK then p - {k} else p
    case LinkOp(_, _, _, _) =>
      if err == OK then p[k' := PlainFile(PlainBytes(p, k))] else if note.left then p[k' := PlainFile([])] else p
    case RenameOp(_, _, _, _) =>
      if err == OK then p[k' := PlainFile(PlainBytes(p, k))] - {k}
      else if !(k in p && p[k].PlainFile?) then p
      else if note.left then p[k' := PlainFile([])]
      else p - {k'}
  }

  /** Every file is followed by zeros. */
  ghost predicate TidyTree(t: Tree) {
    forall k | IsFile(t, k) :: t[k].content.slack == []
  }

  /** The one thing that spoils a volume: cutting a file in the middle of a cluster that
      holds more of it than zeros. */
  ghost predicate CleanOp(t: Tree, op: Op, err: Errno, cb: nat)
    requires cb > 0
  {
    op.TruncateOp? && err == OK ==> CleanCut(BytesAt(t, NameOf(op)), op.len, cb)
  }

  lemma SeenPut(t: Tree, k: NKey, c: Content)
    ensures Seen(t[k := File(c)]) == Seen(t)[k := PlainFile(c.bytes)]
    ensures TidyTree(t) ==> (TidyTree(t[k := File(c)]) <==> c.slack == [])
  {
    var t' := t[k := File(c)];
    assert t'[k] == File(c);
    if TidyTree(t) && c.slack == [] {
      forall q | IsFile(t', q) ensures t'[q].content.slack == [] {
        assert q != k ==> IsFile(t, q);
      }
    }
    assert IsFile(t', k);
  }

  lemma SeenDropped(t: Tree, k: NKey)
    ensures Seen(t - {k}) == Seen(t) - {k}
    ensures TidyTree(t) ==> TidyTree(t - {k})
  {
    forall q | IsFile(t - {k}, q) ensures IsFile(t, q) {
    }
  }

  lemma SeenDir(t: Tree, k: NKey, id: nat)
    ensures Seen(t[k := Dir(id)]) == Seen(t)[k := PlainDir(id)]
    ensures TidyTree(t) ==> TidyTree(t[k := Dir(id)])
  {
    var t' := t[k := Dir(id)];
    forall q | IsFile(t', q) ensures IsFile(t, q) && t'[q] == t[q] {
      assert q != k;
    }
  }

  lemma SeenBytes(t: Tree, k: NKey)
    ensures PlainBytes(Seen(t), k) == BytesAt(t, k)
    ensures TidyTree(t) ==> ContentIn(t, k).slack == []
    ensures IsFile(t, k) <==> k in Seen(t) && Seen(t)[k].PlainFile?
  {
  }

  /** From a tree of files followed by zeros an operation is the plain operation, and the
      tree stays such a tree if and only if the operation is clean. */
  lemma TidyStep(t: Tree, op: Op, err: Errno, note: Note, cb: nat)
    requires cb > 0 && TidyTree(t)
    ensures Seen(After(t, op, err, note, cb)) == PlainAfter(Seen(t), op, err, note)
    ensures TidyTree(After(t, op, err, note, cb)) <==> CleanOp(t, op, err, cb)
  {
    hide Seen, TidyTree, Key, ResizedTo, WrittenTo, Written, Fit, CleanCut, BytesAt, ContentIn, PlainBytes;
    var k, k', c := NameOf(op), NewNameOf(op), ContentIn(t, NameOf(op));
    SeenBytes(t, k);
    BytesIn(t, k);
    SeenPut(t, k, EMPTY);
    SeenPut(t, k', EMPTY);
    SeenPut(t, k', Copied(c));
    SeenDropped(t, k);
    SeenDropped(t, k');
    SeenDropped(t[k' := File(Copied(c))], k);
    if op.MkdirOp? { SeenDir(t, k, note.made); }
    if op.WriteOp? && op.off >= 0 {
      WriteTidy(c, op.off, op.buf, cb);
      SeenPut(t, k, WrittenTo(c, op.off, op.buf, cb));
    }
    if op.TruncateOp? {
      ResizeTidy(c, op.len, cb);
      SeenPut(t, k, ResizedTo(c, op.len, cb));
    }
  }

  lemma BytesIn(t: Tree, k: NKey)
    ensures BytesAt(t, k) == ContentIn(t, k).bytes
  {
  }

  ghost function PlainAll(r: Trace, p: map<NKey, Plain>, n: nat): map<NKey, Plain>
    requires n <= |r.ops| == |r.ran| == |r.errs| == |r.notes|
  {
    if n == 0 then p
    else
      var q := PlainAll(r, p, n - 1);
      if r.ran[n - 1] then PlainAfter(q, r.ops[n - 1], r.errs[n - 1], r.notes[n - 1]) else q
  }

  /** So a run whose cuts are all clean, on a volume whose files are followed by zeros, is a
      run on plain byte sequences, in which files grow by zeros. */
  lemma {:induction false} TidyRun(r: Trace, cb: nat, n: nat)
    requires cb > 0 && IsTrace(r, cb) && n <= |r.ops| && TidyTree(TreeOf(r.states[0].st))
    requires forall i | 0 <= i < n && r.ran[i] :: CleanOp(TreeOf(r.states[i].st), r.ops[i], r.errs[i], cb)
    ensures TidyTree(TreeOf(r.states[n].st))
    ensures Seen(TreeOf(r.states[n].st)) == PlainAll(r, Seen(TreeOf(r.states[0].st)), n)
  {
    hide After, PlainAfter, Answer, Admissible, TreeOf, Expected, NameOf, Leaves, Seen, TidyTree, CleanOp;
    if n > 0 {
      TidyRun(r, cb, n - 1);
      assert TraceStep(r.states[n - 1], r.states[n], r.ops[n - 1], r.ran[n - 1], r.errs[n - 1], r.notes[n - 1],
             r.bytes[n - 1], cb);
      if r.ran[n - 1] { TidyStep(TreeOf(r.states[n - 1].st), r.ops[n - 1], r.errs[n - 1], r.notes[n - 1], cb); }
    }
  }
}

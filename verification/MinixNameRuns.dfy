/** Whole runs of name and file operations on a mounted MINIX volume. */
module MinixNameRuns {
  import opened Bytes
  import opened Outcomes
  import opened MinixTree
  import opened MinixVolume
  import opened MinixDirs
  import opened MinixLinks
  import R = MinixRuns

  datatype NameOp =
    | Create(dir: nat, nm: Name)
    | Hardlink(dir: nat, nm: Name, newDir: nat, newNm: Name)
    | Remove(dir: nat, nm: Name)
    | Move(dir: nat, nm: Name, newDir: nat, newNm: Name)
    | Pwrite(ino: nat, off: int, buf: seq<Byte>, addr: nat)
    | Trunc(ino: nat, len: nat)

  predicate CNames(op: NameOp) {
    match op
    case Create(_, nm) => CString(nm)
    case Hardlink(_, _, _, newNm) => CString(newNm)
    case Move(_, nm, _, newNm) => CString(newNm) && nm != []
    case _ => true
  }

  // ----- the reference: names and files ----------------------------------------------------

  /** Names map to inode numbers, and inode numbers to bytes. There are no link
      counts here: a file lives as long as some name names it. */
  datatype Fs = Fs(names: map<Key, nat>, files: map<nat, seq<Byte>>)

  ghost function FsOf(v: Volume): Fs
    reads v
  {
    Fs(NamesOf(v.disk, v.inodes), v.Files())
  }

  ghost function Unlinked(s: Fs, k: Key): Fs {
    Fs(s.names - {k}, Without(s.names, s.files, k))
  }

  /** What an operation does, with its answer and the inode a new file gets. */
  ghost function After(s: Fs, op: NameOp, err: Errno, made: nat, maxSize: nat): Fs {
    match op
    case Create(dir, nm) =>
      if err != OK || Key(dir, nm) in s.names then s
      else Fs(s.names[Key(dir, nm) := made], s.files[made := []])
    case Hardlink(dir, nm, newDir, newNm) =>
      if err == OK && Key(dir, nm) in s.names then
           s.(names := s.names[Key(newDir, newNm) := s.names[Key(dir, nm)]]) else s
    case Remove(dir, nm) => if err == OK then Unlinked(s, Key(dir, nm)) else s
    case Move(dir, nm, newDir, newNm) =>
      if err == OK && Key(dir, nm) in s.names then
        Fs(s.names[Key(newDir, newNm) := s.names[Key(dir, nm)]] - {Key(dir, nm)}, Without(s.names, s.files, Key(newDir,
            newNm)))
      else if Key(dir, nm) !in s.names || err == EACCES || err == EISDIR then s
      else Unlinked(s, Key(newDir, newNm))
    case _ => s.(files := R.After(s.files, BytesOp(op), err, maxSize))
  }

  /** The operation on bytes that an operation on a named file is. */
  function BytesOp(op: NameOp): R.FileOp {
    match op
    case Pwrite(ino, off, buf, addr) => R.Pwrite(ino, off, buf, addr)
    case Trunc(ino, len) => R.Trunc(ino, len)
    case _ => R.Pread(0, 0, 0)
  }

  predicate OnBytes(op: NameOp) {
    op.Pwrite? || op.Trunc?
  }

  // ----- which operations the counts have room for ---------------------------------------

  /** There is room in the count for one more link. */
  ghost predicate LinkRoom(d: Disk, t: Table, dir: nat, nm: Name) {
    forall g | NamedBy(d, t, dir, nm, g) && g in t :: t[g].nlinks < 255
  }

  ghost predicate NotADirectory(d: Disk, t: Table, dir: nat, nm: Name) {
    forall g | NamedBy(d, t, dir, nm, g) && g in t :: !t[g].isDir
  }

  ghost predicate Admissible(d: Disk, t: Table, op: NameOp) {
    match op
    case Hardlink(dir, nm, _, _) => LinkRoom(d, t, dir, nm)
    case Move(dir, nm, newDir, newNm) => LinkRoom(d, t, dir, nm) && NotADirectory(d, t, newDir, newNm)
    case _ => true
  }

  /** A change of one regular file's bytes is nobody's name. */
  lemma BytesKeepLinks(d: Disk, o: Owners, t: Table, d': Disk, o': Owners, t': Table, f: nat)
    requires KeepsOthers(d, o, d', o', f) && AllOk(d, o, t) && LinksOk(d, t)
    requires t' == t || (f in t && f in t' && t' == t[f := t'[f]] && !t[f].isDir && !t'[f].isDir &&
              t'[f].nlinks == t[f].nlinks)
    requires f in t && t[f].isDir ==> d' == d
    ensures LinksOk(d', t')
  {
    hide KeepsOthers, AllOk, LinksOk, EntryAt;
    if f in t && t[f].isDir {
      assert d' == d && t' == t;
    } else {
      assert t' - {f} == t - {f};
      FileStepKeepsEntries(d, o, t, d', o', t', f);
      LinksKept(d, t, d', t');
    }
  }

  lemma BytesKeepNames(d: Disk, o: Owners, t: Table, d': Disk, o': Owners, t': Table, f: nat)
    requires KeepsOthers(d, o, d', o', f) && AllOk(d, o, t) && LinksOk(d, t) && LinksOk(d', t')
    requires t' == t || (f in t && f in t' && t' == t[f := t'[f]] && !t[f].isDir && !t'[f].isDir)
    requires f in t && t[f].isDir ==> d' == d
    ensures NamesOf(d', t') == NamesOf(d, t)
  {
    hide KeepsOthers, AllOk, LinksOk, EntryAt, NamesOf;
    if !(f in t && t[f].isDir) {
      LinksParts(d, t);
      LinksParts(d', t');
      assert t' - {f} == t - {f};
      FileStepKeepsEntries(d, o, t, d', o', t', f);
      NamesSame(d, t, d', t');
    }
  }

  // ----- one step -----------------------------------------------------------------------------

  /** What the volume is made for. */
  datatype Geometry = Geometry(first: nat, limit: nat, maxSize: nat, ninodes: nat)

  ghost function GeometryOf(v: Volume): Geometry {
    Geometry(v.first, v.Limit(), v.maxSize, v.ninodes)
  }

  ghost function FsAt(s: R.Snap): Fs {
    Fs(NamesOf(s.d, s.t), FilesOf(s.d, s.t))
  }

  /** A directory that can take no further entry. */
  ghost predicate Crowded(s: R.Snap, g: Geometry, dir: nat) {
    DirFull(s.d, s.t, dir) && (FirstGap(s.t[dir].zones,
        0) == DIRECT || forall y | g.first <= y < g.limit :: y !in s.free)
  }

  /** The inode a name names; 0 for a name that names none. */
  ghost function InodeOf(s: R.Snap, k: Key): nat {
    var names := NamesOf(s.d, s.t);
    if k in names then names[k] else 0
  }

  ghost predicate IsDirectory(s: R.Snap, k: Key) {
    InodeOf(s, k) in s.t && s.t[InodeOf(s, k)].isDir
  }

  /** The same once a name has gone from it. */
  ghost predicate StillCrowded(s: R.Snap, g: Geometry, dir: nat, nm: Name) {
    && BehindGap(s.d, s.t, dir, nm) && DirFull(s.d, s.t, dir) && (forall y | g.first <= y < g.limit :: y !in s.free)
    && forall f | NamedBy(s.d, s.t, dir, nm, f) :: !GivesZones(s.d, s.t, f)
  }

  /** What an operation answers in state `s`. */
  ghost function Answer(s: R.Snap, g: Geometry, op: NameOp): Errno {
    match op
    case Create(dir, nm) =>
      if Key(dir, nm) !in FsAt(s).names then TouchAnswer(s.t, g.ninodes, dir, nm, Crowded(s, g, dir))
      else if IsDirectory(s, Key(dir, nm)) then EISDIR else OK
    case Hardlink(dir, nm, newDir, newNm) =>
      LinkAnswer(s.d, s.t, dir, nm, newDir, newNm, InodeOf(s, Key(dir, nm)), Crowded(s, g, newDir))
    case Remove(dir, nm) =>
      if Key(dir, nm) !in FsAt(s).names then ENOENT
      else if IsDirectory(s, Key(dir, nm)) then EISDIR else if nm == [] then EIO else OK
    case Move(dir, nm, newDir, newNm) =>
      RenameAnswer(s.d, s.t, dir, nm, newDir, newNm, InodeOf(s, Key(dir, nm)), Crowded(s, g, newDir),
                   StillCrowded(s, g, newDir, newNm))
    case _ => R.Answer(s, BytesOp(op), g.limit, g.maxSize)
  }

  /** The step will bring up no stale byte. Operations on names never do. */
  ghost predicate Clean(s: R.Snap, g: Geometry, op: NameOp) {
    OnBytes(op) ==> R.CleanStep(s, BytesOp(op), g.limit, g.maxSize)
  }

  /** What is true of each step of each run. */
  ghost predicate IsStep(s: R.Snap, s': R.Snap, g: Geometry, op: NameOp, err: Errno, made: nat) {
    && err == Answer(s, g, op)
    && (Clean(s, g, op) ==> FsAt(s') == After(FsAt(s), op, err, made, g.maxSize))
    && (op.Create? && err == OK && Key(op.dir, op.nm) !in FsAt(s).names ==> LowestUnused(s.t, made))
    && (AllSolid(s.d, s.t) ==> AllSolid(s'.d, s'.t) && Clean(s, g, op))
    && (err == OK || !OnBytes(op) ==> AllExact(s.d, s.t) ==> R.Conserves(s, s'))
  }

  method StepBytes(v: Volume, op: NameOp) returns (err: Errno, ghost made: nat)
    requires v.Valid() && LinksOk(v.disk, v.inodes) && OnBytes(op)
    modifies v
    ensures v.Valid() && LinksOk(v.disk, v.inodes)
    ensures IsStep(old(R.SnapOf(v)), R.SnapOf(v), GeometryOf(v), op, err, made)
  {
    hide Volume.Core, AllOk, AllExact, AllSolid, UsedZones, FilesOf, LinksOk, KeepsOthers, NamesOf, R.After,
         R.CleanStep, R.Answer;
    ghost var d0, o0, t0 := v.disk, v.owner, v.inodes;
    var data;
    err, data := R.Step(v, BytesOp(op));
    made := 0;
    BytesKeepLinks(d0, o0, t0, v.disk, v.owner, v.inodes, op.ino);
    BytesKeepNames(d0, o0, t0, v.disk, v.owner, v.inodes, op.ino);
  }

  /** Creating and linking a name. */
  method StepAdd(v: Volume, op: NameOp) returns (err: Errno, ghost made: nat)
    requires v.Valid() && LinksOk(v.disk, v.inodes) && (op.Create? || op.Hardlink?) && CNames(op) &&
              Admissible(v.disk, v.inodes, op)
    modifies v
    ensures v.Valid() && LinksOk(v.disk, v.inodes)
    ensures IsStep(old(R.SnapOf(v)), R.SnapOf(v), GeometryOf(v), op, err, made)
  {
    hide Volume.Core, AllOk, AllExact, AllSolid, UsedZones, FilesOf, BytesOf, LinksOk, EntrySet, Absent, NamedBy,
         EntryAt, CString, NamesOf, DirFull, FirstGap, R.CleanStep, R.Answer;
    ghost var d0, t0, q, f := v.disk, v.inodes, Pos(0, 0, 0), 0;
    LinksParts(d0, t0);
    made := 0;
    match op
    case Create(dir, nm) =>
      NamedIff(d0, t0, Key(dir, nm), 0);
      var ino;
      err, ino, q := Touch(v, dir, nm);
      made := ino;
      LinksParts(v.disk, v.inodes);
      if made != 0 {
        NamesAdded(d0, t0, v.disk, v.inodes, q, made, nm);
      } else if !Absent(d0, t0, dir, nm) {
        ZeroFree(d0, t0);
        NameAt(d0, t0, q);
      }
    case Hardlink(dir, nm, newDir, newNm) =>
      err, f, q := Link(v, dir, nm, newDir, newNm);
      NamedIff(d0, t0, Key(dir, nm), f);
      if err == OK { NamesAdded(d0, t0, v.disk, v.inodes, q, f, newNm); }
  }

  method StepRemove(v: Volume, op: NameOp) returns (err: Errno, ghost made: nat)
    requires v.Valid() && LinksOk(v.disk, v.inodes) && op.Remove?
    modifies v
    ensures v.Valid() && LinksOk(v.disk, v.inodes)
    ensures IsStep(old(R.SnapOf(v)), R.SnapOf(v), GeometryOf(v), op, err, made)
  {
    hide Volume.Core, AllOk, AllExact, AllSolid, UsedZones, FilesOf, BytesOf, LinksOk, EntrySet, Absent, NamedBy,
         EntryAt, NamesOf, TreeZones, Without, R.CleanStep, R.Answer;
    ghost var d0, t0, q, f, k := v.disk, v.inodes, Pos(0, 0, 0), 0, Key(op.dir, op.nm);
    LinksParts(d0, t0);
    made := 0;
    NamedIff(d0, t0, k, 0);
    err, f, q := Rm(v, op.dir, op.nm);
    if err != ENOENT {
      PlaceNames(d0, t0, q);
      NamedIff(d0, t0, k, f);
    }
    if err == OK {
      NamesRemoved(d0, t0, v.disk, v.inodes, q);
      LastName(d0, t0, k);
      WithoutIs(d0, t0, old(v.Files()), k);
    }
  }

  method StepMove(v: Volume, op: NameOp) returns (err: Errno, ghost made: nat)
    requires v.Valid() && LinksOk(v.disk, v.inodes) && op.Move? && CNames(op) && Admissible(v.disk, v.inodes, op)
    modifies v
    ensures v.Valid() && LinksOk(v.disk, v.inodes)
    ensures IsStep(old(R.SnapOf(v)), R.SnapOf(v), GeometryOf(v), op, err, made)
  {
    hide Volume.Core, AllOk, AllExact, AllSolid, UsedZones, FilesOf, BytesOf, LinksOk, EntrySet, Absent, NamedBy,
         EntryAt, CString, NamesOf, DirFull, FirstGap, BehindGap, GivesZones, TreeZones, Without, R.CleanStep, R.Answer;
    ghost var d0, t0, f, k' := v.disk, v.inodes, 0, Key(op.newDir, op.newNm);
    LinksParts(d0, t0);
    err, f := Rename(v, op.dir, op.nm, op.newDir, op.newNm);
    NamedIff(d0, t0, Key(op.dir, op.nm), f);
    made := 0;
    ghost var none: set<nat> := {};
    ghost var left := old(Without(NamesOf(v.disk, v.inodes), v.Files(), k'));
    assert left - none == left;
  }

  lemma WithoutIs(d: Disk, t: Table, files: map<nat, seq<Byte>>, k: Key)
    requires k in NamesOf(d, t)
    ensures Without(NamesOf(d, t), files, k) == if NamesOf(d, t)[k] in (NamesOf(d, t) - {k}).Values then
              files else files - {NamesOf(d, t)[k]}
  {
  }

  /** Every admissible operation keeps the volume sound and the counts right. It is the
      reference operation, failures included, unless it fills a hole with a stale
      byte, which the state before it shows; and but for failed writes it loses
      no zone. */
  method Step(v: Volume, op: NameOp) returns (err: Errno, ghost made: nat)
    requires v.Valid() && LinksOk(v.disk, v.inodes) && CNames(op) && Admissible(v.disk, v.inodes, op)
    modifies v
    ensures v.Valid() && LinksOk(v.disk, v.inodes)
    ensures IsStep(old(R.SnapOf(v)), R.SnapOf(v), GeometryOf(v), op, err, made)
  {
    hide Volume.Valid, LinksOk, CNames, IsStep;
    if OnBytes(op) {
      err, made := StepBytes(v, op);
    } else if op.Create? || op.Hardlink? {
      err, made := StepAdd(v, op);
    } else if op.Remove? {
      err, made := StepRemove(v, op);
    } else {
      err, made := StepMove(v, op);
    }
  }

  method CheckRoom(v: Volume, dir: nat, nm: Name) returns (ok: bool)
    requires v.Valid() && LinksOk(v.disk, v.inodes)
    ensures ok <==> LinkRoom(v.disk, v.inodes, dir, nm)
  {
    hide Volume.Core, AllOk, EntryAt, NamedBy, Absent, Unique, Counted, NoneDangles;
    var ino, q := FindDirEntry(v, dir, nm);
    if ino == 0 {
      forall g ensures !NamedBy(v.disk, v.inodes, dir, nm, g) { AbsentNamesNone(v.disk, v.inodes, dir, nm, g); }
      return true;
    }
    PlaceNames(v.disk, v.inodes, q);
    EntryOfDir(v.disk, v.inodes, q);
    forall g | NamedBy(v.disk, v.inodes, dir, nm, g) ensures g == ino { NamesOne(v.disk, v.inodes, dir, nm, g, ino); }
    ok := v.inodes[ino].nlinks < 255;
  }

  method CheckNotDir(v: Volume, dir: nat, nm: Name) returns (ok: bool)
    requires v.Valid() && LinksOk(v.disk, v.inodes)
    ensures ok <==> NotADirectory(v.disk, v.inodes, dir, nm)
  {
    hide Volume.Core, AllOk, EntryAt, NamedBy, Absent, Unique, Counted, NoneDangles;
    var ino, q := FindDirEntry(v, dir, nm);
    if ino == 0 {
      forall g ensures !NamedBy(v.disk, v.inodes, dir, nm, g) { AbsentNamesNone(v.disk, v.inodes, dir, nm, g); }
      return true;
    }
    PlaceNames(v.disk, v.inodes, q);
    EntryOfDir(v.disk, v.inodes, q);
    forall g | NamedBy(v.disk, v.inodes, dir, nm, g) ensures g == ino { NamesOne(v.disk, v.inodes, dir, nm, g, ino); }
    ok := !v.inodes[ino].isDir;
  }

  method CheckAdmissible(v: Volume, op: NameOp) returns (ok: bool)
    requires v.Valid() && LinksOk(v.disk, v.inodes)
    ensures ok <==> Admissible(v.disk, v.inodes, op)
  {
    hide LinkRoom, NotADirectory, LinksOk, Volume.Valid;
    ok := true;
    if op.Hardlink? || op.Move? { ok := CheckRoom(v, op.dir, op.nm); }
    if ok && op.Move? { ok := CheckNotDir(v, op.newDir, op.newNm); }
  }

  // ----- whole runs --------------------------------------------------------------------------

  /** A run: the operations, which of them were carried out, with their answers, and
      the states before and after each. */
  datatype Trace = Trace(snaps: seq<R.Snap>, ops: seq<NameOp>, ran: seq<bool>, errs: seq<Errno>, made: seq<nat>)

  /** An operation is carried out exactly if it is admissible; one that is not is left
      out. */
  ghost predicate TraceStep(s: R.Snap, s': R.Snap, g: Geometry, op: NameOp, ran: bool, err: Errno, made: nat) {
    && (ran <==> CNames(op) && Admissible(s.d, s.t, op))
    && if ran then IsStep(s, s', g, op, err, made) else s' == s
  }

  ghost predicate IsTrace(r: Trace, g: Geometry) {
    && |r.ops| == |r.ran| == |r.errs| == |r.made| && |r.snaps| == |r.ops| + 1
    && forall i | 0 <= i < |r.ops| ::
      TraceStep(r.snaps[i], r.snaps[i + 1], g, r.ops[i], r.ran[i], r.errs[i], r.made[i])
  }

  /** The reference after the first `n` operations. */
  ghost function AfterAll(r: Trace, s: Fs, n: nat, maxSize: nat): Fs
    requires n <= |r.ops| == |r.ran| == |r.errs| == |r.made|
  {
    if n == 0 then s
    else
      var t := AfterAll(r, s, n - 1, maxSize);
      if r.ran[n - 1] then After(t, r.ops[n - 1], r.errs[n - 1], r.made[n - 1], maxSize) else t
  }

  /** For as long as no step fills a hole with a stale byte, names and bytes are those
      of the reference at every moment. */
  lemma {:induction false} RunRefines(r: Trace, g: Geometry, n: nat)
    requires IsTrace(r, g) && n <= |r.ops|
    requires forall i | 0 <= i < n && r.ran[i] :: Clean(r.snaps[i], g, r.ops[i])
    ensures FsAt(r.snaps[n]) == AfterAll(r, FsAt(r.snaps[0]), n, g.maxSize)
  {
    hide Clean, After, Answer, FsAt, Admissible, CNames, R.Conserves;
    if n > 0 {
      RunRefines(r, g, n - 1);
      assert TraceStep(r.snaps[n - 1], r.snaps[n], g, r.ops[n - 1], r.ran[n - 1], r.errs[n - 1], r.made[n - 1]);
    }
  }

  lemma {:induction false} SolidRun(r: Trace, g: Geometry, n: nat)
    requires IsTrace(r, g) && n <= |r.ops| && AllSolid(r.snaps[0].d, r.snaps[0].t)
    ensures AllSolid(r.snaps[n].d, r.snaps[n].t)
    ensures forall i | 0 <= i < n && r.ran[i] :: Clean(r.snaps[i], g, r.ops[i])
  {
    hide Clean, After, Answer, FsAt, Admissible, CNames, R.Conserves, AllSolid;
    if n > 0 {
      SolidRun(r, g, n - 1);
      assert TraceStep(r.snaps[n - 1], r.snaps[n], g, r.ops[n - 1], r.ran[n - 1], r.errs[n - 1], r.made[n - 1]);
    }
  }

  /** If no write failed, every tree that was exact is, and no zone was lost or
      invented, whatever was created, linked, removed and renamed. */
  lemma {:induction false} RunConserves(r: Trace, g: Geometry, n: nat)
    requires IsTrace(r, g) && n <= |r.ops| && AllExact(r.snaps[0].d, r.snaps[0].t)
    requires forall i | 0 <= i < n && r.ran[i] && OnBytes(r.ops[i]) :: r.errs[i] == OK
    ensures R.Conserves(r.snaps[0], r.snaps[n]) && AllExact(r.snaps[n].d, r.snaps[n].t)
  {
    hide Clean, After, Answer, FsAt, Admissible, CNames, AllExact, UsedZones;
    if n > 0 {
      RunConserves(r, g, n - 1);
      assert TraceStep(r.snaps[n - 1], r.snaps[n], g, r.ops[n - 1], r.ran[n - 1], r.errs[n - 1], r.made[n - 1]);
    }
  }

  lemma TraceMore(r: Trace, s: R.Snap, g: Geometry, op: NameOp, ran: bool, err: Errno, made: nat)
    requires IsTrace(r, g) && TraceStep(r.snaps[|r.ops|], s, g, op, ran, err, made)
    ensures IsTrace(Trace(r.snaps + [s], r.ops + [op], r.ran + [ran], r.errs + [err], r.made + [made]), g)
  {
    hide TraceStep;
    var r', n := Trace(r.snaps + [s], r.ops + [op], r.ran + [ran], r.errs + [err], r.made + [made]), |r.ops|;
    forall i | 0 <= i <= n
      ensures TraceStep(r'.snaps[i], r'.snaps[i + 1], g, r'.ops[i], r'.ran[i], r'.errs[i], r'.made[i])
    {
      if i < n {
        assert TraceStep(r.snaps[i], r.snaps[i + 1], g, r.ops[i], r.ran[i], r.errs[i], r.made[i]);
      }
    }
  }

  lemma NoSteps(r: Trace, g: Geometry)
    requires r.ops == [] && r.ran == [] && r.errs == [] && r.made == [] && |r.snaps| == 1
    ensures IsTrace(r, g)
  {
  }

  lemma TraceSizes(r: Trace, g: Geometry)
    requires IsTrace(r, g)
    ensures |r.ops| == |r.ran| == |r.errs| == |r.made| && |r.snaps| == |r.ops| + 1
  {
  }

  /** Any run, failures included, ends with every regular file's count equal to the
      number of its names, which is not 0. On a volume without holes the names
      and the bytes of all files are those of the reference at the end; and if no
      write failed, each file occupies precisely the zones its size calls for. */
  method Run(v: Volume, ops: seq<NameOp>) returns (ran: seq<bool>, errs: seq<Errno>, ghost r: Trace)
    requires v.Valid() && LinksOk(v.disk, v.inodes)
    modifies v
    ensures v.Valid() && LinksOk(v.disk, v.inodes) && IsTrace(r, GeometryOf(v))
    ensures r.ops == ops && r.ran == ran && r.errs == errs && r.snaps[0] == old(R.SnapOf(v)) &&
              r.snaps[|ops|] == R.SnapOf(v)
    ensures old(AllSolid(v.disk, v.inodes)) ==> AllSolid(v.disk, v.inodes)
    ensures old(AllSolid(v.disk, v.inodes)) || (forall i | 0 <= i < |ops| && ran[i] ::
              Clean(r.snaps[i], GeometryOf(v), ops[i])) ==>
              FsOf(v) == AfterAll(r, old(FsOf(v)), |ops|, v.maxSize)
    ensures old(AllExact(v.disk, v.inodes)) &&
              (forall i | 0 <= i < |ops| && ran[i] && OnBytes(ops[i]) :: errs[i] == OK) ==>
              && v.free + UsedZones(v.disk, v.inodes) == old(v.free + UsedZones(v.disk, v.inodes))
              && R.OccupiesExactly(v.disk, v.inodes)
  {
    hide Volume.Valid, LinksOk, Admissible, CNames, IsTrace, IsStep, AfterAll, AllSolid, AllExact, UsedZones, Clean,
         NamesOf, FilesOf, R.OccupiesExactly;
    ran, errs := [], [];
    ghost var g := GeometryOf(v);
    r := Trace([R.SnapOf(v)], [], [], [], []);
    NoSteps(r, g);
    for i := 0 to |ops|
      invariant v.Valid() && LinksOk(v.disk, v.inodes) && IsTrace(r, g) && GeometryOf(v) == g
      invariant r.ops == ops[..i] && r.ran == ran && r.errs == errs && |r.snaps| == i + 1
      invariant r.snaps[0] == old(R.SnapOf(v)) && r.snaps[i] == R.SnapOf(v)
    {
      var ok := CheckAdmissible(v, ops[i]);
      ok := ok && CNames(ops[i]);
      var err := EINVAL;
      ghost var made := 0;
      if ok { err, made := Step(v, ops[i]); }
      TraceMore(r, R.SnapOf(v), g, ops[i], ok, err, made);
      r := Trace(r.snaps + [R.SnapOf(v)], r.ops + [ops[i]], r.ran + [ok], r.errs + [err], r.made + [made]);
      ran, errs := ran + [ok], errs + [err];
    }
    assert ops[..|ops|] == ops;
    TraceSizes(r, g);
    if AllSolid(r.snaps[0].d, r.snaps[0].t) { SolidRun(r, g, |ops|); }
    if forall i | 0 <= i < |ops| && ran[i] :: Clean(r.snaps[i], g, ops[i]) { RunRefines(r, g, |ops|); }
    if AllExact(r.snaps[0].d, r.snaps[0].t) && forall i | 0 <= i < |ops| && ran[i] && OnBytes(ops[i]) :: errs[i] == OK {
      RunConserves(r, g, |ops|);
      R.ValidParts(v);
      R.ExactOccupies(v.disk, v.owner, v.inodes);
    }
  }
}

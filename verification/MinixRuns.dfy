/** Whole runs of file operations on a mounted MINIX volume. */
module MinixRuns {
  import opened Bytes
  import opened Outcomes
  import opened MinixTree
  import opened MinixData
  import opened MinixAlloc
  import opened MinixSpec
  import opened MinixSpace
  import opened MinixVolume

  datatype FileOp =
    | Pwrite(ino: nat, off: int, buf: seq<Byte>, addr: nat)
    | Trunc(ino: nat, len: nat)
    | Pread(ino: nat, off: int, count: nat)

  type FileMap = map<nat, seq<Byte>>

  /** The reference file system: files are plain byte sequences. A write that ran out of
      room has overwritten the old bytes in its way and changed no size. */
  ghost function After(files: FileMap, op: FileOp, err: Errno, maxSize: nat): FileMap {
    match op
    case Pwrite(ino, off, buf, _) =>
      if ino !in files || off < 0 then files
      else if err == OK then files[ino := Pwritten(files[ino], off, buf)]
      else files[ino := Failed(files[ino], off, buf, maxSize)]
    case Trunc(ino, len) =>
      if ino in files && err == OK then files[ino := Fit(files[ino], len)] else files
    case Pread(_, _, _) => files
  }

  /** What a successful read must return. */
  ghost function Expected(files: FileMap, op: FileOp): seq<Byte> {
    if op.Pread? && op.ino in files && op.off >= 0 then Slice(files[op.ino], op.off, op.count) else []
  }

  /** The disk, the inode table and the free zones at one moment of a run. */
  datatype Snap = Snap(d: Disk, t: Table, free: set<nat>)

  ghost function SnapOf(v: Volume): Snap
    reads v
  {
    Snap(v.disk, v.inodes, v.free)
  }

  ghost function FilesAt(s: Snap): FileMap {
    FilesOf(s.d, s.t)
  }

  /** What an operation answers in state `s`. */
  ghost function Answer(s: Snap, op: FileOp, limit: nat, maxSize: nat): Errno {
    match op
    case Pwrite(ino, off, buf, _) => PwriteAnswer(s.d, s.t, s.free, limit, maxSize, ino, off, |buf|)
    case Trunc(ino, len) => TruncateAnswer(s.d, s.t, s.free, limit, maxSize, ino, len)
    case Pread(ino, off, count) =>
      if count == 0 then OK else if off < 0 then EINVAL
      else if ino !in s.t then ENOENT else if s.t[ino].isDir then EISDIR else OK
  }

  /** In state `s` the step will bring up no stale byte: where it fills a hole, the zone
      the hole will get is clean. When the step will fail for want of room, the
      file has no holes. */
  ghost predicate CleanStep(s: Snap, op: FileOp, limit: nat, maxSize: nat) {
    op.Pread? || op.ino !in s.t || s.t[op.ino].isDir ||
    if Answer(s, op, limit, maxSize) != OK then Solid(s.d, s.t[op.ino])
    else if op.Trunc? then CleanGrow(s.d, s.t[op.ino], s.free, op.len)
    else op.buf != [] ==> CleanWrite(s.d, s.t[op.ino], s.free, op.off, |op.buf|)
  }

  ghost predicate Conserves(s: Snap, s': Snap) {
    && s'.free + UsedZones(s'.d, s'.t) == s.free + UsedZones(s.d, s.t)
    && (AllExact(s.d, s.t) ==> AllExact(s'.d, s'.t))
  }

  /** What is true of each step of each run. */
  ghost predicate IsStep(s: Snap, s': Snap, op: FileOp, err: Errno, data: seq<Byte>, limit: nat,
                         maxSize: nat) {
    && err == Answer(s, op, limit, maxSize)
    && (err == OK ==> data == Expected(FilesAt(s), op) && Conserves(s, s'))
    && (CleanStep(s, op, limit, maxSize) ==> FilesAt(s') == After(FilesAt(s), op, err, maxSize))
    && (err == OK && FilesAt(s') == After(FilesAt(s), op, err, maxSize) ==> CleanStep(s, op, limit, maxSize))
    && (AllSolid(s.d, s.t) ==> AllSolid(s'.d, s'.t) && CleanStep(s, op, limit, maxSize))
  }

  /** Nothing but the bytes and zones of regular file `f` changed. */
  ghost predicate OneFile(d: Disk, o: Owners, t: Table, d': Disk, o': Owners, t': Table, f: nat) {
    && KeepsOthers(d, o, d', o', f)
    && (t' == t || (f in t && f in t' && t' == t[f := t'[f]] && !t[f].isDir && !t'[f].isDir && t'[f].nlinks == t[f].nlinks))
    && (f in t && t[f].isDir ==> d' == d)
  }

  /** The answer of an operation can be told before it, and so can whether it will be
      the reference operation: a successful one is if and only if it is clean. On
      a volume without holes, which stays one, every operation is clean. */
  method Step(v: Volume, op: FileOp) returns (err: Errno, data: seq<Byte>)
    requires v.Valid()
    modifies v
    ensures v.Valid() && OneFile(old(v.disk), old(v.owner), old(v.inodes), v.disk, v.owner, v.inodes, op.ino)
    ensures IsStep(old(SnapOf(v)), SnapOf(v), op, err, data, v.Limit(), v.maxSize)
  {
    hide Volume.Valid, IsStep, OneFile;
    match op
    case Pwrite(_, _, _, _) =>
      err := StepPwrite(v, op);
      data := [];
    case Trunc(_, _) =>
      err := StepTrunc(v, op);
      data := [];
    case Pread(_, _, _) => err, data := StepPread(v, op);
  }

  method StepPwrite(v: Volume, op: FileOp) returns (err: Errno)
    requires v.Valid() && op.Pwrite?
    modifies v
    ensures v.Valid() && OneFile(old(v.disk), old(v.owner), old(v.inodes), v.disk, v.owner, v.inodes, op.ino)
    ensures IsStep(old(SnapOf(v)), SnapOf(v), op, err, [], v.Limit(), v.maxSize)
  {
    hide Volume.Core, BytesOf, UsedZones, AllExact, AllSolid, Solid, Pwritten, Torn, Slice, CleanWrite, RoomFor,
         Volume.Limit, TornWhereBacked, KeepsOthers;
    FilesDomain(v.disk, v.inodes);
    ghost var files, d0, t0 := v.Files(), v.disk, v.inodes;
    StepReady(d0, v.owner, t0, v.free, op.ino);
    ghost var done;
    err, done := v.PwriteAt(op.ino, op.buf, op.off, op.addr);
    if op.ino in files && op.buf == [] { EmptyWrite(files, op.ino, op.off); }
    if err == OK && op.buf != [] { UpdateSame(files, op.ino, v.Bytes(op.ino),
         Pwritten(files[op.ino], op.off, op.buf)); }
  }

  method StepTrunc(v: Volume, op: FileOp) returns (err: Errno)
    requires v.Valid() && op.Trunc?
    modifies v
    ensures v.Valid() && OneFile(old(v.disk), old(v.owner), old(v.inodes), v.disk, v.owner, v.inodes, op.ino)
    ensures IsStep(old(SnapOf(v)), SnapOf(v), op, err, [], v.Limit(), v.maxSize)
  {
    hide Volume.Core, BytesOf, UsedZones, AllExact, AllSolid, Solid, Fit, Slice, CleanGrow, RoomFor, Volume.Limit,
         KeepsOthers;
    FilesDomain(v.disk, v.inodes);
    ghost var files, d0, t0 := v.Files(), v.disk, v.inodes;
    StepReady(d0, v.owner, t0, v.free, op.ino);
    err := v.Truncate(op.ino, op.len);
    if err == OK { UpdateSame(files, op.ino, v.Bytes(op.ino), Fit(files[op.ino], op.len)); }
  }

  method StepPread(v: Volume, op: FileOp) returns (err: Errno, data: seq<Byte>)
    requires v.Valid() && op.Pread?
    modifies v
    ensures v.Valid() && OneFile(old(v.disk), old(v.owner), old(v.inodes), v.disk, v.owner, v.inodes, op.ino)
    ensures IsStep(old(SnapOf(v)), SnapOf(v), op, err, data, v.Limit(), v.maxSize)
  {
    hide Volume.Core, BytesOf, UsedZones, AllExact, AllSolid, Slice, Volume.Limit;
    FilesDomain(v.disk, v.inodes);
    KeptSelf(op.ino, v.disk, v.owner, NO_ZONES);
    err, data := v.PreadAt(op.ino, op.count, op.off);
    if op.count == 0 && op.ino in v.Files() && op.off >= 0 { EmptyRead(v.Files()[op.ino], op.off); }
  }

  lemma StepReady(d: Disk, o: Owners, t: Table, free: set<nat>, f: nat)
    requires AllOk(d, o, t)
    ensures f in t && !t[f].isDir ==> f in FilesOf(d, t) && FilesOf(d, t)[f] == BytesOf(d, t[f])
    ensures f in t && !t[f].isDir && Solid(d, t[f]) ==>
              (forall off: nat, n: nat :: CleanWrite(d, t[f], free, off, n)) && forall n: nat ::
                CleanGrow(d, t[f], free, n)
    ensures f in t && AllSolid(d, t) ==> Solid(d, t[f])
  {
    hide BytesOf, Solid, CleanWrite, CleanGrow;
    if f in t && !t[f].isDir {
      FileBytes(d, o, t, f);
      if Solid(d, t[f]) { SolidClean(d, t[f], free); }
    }
  }

  lemma SolidClean(d: Disk, nd: Inode, free: set<nat>)
    requires Solid(d, nd) && !nd.isDir
    ensures forall off: nat, n: nat :: CleanWrite(d, nd, free, off, n)
    ensures forall n: nat :: CleanGrow(d, nd, free, n)
  {
    hide CleanBefore, Dense;
    forall off: nat, n: nat ensures CleanWrite(d, nd, free, off, n) {
      DenseClean(d, nd.zones, free, nd.size, Start(nd.size, off), off + n);
    }
    forall n: nat ensures CleanGrow(d, nd, free, n) {
      DenseClean(d, nd.zones, free, nd.size, nd.size, n);
    }
  }

  lemma UpdateSame(m: FileMap, k: nat, x: seq<Byte>, y: seq<Byte>)
    ensures m[k := x] == m[k := y] <==> x == y
  {
    assert m[k := x][k] == x && m[k := y][k] == y;
  }

  lemma FilesDomain(d: Disk, t: Table)
    ensures forall f :: f in FilesOf(d, t) <==> f in t && !t[f].isDir
    ensures forall f | f in FilesOf(d, t) :: FilesOf(d, t)[f] == BytesOf(d, t[f])
  {
  }

  lemma EmptyWrite(files: FileMap, ino: nat, off: int)
    requires ino in files
    ensures off >= 0 ==> files[ino := Pwritten(files[ino], off, [])] == files
  {
  }

  lemma EmptyRead(c: seq<Byte>, off: nat)
    ensures Slice(c, off, 0) == []
  {
  }

  // ----- whole runs --------------------------------------------------------------------------

  /** A run: the operations with their answers, and the states before and after each. */
  datatype Trace = Trace(snaps: seq<Snap>, ops: seq<FileOp>, errs: seq<Errno>, bytes: seq<seq<Byte>>)

  ghost predicate IsTrace(r: Trace, limit: nat, maxSize: nat) {
    && |r.ops| == |r.errs| == |r.bytes| && |r.snaps| == |r.ops| + 1
    && forall i | 0 <= i < |r.ops| ::
      IsStep(r.snaps[i], r.snaps[i + 1], r.ops[i], r.errs[i], r.bytes[i], limit, maxSize)
  }

  /** The reference after the first `n` operations. */
  ghost function AfterAll(r: Trace, files: FileMap, n: nat, maxSize: nat): FileMap
    requires n <= |r.ops| == |r.errs|
  {
    if n == 0 then files else After(AfterAll(r, files, n - 1, maxSize), r.ops[n - 1], r.errs[n - 1], maxSize)
  }

  /** For as long as every step is clean, a run is a run of the reference: same bytes in
      every file at every moment, same bytes from every read, failures included. */
  lemma {:induction false} RunRefines(r: Trace, limit: nat, maxSize: nat, n: nat)
    requires IsTrace(r, limit, maxSize) && n <= |r.ops|
    requires forall i | 0 <= i < n :: CleanStep(r.snaps[i], r.ops[i], limit, maxSize)
    ensures FilesAt(r.snaps[n]) == AfterAll(r, FilesAt(r.snaps[0]), n, maxSize)
    ensures forall i | 0 <= i < n && r.errs[i] == OK ::
              r.bytes[i] == Expected(AfterAll(r, FilesAt(r.snaps[0]), i, maxSize), r.ops[i])
  {
    hide CleanStep, After, Expected, Answer, FilesAt;
    if n > 0 {
      RunRefines(r, limit, maxSize, n - 1);
      assert IsStep(r.snaps[n - 1], r.snaps[n], r.ops[n - 1], r.errs[n - 1], r.bytes[n - 1], limit,
             maxSize);
    }
  }

  /** Without holes every step of every run is clean. */
  lemma {:induction false} SolidRun(r: Trace, limit: nat, maxSize: nat, n: nat)
    requires IsTrace(r, limit, maxSize) && n <= |r.ops| && AllSolid(r.snaps[0].d, r.snaps[0].t)
    ensures AllSolid(r.snaps[n].d, r.snaps[n].t)
    ensures forall i | 0 <= i < n :: CleanStep(r.snaps[i], r.ops[i], limit, maxSize)
  {
    hide CleanStep, After, Expected, Answer, FilesAt, AllSolid;
    if n > 0 {
      SolidRun(r, limit, maxSize, n - 1);
      assert IsStep(r.snaps[n - 1], r.snaps[n], r.ops[n - 1], r.errs[n - 1], r.bytes[n - 1], limit,
             maxSize);
    }
  }

  /** A run without failures neither loses nor invents a zone, and keeps trees exact. */
  lemma {:induction false} RunConserves(r: Trace, limit: nat, maxSize: nat, n: nat)
    requires IsTrace(r, limit, maxSize) && n <= |r.ops| && forall i | 0 <= i < n :: r.errs[i] == OK
    ensures Conserves(r.snaps[0], r.snaps[n])
  {
    hide CleanStep, After, Expected, Answer, FilesAt, AllExact, UsedZones;
    if n > 0 {
      RunConserves(r, limit, maxSize, n - 1);
      assert IsStep(r.snaps[n - 1], r.snaps[n], r.ops[n - 1], r.errs[n - 1], r.bytes[n - 1], limit,
             maxSize);
    }
  }

  lemma TraceMore(r: Trace, s: Snap, op: FileOp, err: Errno, data: seq<Byte>, limit: nat, maxSize: nat)
    requires IsTrace(r, limit, maxSize) && IsStep(r.snaps[|r.ops|], s, op, err, data, limit, maxSize)
    ensures IsTrace(Trace(r.snaps + [s], r.ops + [op], r.errs + [err], r.bytes + [data]), limit,
              maxSize)
  {
    hide IsStep;
    var r', n := Trace(r.snaps + [s], r.ops + [op], r.errs + [err], r.bytes + [data]), |r.ops|;
    forall i | 0 <= i <= n
      ensures IsStep(r'.snaps[i], r'.snaps[i + 1], r'.ops[i], r'.errs[i], r'.bytes[i], limit, maxSize)
    {
      if i < n {
        assert IsStep(r.snaps[i], r.snaps[i + 1], r.ops[i], r.errs[i], r.bytes[i], limit, maxSize);
      }
    }
  }

  /** Any run, failures included, is a run of the reference file system for as long as
      its steps are clean, which each shows before it is taken, and which all
      are on a volume without holes: same bytes in every file, same bytes
      returned by every read, every answer told by the state before. A run
      without failures keeps every tree exact, so that each file occupies
      precisely the zones its size calls for, and neither loses nor invents a
      zone. */
  method Run(v: Volume, ops: seq<FileOp>) returns (errs: seq<Errno>, bytes: seq<seq<Byte>>, ghost r: Trace)
    requires v.Valid()
    modifies v
    ensures v.Valid() && IsTrace(r, v.Limit(), v.maxSize)
    ensures r.ops == ops && r.errs == errs && r.bytes == bytes && r.snaps[0] == old(SnapOf(v)) &&
              r.snaps[|ops|] == SnapOf(v)
    ensures old(AllSolid(v.disk, v.inodes)) ==> AllSolid(v.disk, v.inodes)
    ensures old(AllSolid(v.disk, v.inodes)) || (forall i | 0 <= i < |ops| ::
              CleanStep(r.snaps[i], ops[i], v.Limit(), v.maxSize)) ==>
              && v.Files() == AfterAll(r, old(v.Files()), |ops|, v.maxSize)
              && forall i | 0 <= i < |ops| && errs[i] == OK ::
                bytes[i] == Expected(AfterAll(r, old(v.Files()), i, v.maxSize), ops[i])
    ensures (forall i | 0 <= i < |ops| :: errs[i] == OK) ==>
              && v.free + UsedZones(v.disk, v.inodes) == old(v.free + UsedZones(v.disk, v.inodes))
              && (old(AllExact(v.disk, v.inodes)) ==> OccupiesExactly(v.disk, v.inodes))
  {
    hide Volume.Valid, IsTrace, IsStep, AfterAll, Expected, UsedZones, AllExact, AllSolid, OccupiesExactly, CleanStep,
         FilesOf, Volume.Limit;
    errs, bytes := [], [];
    r := Trace([SnapOf(v)], [], [], []);
    NoSteps(r, v.Limit(), v.maxSize);
    for i := 0 to |ops|
      invariant v.Valid() && IsTrace(r, v.Limit(), v.maxSize)
      invariant r.ops == ops[..i] && r.errs == errs && r.bytes == bytes && |r.snaps| == i + 1
      invariant r.snaps[0] == old(SnapOf(v)) && r.snaps[i] == SnapOf(v)
    {
      var err, data;
      err, data := Step(v, ops[i]);
      TraceMore(r, SnapOf(v), ops[i], err, data, v.Limit(), v.maxSize);
      r := Trace(r.snaps + [SnapOf(v)], r.ops + [ops[i]], r.errs + [err], r.bytes + [data]);
      errs, bytes := errs + [err], bytes + [data];
    }
    assert ops[..|ops|] == ops;
    TraceSizes(r, v.Limit(), v.maxSize);
    if AllSolid(r.snaps[0].d, r.snaps[0].t) { SolidRun(r, v.Limit(), v.maxSize, |ops|); }
    if forall i | 0 <= i < |ops| ::
         CleanStep(r.snaps[i], ops[i], v.Limit(), v.maxSize) { RunRefines(r, v.Limit(), v.maxSize, |ops|); }
    if forall i | 0 <= i < |ops| :: errs[i] == OK { RunConserves(r, v.Limit(), v.maxSize, |ops|); }
    ValidParts(v);
    if AllExact(v.disk, v.inodes) { ExactOccupies(v.disk, v.owner, v.inodes); }
  }

  lemma NoSteps(r: Trace, limit: nat, maxSize: nat)
    requires r.ops == [] && r.errs == [] && r.bytes == [] && |r.snaps| == 1
    ensures IsTrace(r, limit, maxSize)
  {
  }

  lemma TraceSizes(r: Trace, limit: nat, maxSize: nat)
    requires IsTrace(r, limit, maxSize)
    ensures |r.ops| == |r.errs| == |r.bytes| && |r.snaps| == |r.ops| + 1
  {
  }

  lemma ValidParts(v: Volume)
    requires v.Valid()
    ensures AllOk(v.disk, v.owner, v.inodes)
  {
  }

  /** Every regular file holds exactly the zones its size calls for. */
  ghost predicate OccupiesExactly(d: Disk, t: Table) {
    forall f | f in t && !t[f].isDir :: |TreeZones(d, t[f].zones)| == ZonesNeeded(ZoneCount(t[f].size))
  }

  lemma ExactOccupies(d: Disk, o: Owners, t: Table)
    requires AllOk(d, o, t) && AllExact(d, t)
    ensures OccupiesExactly(d, t)
  {
    hide TreeZones, Owned, ExactShape, ZonesNeeded;
    forall f | f in t && !t[f].isDir
      ensures |TreeZones(d, t[f].zones)| == ZonesNeeded(ZoneCount(t[f].size))
    {
      assert FileOk(d, o, f, t[f]) && Exact(d, t[f]);
      ExactSpace(d, o, f, t[f].zones, ZoneCount(t[f].size));
    }
  }
}

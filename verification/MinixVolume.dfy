/** The MINIX file engine (fs/minix_fs.c): zone allocation, the zone tree that
    grows and shrinks under a file, and positioned read, write and truncate. */
module MinixVolume {
  import opened Bytes
  import opened Outcomes
  import opened MinixBlocks
  import opened MinixZmap
  import opened MinixTree
  import opened MinixData
  import opened MinixAlloc
  import opened MinixSpec

  datatype Inode = Inode(isDir: bool, size: nat, nlinks: Byte, zones: Zones)

  type Table = map<nat, Inode>

  /** A file is sound when its zones are its own and its size is one the tree can
      hold. Blocks without a zone are holes, and read as zeros. */
  ghost predicate FileOk(d: Disk, o: Owners, f: nat, nd: Inode) {
    Owned(d, o, f, nd.zones) && (!nd.isDir ==> nd.size <= MAX_BYTES)
  }

  /** A regular file without holes. */
  ghost predicate Solid(d: Disk, nd: Inode) {
    nd.isDir || Dense(d, nd.zones, nd.size)
  }

  ghost predicate AllSolid(d: Disk, t: Table) {
    forall f | f in t :: Solid(d, t[f])
  }

  ghost predicate AllOk(d: Disk, o: Owners, t: Table) {
    forall f | f in t :: FileOk(d, o, f, t[f])
  }

  /** Every regular file's tree is exactly what its size calls for. */
  ghost predicate Exact(d: Disk, nd: Inode) {
    nd.isDir || (nd.size <= MAX_BYTES && ExactShape(d, nd.zones, ZoneCount(nd.size)))
  }

  ghost predicate AllExact(d: Disk, t: Table) {
    forall f | f in t :: Exact(d, t[f])
  }

  /** The bytes of inode `nd`; none for a directory. */
  ghost function BytesOf(d: Disk, nd: Inode): seq<Byte> {
    if nd.isDir || nd.size > MAX_BYTES then [] else Contents(d, nd.zones, nd.size)
  }

  /** The volume as its users see it: the bytes of each regular file. */
  ghost function FilesOf(d: Disk, t: Table): map<nat, seq<Byte>> {
    map f | f in t && !t[f].isDir :: BytesOf(d, t[f])
  }

  /** A step for `ino` leaves every other file sound, exact if it was, and with
      the same bytes. */
  lemma OtherKept(d: Disk, o: Owners, d': Disk, o': Owners, ino: nat, g: nat, nd: Inode)
    requires KeepsOthers(d, o, d', o', ino) && g != ino && FileOk(d, o, g, nd)
    ensures FileOk(d', o', g, nd)
    ensures Exact(d, nd) ==> Exact(d', nd)
    ensures Solid(d, nd) ==> Solid(d', nd)
    ensures BytesOf(d', nd) == BytesOf(d, nd)
    ensures TreeZones(d', nd.zones) == TreeZones(d, nd.zones)
  {
    hide SlotZone, BlockAt, TreeZones, Hits;
    OtherFileKept(d, o, d', o', ino, g, nd.zones);
    TreeZonesSame(d, nd.zones, d');
    if !nd.isDir {
      forall k | 0 <= k < nd.size
        ensures HasZone(d', nd.zones, k) <==> HasZone(d, nd.zones, k)
        ensures FileByte(d', nd.zones, k) == FileByte(d, nd.zones, k)
      {
        assert LeafZone(d', nd.zones, k / BLOCK_SIZE) == LeafZone(d, nd.zones, k / BLOCK_SIZE);
      }
    }
  }

  /** So a step for `ino` changes that file's bytes alone. */
  lemma TableKept(d: Disk, o: Owners, d': Disk, o': Owners, ino: nat, t: Table, nd: Inode)
    requires KeepsOthers(d, o, d', o', ino) && AllOk(d, o, t)
    requires ino in t && !t[ino].isDir && FileOk(d', o', ino, nd) && !nd.isDir
    ensures AllOk(d', o', t[ino := nd])
    ensures FilesOf(d', t[ino := nd]) == FilesOf(d, t)[ino := BytesOf(d', nd)]
    ensures AllExact(d, t) && Exact(d', nd) ==> AllExact(d', t[ino := nd])
    ensures AllSolid(d, t) && Solid(d', nd) ==> AllSolid(d', t[ino := nd])
  {
    hide Contents, KeepsOthers, Exact, Solid, TreeZones, Owned, BytesOf;
    var t' := t[ino := nd];
    forall g | g in t && g != ino
      ensures FileOk(d', o', g, t[g]) && (Exact(d, t[g]) ==> Exact(d', t[g])) && (Solid(d, t[g]) ==> Solid(d', t[g]))
      ensures BytesOf(d', t[g]) == BytesOf(d, t[g])
    {
      assert FileOk(d, o, g, t[g]);
      OtherKept(d, o, d', o', ino, g, t[g]);
    }
  }

  /** The zones some file of the volume holds. */
  ghost function UsedZones(d: Disk, t: Table): set<nat> {
    set f, z | f in t && z in TreeZones(d, t[f].zones) :: z
  }

  /** If a step moves zones only between the free set and `ino`, then the free
      and the used zones together stay the same. */
  lemma SpaceKept(d: Disk, o: Owners, free: set<nat>, d': Disk, o': Owners, free': set<nat>, ino: nat, t: Table,
                  nd: Inode)
    requires KeepsOthers(d, o, d', o', ino) && AllOk(d, o, t) && ino in t
    requires free' + TreeZones(d', nd.zones) == free + TreeZones(d, t[ino].zones)
    ensures free' + UsedZones(d', t[ino := nd]) == free + UsedZones(d, t)
  {
    hide Contents, KeepsOthers, Exact, Solid, TreeZones, Owned, BytesOf;
    var t' := t[ino := nd];
    forall g | g in t && g != ino
      ensures TreeZones(d', t'[g].zones) == TreeZones(d, t[g].zones)
    {
      assert FileOk(d, o, g, t[g]);
      OtherKept(d, o, d', o', ino, g, t[g]);
    }
    forall z ensures z in free' + UsedZones(d', t') <==> z in free + UsedZones(d, t) {
      if z in UsedZones(d', t') {
        var g :| g in t' && z in TreeZones(d', t'[g].zones);
        assert g == ino ==> z in free' + TreeZones(d', nd.zones);
        assert g != ino ==> z in TreeZones(d, t[g].zones);
      }
      if z in UsedZones(d, t) {
        var g :| g in t && z in TreeZones(d, t[g].zones);
        assert g == ino ==> z in free + TreeZones(d, t[ino].zones);
        assert g != ino ==> z in TreeZones(d', t'[g].zones);
      }
      assert z in free ==> z in free' + TreeZones(d', nd.zones);
      assert z in free' ==> z in free + TreeZones(d, t[ino].zones);
      assert z in TreeZones(d', nd.zones) ==> ino in t' && z in TreeZones(d', t'[ino].zones);
    }
  }

  lemma FileBytes(d: Disk, o: Owners, t: Table, f: nat)
    requires AllOk(d, o, t) && f in t && !t[f].isDir
    ensures FileOk(d, o, f, t[f]) && f in FilesOf(d, t) && t[f].size <= MAX_BYTES
    ensures FilesOf(d, t)[f] == BytesOf(d, t[f]) == Contents(d, t[f].zones, t[f].size)
    ensures |BytesOf(d, t[f])| == t[f].size
    ensures AllExact(d, t) ==> Exact(d, t[f])
    ensures AllSolid(d, t) ==> Dense(d, t[f].zones, t[f].size)
    ensures FilesOf(d, t)[f := BytesOf(d, t[f])] == FilesOf(d, t)
  {
    assert FileOk(d, o, f, t[f]);
  }

  /** The inode of `f`, if there is one; else an empty directory's. */
  ghost function NodeOf(t: Table, f: nat): Inode {
    if f in t then t[f] else Inode(true, 0, 0, NO_ZONES)
  }

  /** A write of `n` bytes at `off` will bring up no stale byte. */
  ghost predicate CleanWrite(d: Disk, nd: Inode, free: set<nat>, off: nat, n: nat) {
    CleanBefore(d, nd.zones, free, nd.size, Start(nd.size, off), off + n)
  }

  /** Nor will growing the file to `length`; cutting it never does. */
  ghost predicate CleanGrow(d: Disk, nd: Inode, free: set<nat>, length: nat) {
    length <= nd.size || CleanBefore(d, nd.zones, free, nd.size, nd.size, length)
  }

  /** What `minix_fs_pwrite_at` answers. */
  ghost function PwriteAnswer(d: Disk, t: Table, free: set<nat>, limit: nat, maxSize: nat, ino: nat, off: int,
                              n: nat): Errno {
    if n == 0 then OK
    else if off < 0 then EINVAL
    else if ino !in t then ENOENT
    else if t[ino].isDir then EISDIR
    else if Max(t[ino].size, off + n) > maxSize then EFBIG
    else RoomFor(d, t[ino].zones, free, limit, Start(t[ino].size, off), off + n)
  }

  /** What `minix_truncate` answers. */
  ghost function TruncateAnswer(d: Disk, t: Table, free: set<nat>, limit: nat, maxSize: nat, ino: nat,
                                length: nat): Errno {
    if length > maxSize then EFBIG
    else if ino !in t then ENOENT
    else if t[ino].isDir then EISDIR
    else if length <= t[ino].size then OK
    else RoomFor(d, t[ino].zones, free, limit, t[ino].size, length)
  }

  lemma NothingPwritten(c: seq<Byte>, off: nat)
    ensures Pwritten(c, off, []) == c
  {
  }

  lemma NoFile(d: Disk, t: Table, f: nat)
    requires f in t ==> t[f].isDir
    ensures f !in FilesOf(d, t)
  {
  }

  lemma BytesAt(d: Disk, nd: Inode)
    requires !nd.isDir && nd.size <= MAX_BYTES
    ensures BytesOf(d, nd) == Contents(d, nd.zones, nd.size)
    ensures Exact(d, nd) <==> ExactShape(d, nd.zones, ZoneCount(nd.size))
  {
  }

  /** One growth step towards file block `idx`: nothing held moves, and only
      slots on the way to `idx` are filled. */
  ghost predicate GrownTowards(d: Disk, iz: Zones, d': Disk, iz': Zones, idx: nat) {
    forall s | IsSlot(s) ::
      && (SlotZone(d, iz, s) != 0 ==> SlotZone(d', iz', s) == SlotZone(d, iz, s))
      && (SlotZone(d, iz, s) == 0 && SlotZone(d', iz', s) != 0 ==> OnPath(s, idx))
  }

  /** Some file block of lo .. hi - 1 has a zone. */
  ghost predicate HasLeaf(d: Disk, iz: Zones, lo: nat, hi: nat) {
    exists i :: lo <= i < hi && i < MAX_LEAVES && LeafZone(d, iz, i) != 0
  }

  /** Releasing those blocks has freed a zone exactly if there was one. */
  ghost predicate Freed(free: set<nat>, free': set<nat>, d: Disk, iz: Zones, lo: nat, hi: nat) {
    free <= free' && (free' != free <==> HasLeaf(d, iz, lo, hi))
  }

  lemma FreedNone(free: set<nat>, d: Disk, iz: Zones, lo: nat)
    ensures Freed(free, free, d, iz, lo, lo)
  {
  }

  lemma FreedMore(free: set<nat>, free1: set<nat>, free2: set<nat>, d: Disk, iz: Zones, d1: Disk, iz1: Zones, lo: nat,
                  mid: nat)
    requires Freed(free, free1, d, iz, lo, mid) && Freed(free1, free2, d1, iz1, mid, mid + 1) && lo <= mid
    requires LeavesCut(d, iz, d1, iz1, lo, mid)
    ensures Freed(free, free2, d, iz, lo, mid + 1)
  {
    hide LeafZone, BlockAt;
    if mid < MAX_LEAVES { assert LeafZone(d1, iz1, mid) == LeafZone(d, iz, mid); }
  }

  /** A growth of the tree of `ino` towards file block `idx`: data and other files
      stay as they were, no zone is lost, and only slots on the way to `idx` were
      filled, with the lowest free zones. */
  ghost predicate GrewFrom(ino: nat, d: Disk, o: Owners, iz: Zones, free: set<nat>, d': Disk, o': Owners, iz': Zones,
                           free': set<nat>, limit: nat, idx: nat) {
    && KeepsOthers(d, o, d', o', ino)
    && KeepsData(d, iz, d', iz')
    && GrownTowards(d, iz, d', iz', idx)
    && Bared(d, o, iz, d', o', iz', 0, 0)
    && TookSome(d, iz, free, d', iz', free', limit, idx)
    && free' + TreeZones(d', iz') == free + TreeZones(d, iz)
  }

  lemma GrewSelf(ino: nat, d: Disk, o: Owners, iz: Zones, free: set<nat>, limit: nat, idx: nat)
    ensures GrewFrom(ino, d, o, iz, free, d, o, iz, free, limit, idx)
  {
    hide KeepsOthers, KeepsData, Bared, TookSome, TreeZones, SlotZone;
    KeptSelf(ino, d, o, iz);
    BaredSelf(d, o, iz, 0, 0);
    TookNone(d, iz, free, limit, idx);
  }

  lemma GrewTrans(ino: nat, d: Disk, o: Owners, iz: Zones, free: set<nat>, d1: Disk, o1: Owners, iz1: Zones,
                  free1: set<nat>, d2: Disk, o2: Owners, iz2: Zones, free2: set<nat>, limit: nat, idx: nat)
    requires GrewFrom(ino, d, o, iz, free, d1, o1, iz1, free1, limit, idx) &&
              GrewFrom(ino, d1, o1, iz1, free1, d2, o2, iz2, free2, limit, idx)
    ensures GrewFrom(ino, d, o, iz, free, d2, o2, iz2, free2, limit, idx)
    ensures Lacks(d1, iz1, free1, limit, idx, idx + 1) ==> Lacks(d, iz, free, limit, idx, idx + 1)
    ensures idx < MAX_LEAVES && LeafZone(d1, iz1, idx) == 0 ==>
              NextZone(d1, iz1, free1, idx, idx) == NextZone(d, iz, free, idx, idx)
  {
    hide Bared, TookSome, TreeZones, SlotZone, Lacks, NextZone, BlockAt;
    KeepsOthersTrans(d, o, d1, o1, d2, o2, ino);
    BaredMore(d, o, iz, d1, o1, iz1, d2, o2, iz2);
    TookSomeTrans(d, iz, free, d1, iz1, free1, d2, iz2, free2, limit, idx);
  }

  /** `data` went into the file `ino` at `start`: no zone it held moved, nothing of
      another file changed, no zone was lost, and what came up in blocks that had
      no zone is what their new zones held. */
  ghost predicate Written(ino: nat, d: Disk, o: Owners, iz: Zones, free: set<nat>, d': Disk, o': Owners, iz': Zones,
                          free': set<nat>, start: nat, data: seq<Byte>) {
    && Kept(ino, d, o, iz, d', o', iz')
    && Wrote(d, iz, d', iz', start, data)
    && Bared(d, o, iz, d', o', iz', start, start + |data|)
    && free' + TreeZones(d', iz') == free + TreeZones(d, iz)
  }

  lemma NothingWritten(ino: nat, d: Disk, o: Owners, iz: Zones, free: set<nat>, start: nat)
    requires start <= MAX_BYTES
    ensures Written(ino, d, o, iz, free, d, o, iz, free, start, [])
  {
    hide Kept, Wrote, Bared, TreeZones;
    KeptSelf(ino, d, o, iz);
    WroteNothing(d, iz, d, iz, start);
    BaredSelf(d, o, iz, start, start);
  }

  lemma WrittenMore(ino: nat, d: Disk, o: Owners, iz: Zones, free: set<nat>, d1: Disk, o1: Owners, iz1: Zones,
                    free1: set<nat>, d2: Disk, o2: Owners, iz2: Zones, free2: set<nat>, start: nat, x: seq<Byte>,
                    y: seq<Byte>)
    requires Written(ino, d, o, iz, free, d1, o1, iz1, free1, start, x)
    requires Written(ino, d1, o1, iz1, free1, d2, o2, iz2, free2, start + |x|, y)
    ensures Written(ino, d, o, iz, free, d2, o2, iz2, free2, start, x + y) && start + |x| + |y| <= MAX_BYTES
  {
    hide Kept, Wrote, Bared, TreeZones, ZonedKept;
    KeptTrans(ino, d, o, iz, d1, o1, iz1, d2, o2, iz2);
    WroteMore(d, iz, d1, iz1, d2, iz2, start, x, y);
    WroteIsZoned(ino, d1, o1, iz1, d2, o2, iz2, start + |x|, y);
    BaredTrans(d, o, iz, d1, o1, iz1, d2, o2, iz2, start, start + |x|, start + |x| + |y|);
  }

  lemma WrittenEnd(ino: nat, d: Disk, o: Owners, iz: Zones, free: set<nat>, d': Disk, o': Owners, iz': Zones,
                   free': set<nat>, start: nat, data: seq<Byte>)
    requires Written(ino, d, o, iz, free, d', o', iz', free', start, data)
    ensures start + |data| <= MAX_BYTES && KeepsOthers(d, o, d', o', ino)
  {
  }

  /** Every byte that had a zone is the written one, or as before. */
  ghost predicate TornWhereBacked(d: Disk, nd: Inode, b: seq<Byte>, off: nat, data: seq<Byte>) {
    !nd.isDir && nd.size <= MAX_BYTES && |b| == nd.size
    && forall k | 0 <= k < nd.size && HasZone(d, nd.zones, k) :: b[k] == Torn(BytesOf(d, nd), off, data)[k]
  }

  lemma UntouchedIsTorn(d: Disk, nd: Inode, off: nat, data: seq<Byte>)
    requires !nd.isDir && nd.size <= MAX_BYTES && data == []
    ensures TornWhereBacked(d, nd, BytesOf(d, nd), off, data) && Torn(BytesOf(d, nd), off, data) == BytesOf(d, nd)
  {
    hide Contents, HasZone;
    TornNothing(BytesOf(d, nd), off);
  }

  /** `buf` went into file `ino` at `off`: no other file changed, the file is the overlay if
      and only if the zones it was to get were clean, and no zone was lost. */
  ghost predicate WroteFile(d: Disk, o: Owners, t: Table, free: set<nat>, d': Disk, o': Owners, t': Table,
                            free': set<nat>, ino: nat, off: nat, buf: seq<Byte>) {
    && ino in t && ino in t' && t' == t[ino := t'[ino]] && !t'[ino].isDir && t'[ino].nlinks == t[ino].nlinks
    && KeepsOthers(d, o, d', o', ino) && AllOk(d', o', t')
    && FilesOf(d', t') == FilesOf(d, t)[ino := BytesOf(d', t'[ino])]
    && |BytesOf(d', t'[ino])| == Max(|BytesOf(d, t[ino])|, off + |buf|)
    && (BytesOf(d', t'[ino]) == Pwritten(BytesOf(d, t[ino]), off, buf) <==> CleanWrite(d, t[ino], free, off, |buf|))
    && (Solid(d, t[ino]) ==> CleanWrite(d, t[ino], free, off, |buf|))
    && (AllSolid(d, t) ==> AllSolid(d', t')) && (AllExact(d, t) ==> AllExact(d', t'))
    && free' + UsedZones(d', t') == free + UsedZones(d, t)
  }

  /** Only `data` of a write to file `ino` reached the disk, below the old size. */
  ghost predicate TornFile(d: Disk, o: Owners, t: Table, d': Disk, o': Owners, ino: nat, off: nat, data: seq<Byte>) {
    && ino in t && KeepsOthers(d, o, d', o', ino) && AllOk(d', o', t)
    && FilesOf(d', t) == FilesOf(d, t)[ino := BytesOf(d', t[ino])]
    && (Solid(d, t[ino]) ==> BytesOf(d', t[ino]) == Torn(BytesOf(d, t[ino]), off, data))
    && TornWhereBacked(d, t[ino], BytesOf(d', t[ino]), off, data)
    && (AllSolid(d, t) ==> AllSolid(d', t))
  }

  /** How many bytes of a write at `off` that lacks room get there; none that count if it
      would start behind the end. */
  ghost predicate Reached(d: Disk, nd: Inode, free: set<nat>, limit: nat, off: nat, done: nat) {
    if off <= nd.size then StopsAt(d, nd.zones, free, limit, off, off + done) else done == 0
  }

  /** In a file without holes that is all of the old bytes in its way. */
  lemma SolidReached(d: Disk, nd: Inode, free: set<nat>, limit: nat, off: nat, buf: seq<Byte>, done: nat)
    requires !nd.isDir && nd.size <= MAX_BYTES && Solid(d, nd) && done <= |buf| &&
              Reached(d, nd, free, limit, off, done)
    ensures Torn(BytesOf(d, nd), off, buf[..done]) == Torn(BytesOf(d, nd), off, buf)
  {
    hide RoomFor, Torn, HasZone;
    if off <= nd.size && off + done < nd.size {
      StopIsUnbacked(d, nd.zones, free, limit, off, off + done);
    }
    TornWhole(BytesOf(d, nd), off, buf, done);
  }

  /** What a finished write makes of the volume. */
  lemma WriteDone(d: Disk, o: Owners, free: set<nat>, t: Table, d': Disk, o': Owners, iz': Zones, free': set<nat>,
                  limit: nat, ino: nat, off: nat, buf: seq<Byte>)
    requires AllOk(d, o, t) && ino in t && !t[ino].isDir && buf != [] && off + |buf| <= MAX_BYTES &&
              Owned(d', o', ino, iz')
    requires Written(ino, d, o, t[ino].zones, free, d', o', iz', free', Start(t[ino].size, off),
              Laid(t[ino].size, off, buf))
    requires Took(d, t[ino].zones, free, d', iz', free', limit, Start(t[ino].size, off) / BLOCK_SIZE,
              Upto(Start(t[ino].size, off), off + |buf|))
    requires Exact(d, t[ino]) ==> ExactShape(d', iz', ZoneCount(Max(t[ino].size, off + |buf|)))
    ensures WroteFile(d, o, t, free, d', o', t[ino := t[ino].(size := Max(t[ino].size, off + |buf|), zones := iz')],
                      free', ino, off, buf)
  {
    hide Owned, KeepsOthers, Contents, Exact, TreeZones, Dense, Pwritten, Torn, FilesOf, UsedZones, AllExact, AllSolid,
         ZoneCount, Wrote, Bared, Kept, NoStale, CleanBefore, Start, Laid, Took, Upto;
    var w := t[ino];
    var nd := w.(size := Max(w.size, off + |buf|), zones := iz');
    FileBytes(d, o, t, ino);
    KeptGivesOthers(ino, d, o, w.zones, d', o', iz');
    StartLaid(w.size, off, buf);
    WriteContents(d, o, w.zones, d', o', iz', w.size, off, buf);
    CleanIffNoStale(d, w.zones, free, d', iz', free', limit, w.size, Start(w.size, off), off + |buf|);
    if Dense(d, w.zones, w.size) { DenseClean(d, w.zones, free, w.size, Start(w.size, off), off + |buf|); }
    BytesAt(d', nd);
    BytesAt(d, w);
    TableKept(d, o, d', o', ino, t, nd);
    SpaceKept(d, o, free, d', o', free', ino, t, nd);
  }

  /** What is left of one that failed: `done` bytes of `buf` at most. */
  lemma WriteFailed(d: Disk, o: Owners, free: set<nat>, t: Table, d': Disk, o': Owners, iz': Zones, free': set<nat>,
                    ino: nat, off: nat, buf: seq<Byte>, wrote: seq<Byte>) returns (done: nat)
    requires AllOk(d, o, t) && ino in t && !t[ino].isDir && Owned(d', o', ino, iz') &&
              wrote <= Laid(t[ino].size, off, buf)
    requires Written(ino, d, o, t[ino].zones, free, d', o', iz', free', Start(t[ino].size, off), wrote)
    ensures done <= |buf| && TornFile(d, o, t, d', o', ino, off, buf[..done])
    ensures done == if off <= t[ino].size then |wrote| else 0
  {
    hide Owned, KeepsOthers, TreeZones, Dense, Torn, FilesOf, AllExact, AllSolid, Wrote, Bared, Kept, Start, Laid,
         HasZone, FileByte;
    var w := t[ino];
    FileBytes(d, o, t, ino);
    KeptGivesOthers(ino, d, o, w.zones, d', o', iz');
    StartLaidPart(w.size, off, buf, wrote);
    FailedWriteContents(ino, d, o, w.zones, d', o', iz', w.size, Start(w.size, off), wrote);
    done := TornPart(BytesOf(d, w), off, buf, wrote);
    BytesAt(d', w);
    BytesAt(d, w);
    TableKept(d, o, d', o', ino, t, w);
    assert t[ino := w] == t;
  }

  class Volume {
    const first: nat    // s_firstdatazone
    const nzones: nat   // s_nzones
    const maxSize: nat  // s_max_size
    const ninodes: nat  // s_ninodes
    var zmap: seq<bv8>
    var hint: nat       // minix_zmap_search_start
    var disk: Disk
    var inodes: map<nat, Inode>
    ghost var free: set<nat> // the zones whose bit is set
    ghost var owner: Owners

    function Limit(): nat {
      if nzones == 0 || nzones > MAX_ZONES then MAX_ZONES else nzones
    }

    ghost predicate BitmapHolds()
      reads this`zmap, this`free
    {
      forall z: nat {:trigger FreeBit(zmap, first, z)} :: FreeBit(zmap, first, z) <==> z in free
    }

    /** The allocator agrees with the owner map: owned zones are data zones on
        the disk, covered by the bitmap and marked used. No zone below the
        search hint is free. */
    ghost predicate Core()
      reads this`zmap, this`hint, this`disk, this`owner, this`free
    {
      && 0 < first && Limit() <= |disk|
      && BitmapHolds()
      && (forall z | z in free :: first <= z && hint <= z)
      && (forall z | z in owner :: z !in free && first <= z < Limit() && z < first + 8 * |zmap|)
    }

    /** Mount a well-formed image: what its files hold is recorded in `owner` and
        marked used. The search starts at the first data zone. */
    constructor (first: nat, nzones: nat, maxSize: nat, ninodes: nat, zmap: seq<bv8>, disk: Disk, inodes: Table,
                 ghost owner: Owners)
      requires 0 < first && (if nzones == 0 || nzones > MAX_ZONES then MAX_ZONES else nzones) <= |disk|
      requires forall z | z in owner ::
                 && !FreeBit(zmap, first, z) && first <= z < first + 8 * |zmap|
                 && z < if nzones == 0 || nzones > MAX_ZONES then MAX_ZONES else nzones
      requires AllOk(disk, owner, inodes)
      ensures Valid() && hint == first && this.first == first && this.nzones == nzones && this.maxSize == maxSize &&
                this.ninodes == ninodes
      ensures this.zmap == zmap && this.disk == disk && this.inodes == inodes && this.owner == owner
    {
      hide AllOk;
      this.first, this.nzones, this.maxSize, this.ninodes := first, nzones, maxSize, ninodes;
      this.zmap, this.disk, this.inodes, this.owner := zmap, disk, inodes, owner;
      hint := first;
      free := set z: nat | z < MAX_ZONES && FreeBit(zmap, first, z);
    }

    method MarkZoneUsed(z: nat)
      requires BitmapHolds() && z in free
      modifies this`zmap, this`hint, this`free
      ensures BitmapHolds() && |zmap| == |old(zmap)|
      ensures free == old(free) - {z}
      ensures hint == if old(hint) > z + 1 then old(hint) else z + 1
    {
      assert FreeBit(zmap, first, z);
      forall y: nat ensures FreeBit(ClearBit(zmap, first, z), first, y) <==> FreeBit(zmap, first, y) && y != z {
        ClearBitEffect(zmap, first, z, y);
      }
      zmap := ClearBit(zmap, first, z);
      free := free - {z};
      if z + 1 > hint { hint := z + 1; }
    }

    /** `for (i = from; i < to; i++) if (minix_is_zone_free(i)) ...` */
    method ScanFree(from: nat, to: nat) returns (z: nat)
      requires BitmapHolds() && 0 < first <= from
      ensures z == 0 ==> forall y | from <= y < to :: y !in free
      ensures z != 0 ==> from <= z < to && z in free && forall y | from <= y < z :: y !in free
    {
      var i := from;
      while i < to
        invariant from <= i
        invariant forall y | from <= y < i :: y !in free
      {
        if FreeBit(zmap, first, i) { return i; }
        i := i + 1;
      }
      return 0;
    }

    /** The hinted search returns the lowest free zone, as a plain scan from
        the first data zone would, and fails only when no zone is free. */
    method AllocZone() returns (z: nat)
      requires Core()
      modifies this`zmap, this`hint, this`free
      ensures Core() && |zmap| == |old(zmap)|
      ensures z == 0 ==> free == old(free) && forall y | first <= y < Limit() :: y !in free
      ensures z != 0 ==> z in old(free) && z < Limit() && free == old(free) - {z}
      ensures z != 0 ==> forall y | y in old(free) :: z <= y
      ensures z != 0 ==> z < first + 8 * |zmap|
    {
      var limit := Limit();
      if first >= limit { return 0; }
      var start := hint;
      if start < first || start >= limit { start := first; }
      z := ScanFree(start, limit);
      if z == 0 { z := ScanFree(first, start); }
      if z != 0 {
        assert FreeBit(zmap, first, z);
        MarkZoneUsed(z);
      }
    }

    method FreeZone(z: nat)
      requires Core() && z !in owner
      requires first <= z < Limit() && z < first + 8 * |zmap|
      modifies this`zmap, this`hint, this`free
      ensures Core() && |zmap| == |old(zmap)|
      ensures free == old(free) + {z}
    {
      forall y: nat ensures FreeBit(SetBit(zmap, first, z), first, y) <==> FreeBit(zmap, first, y) || y == z {
        SetBitEffect(zmap, first, z, y);
      }
      zmap := SetBit(zmap, first, z);
      free := free + {z};
      if z < hint { hint := z; }
    }

    // ----- growing the tree ------------------------------------------------

    /** Allocate a zone and hook it into the empty slot `s`; a zone that will
        hold pointers is cleared on disk first. */
    method AttachZone(ghost ino: nat, iz: Zones, s: Slot) returns (z: Zone16, iz': Zones)
      requires Core() && Owned(disk, owner, ino, iz)
      requires IsSlot(s) && SlotZone(disk, iz, s) == 0 && Childless(disk, iz, s)
      requires ParentOf(s).Some? ==> SlotZone(disk, iz, ParentOf(s).value) != 0
      modifies this`zmap, this`hint, this`free, this`disk, this`owner
      ensures Core() && Owned(disk, owner, ino, iz')
      ensures z == 0 ==>
                iz' == iz && disk == old(disk) && owner == old(owner) && forall y | first <= y < Limit() :: y !in free
      ensures z == 0 ==> free == old(free) && Usable(free, Limit()) == {}
      ensures z != 0 ==> z in old(free) && z < Limit() && free == old(free) - {z} && forall y | y in old(free) :: z <= y
      ensures forall t | IsSlot(t) ::
                SlotZone(disk, iz', t) == if t == s then z else old(SlotZone(disk, iz, t))
      ensures KeepsOthers(old(disk), old(owner), disk, owner, ino)
      ensures KeepsData(old(disk), iz, disk, iz')
      ensures free + TreeZones(disk, iz') == old(free + TreeZones(disk, iz)) && |zmap| == |old(zmap)|
      ensures Bared(old(disk), old(owner), iz, disk, owner, iz', 0, 0)
    {
      hide SlotZone, BlockAt, Ptr, KeepsData, KeepsOthers, Owned, TreeZones, Bared;
      var y := AllocZone();
      KeptSelf(ino, disk, owner, iz);
      BaredSelf(disk, owner, iz, 0, 0);
      if y == 0 { return 0, iz; }
      z := y;
      HookBared(disk, owner, ino, iz, s, z, 0);
      HookEffect(disk, owner, ino, iz, s, z);
      TreeZonesStored(disk, iz, HookDisk(disk, iz, s, z), StoreZones(iz, s, z), s, 0, z);
      if IsMeta(s) { disk := disk[z := ZeroBlock()]; }
      iz' := StoreZones(iz, s, z);
      disk := StoreDisk(disk, iz, s, z);
      owner := owner[z := Owner(ino, s)];
    }

    /** A zone for slot `s`, as one step on the way to file block `idx`. */
    method AttachOnWay(ghost ino: nat, iz: Zones, s: Slot, ghost idx: nat) returns (z: Zone16, iz': Zones)
      requires Core() && Owned(disk, owner, ino, iz) && idx < MAX_LEAVES
      requires IsSlot(s) && OnPath(s, idx) && SlotZone(disk, iz, s) == 0 && Childless(disk, iz, s)
      requires ParentOf(s).Some? ==> SlotZone(disk, iz, ParentOf(s).value) != 0
      modifies this`zmap, this`hint, this`free, this`disk, this`owner
      ensures Grew(ino, iz, iz', idx)
      ensures forall t | IsSlot(t) :: SlotZone(disk, iz', t) == if t == s then z else old(SlotZone(disk, iz, t))
      ensures z == 0 ==>
                old(Lacks(disk, iz, free, Limit(), idx, idx + 1)) && forall y | first <= y < Limit() :: y !in free
      ensures z != 0 && !IsMeta(s) ==> z == old(NextZone(disk, iz, free, idx, idx))
    {
      hide Core, Owned, KeepsOthers, KeepsData, Bared, TreeZones, TookSome, Lacks, Usable, SlotZone, Missing;
      z, iz' := AttachZone(ino, iz, s);
      TookNone(old(disk), iz, old(free), Limit(), idx);
      if z == 0 {
        StoppedLacks(old(disk), iz, old(free), old(disk), iz, old(free), Limit(), idx, s);
      } else {
        TookOneMore(old(disk), iz, old(free), old(disk), iz, old(free), disk, iz', free, Limit(), idx, s, z);
        if !IsMeta(s) { LastOnWay(old(disk), iz, idx, s); }
      }
    }

    /** What holds after the tree of `ino` was grown towards file block `idx`. */
    twostate predicate Grew(ino: nat, iz: Zones, iz': Zones, idx: nat)
      reads this`zmap, this`hint, this`free, this`disk, this`owner
    {
      && Core() && Owned(disk, owner, ino, iz') && |zmap| == |old(zmap)|
      && GrewFrom(ino, old(disk), old(owner), iz, old(free), disk, owner, iz', free, Limit(), idx)
    }

    /** `minix_inode_zone_at` below MINIX_DIRECT_ZONES. */
    method ZoneAtDirect(ghost ino: nat, iz: Zones, idx: nat, allocate: bool)
      returns (err: Errno, z: Zone16, iz': Zones)
      requires Core() && Owned(disk, owner, ino, iz) && idx < DIRECT
      modifies this`zmap, this`hint, this`free, this`disk, this`owner
      ensures Grew(ino, iz, iz', idx)
      ensures !allocate ==> unchanged(this) && iz' == iz && err == OK
      ensures err == OK ==> z == LeafZone(disk, iz', idx) && (allocate ==> z != 0)
      ensures err == OK && allocate && old(LeafZone(disk, iz, idx)) == 0 ==>
                z == old(NextZone(disk, iz, free, idx, idx))
      ensures err != OK ==> err == ENOSPC && old(Lacks(disk, iz, free, Limit(), idx, idx + 1))
      ensures err != OK ==> forall y | first <= y < Limit() :: y !in free
    {
      hide Core, Owned, GrewFrom, Lacks, NextZone;
      GrewSelf(ino, disk, owner, iz, free, Limit(), idx);
      z, iz' := iz[idx], iz;
      if z == 0 {
        if !allocate { return OK, 0, iz; }
        z, iz' := AttachOnWay(ino, iz, Direct(idx), idx);
        if z == 0 { return ENOSPC, 0, iz'; }
      }
      return OK, z, iz';
    }

    /** `minix_inode_zone_at` below MINIX_DIRECT_ZONES + MINIX_INDIRECT_ZONES. */
    method ZoneAtIndirect(ghost ino: nat, iz: Zones, idx: nat, allocate: bool)
      returns (err: Errno, z: Zone16, iz': Zones)
      requires Core() && Owned(disk, owner, ino, iz) && DIRECT <= idx < DIRECT + PTRS
      modifies this`zmap, this`hint, this`free, this`disk, this`owner
      ensures Grew(ino, iz, iz', idx)
      ensures !allocate ==> unchanged(this) && iz' == iz && err == OK
      ensures err == OK ==> z == LeafZone(disk, iz', idx) && (allocate ==> z != 0 && iz'[7] != 0)
      ensures err == OK && allocate && old(LeafZone(disk, iz, idx)) == 0 ==>
                z == old(NextZone(disk, iz, free, idx, idx))
      ensures err != OK ==> err == ENOSPC && old(Lacks(disk, iz, free, Limit(), idx, idx + 1))
      ensures err != OK ==> forall y | first <= y < Limit() :: y !in free
    {
      hide Ptr, Core, GrewFrom, Lacks, NextZone;
      GrewSelf(ino, disk, owner, iz, free, Limit(), idx);
      var i := idx - DIRECT;
      iz' := iz;
      if iz[7] == 0 {
        if !allocate { return OK, 0, iz; }
        var m: Zone16;
        m, iz' := AttachOnWay(ino, iz, Ind, idx);
        if m == 0 { return ENOSPC, 0, iz'; }
      }
      assert Holds(disk, owner, ino, iz', Ind);
      z := Ptr(disk[iz'[7]], i);
      if z == 0 {
        if !allocate { return OK, 0, iz'; }
        ghost var d1, o1, iz1, f1 := disk, owner, iz', free;
        z, iz' := AttachOnWay(ino, iz', IndLeaf(i), idx);
        GrewTrans(ino, old(disk), old(owner), iz, old(free), d1, o1, iz1, f1, disk, owner, iz', free, Limit(), idx);
        if z == 0 { return ENOSPC, 0, iz'; }
      }
      return OK, z, iz';
    }

    /** Find or make the pointer block under entry `i` of the double-indirect
        block. */
    method DoubleIndirectBlock(ghost ino: nat, iz: Zones, i: nat, allocate: bool, ghost idx: nat)
      returns (err: Errno, m: Zone16, iz': Zones)
      requires Core() && Owned(disk, owner, ino, iz) && i < PTRS
      requires idx < MAX_LEAVES && OnPath(Dind, idx) && OnPath(Mid(i), idx)
      modifies this`zmap, this`hint, this`free, this`disk, this`owner
      ensures Grew(ino, iz, iz', idx)
      ensures !allocate ==> unchanged(this) && iz' == iz && err == OK
      ensures err == OK ==> m == SlotZone(disk, iz', Mid(i)) && (allocate ==> m != 0)
      ensures forall t | IsSlot(t) && !IsMeta(t) :: SlotZone(disk, iz', t) == old(SlotZone(disk, iz, t))
      ensures err != OK ==> err == ENOSPC && old(Lacks(disk, iz, free, Limit(), idx, idx + 1))
      ensures err != OK ==> forall y | first <= y < Limit() :: y !in free
    {
      hide Ptr, Core, GrewFrom, Lacks;
      GrewSelf(ino, disk, owner, iz, free, Limit(), idx);
      iz' := iz;
      if iz[8] == 0 {
        if !allocate { return OK, 0, iz; }
        m, iz' := AttachOnWay(ino, iz, Dind, idx);
        if m == 0 { return ENOSPC, 0, iz'; }
      }
      assert Holds(disk, owner, ino, iz', Dind);
      m := Ptr(disk[iz'[8]], i);
      if m == 0 {
        if !allocate { return OK, 0, iz'; }
        ghost var d1, o1, iz1, f1 := disk, owner, iz', free;
        m, iz' := AttachOnWay(ino, iz', Mid(i), idx);
        GrewTrans(ino, old(disk), old(owner), iz, old(free), d1, o1, iz1, f1, disk, owner, iz', free, Limit(), idx);
        if m == 0 { return ENOSPC, 0, iz'; }
      }
      return OK, m, iz';
    }

    /** `minix_inode_zone_at` in the double-indirect range. */
    method ZoneAtDouble(ghost ino: nat, iz: Zones, idx: nat, allocate: bool)
      returns (err: Errno, z: Zone16, iz': Zones)
      requires Core() && Owned(disk, owner, ino, iz) && DIRECT + PTRS <= idx < MAX_LEAVES
      modifies this`zmap, this`hint, this`free, this`disk, this`owner
      ensures Grew(ino, iz, iz', idx)
      ensures !allocate ==> unchanged(this) && iz' == iz && err == OK
      ensures err == OK ==> z == LeafZone(disk, iz', idx)
      ensures err == OK && allocate ==> z != 0 && iz'[8] != 0 && SlotZone(disk, iz', ParentOf(LeafSlot(idx)).value) != 0
      ensures err == OK && allocate && old(LeafZone(disk, iz, idx)) == 0 ==>
                z == old(NextZone(disk, iz, free, idx, idx))
      ensures err != OK ==> err == ENOSPC && old(Lacks(disk, iz, free, Limit(), idx, idx + 1))
      ensures err != OK ==> forall y | first <= y < Limit() :: y !in free
    {
      hide Ptr, Core, GrewFrom, Lacks, NextZone;
      var i := (idx - DIRECT - PTRS) / PTRS;
      var j := (idx - DIRECT - PTRS) % PTRS;
      var m: Zone16;
      err, m, iz' := DoubleIndirectBlock(ino, iz, i, allocate, idx);
      if err != OK { return err, 0, iz'; }
      if m == 0 { return OK, 0, iz'; }
      assert Holds(disk, owner, ino, iz', Mid(i));
      z := Ptr(disk[m], j);
      if z == 0 {
        if !allocate { return OK, 0, iz'; }
        ghost var d1, o1, iz1, f1 := disk, owner, iz', free;
        z, iz' := AttachOnWay(ino, iz', Leaf(i, j), idx);
        GrewTrans(ino, old(disk), old(owner), iz, old(free), d1, o1, iz1, f1, disk, owner, iz', free, Limit(), idx);
        if z == 0 { return ENOSPC, 0, iz'; }
      }
      return OK, z, iz';
    }

    /** `minix_inode_zone_at`: the zone of file block `idx`. Without `allocate`
        it only reads; with it, the missing blocks on the way are made, or
        the volume is full. */
    method ZoneAt(ghost ino: nat, iz: Zones, idx: nat, allocate: bool)
      returns (err: Errno, z: Zone16, iz': Zones)
      requires Core() && Owned(disk, owner, ino, iz)
      modifies this`zmap, this`hint, this`free, this`disk, this`owner
      ensures Grew(ino, iz, iz', idx)
      ensures !allocate ==> unchanged(this) && iz' == iz && err != ENOSPC
      ensures err == EFBIG <==> idx >= MAX_LEAVES
      ensures err == OK ==> z == LeafZone(disk, iz', idx)
      ensures err == OK && allocate ==> z != 0 && forall s | IsSlot(s) && OnPath(s, idx) :: SlotZone(disk, iz', s) != 0
      ensures err == OK && allocate ==> Took(old(disk), iz, old(free), disk, iz', free, Limit(), idx, idx + 1)
      ensures err != OK ==> err == EFBIG || (err == ENOSPC && forall y | first <= y < Limit() :: y !in free)
      ensures err == ENOSPC ==> old(Lacks(disk, iz, free, Limit(), idx, idx + 1))
    {
      hide Lacks, NextZone, Took, TookSome, TreeZones, Bared, Core, Owned;
      GrewSelf(ino, disk, owner, iz, free, Limit(), idx);
      if idx < DIRECT {
        err, z, iz' := ZoneAtDirect(ino, iz, idx, allocate);
      } else if idx < DIRECT + PTRS {
        err, z, iz' := ZoneAtIndirect(ino, iz, idx, allocate);
      } else if idx >= MAX_LEAVES {
        return EFBIG, 0, iz;
      } else {
        err, z, iz' := ZoneAtDouble(ino, iz, idx, allocate);
      }
      forall s | IsSlot(s) && OnPath(s, idx) && err == OK && allocate
        ensures SlotZone(disk, iz', s) != 0
      {
        PathOfLeaf(s, idx);
      }
      if err == OK && allocate { TookBlock(old(disk), iz, old(free), disk, iz', free, Limit(), idx); }
    }

    // ----- writing data ----------------------------------------------------

    /** Put `chunk` inside the block, already backed by zone `z`, that holds
        file position `pos`. A whole block is written directly, a part of one
        by reading the block, overlaying and writing it back. */
    method StoreChunk(ghost ino: nat, ghost iz: Zones, z: Zone16, pos: nat, chunk: seq<Byte>, direct: bool)
      requires Core() && Owned(disk, owner, ino, iz)
      requires pos < MAX_BYTES && pos % BLOCK_SIZE + |chunk| <= BLOCK_SIZE
      requires z == LeafZone(disk, iz, pos / BLOCK_SIZE) && z != 0
      requires direct ==> |chunk| == BLOCK_SIZE
      modifies this`disk
      ensures Wrote(old(disk), iz, disk, iz, pos, chunk)
      ensures Core() && Owned(disk, owner, ino, iz)
      ensures KeepsOthers(old(disk), owner, disk, owner, ino)
      ensures forall t | IsSlot(t) :: SlotZone(disk, iz, t) == old(SlotZone(disk, iz, t))
      ensures TreeZones(disk, iz) == old(TreeZones(disk, iz))
      ensures Bared(old(disk), owner, iz, disk, owner, iz, pos, pos + |chunk|)
    {
      hide TreeZones;
      var off := pos % BLOCK_SIZE;
      SpliceIsWrite(disk, owner, ino, iz, pos, chunk);
      DataWriteEffect(disk, owner, ino, iz, pos / BLOCK_SIZE, Splice(disk[z], off, chunk));
      if direct {
        assert Splice(disk[z], off, chunk) == chunk;
        disk := disk[z := chunk];
      } else {
        var buffer := disk[z];
        disk := disk[z := Splice(buffer, off, chunk)];
      }
      TreeZonesSame(old(disk), iz, disk);
    }

    /** One turn of the write loop. */
    method PutChunk(ghost ino: nat, iz: Zones, pos: nat, chunk: seq<Byte>, direct: bool, ghost n: nat)
      returns (err: Errno, iz': Zones)
      requires Core() && Owned(disk, owner, ino, iz) && pos <= MAX_BYTES
      requires pos % BLOCK_SIZE + |chunk| <= BLOCK_SIZE && |chunk| > 0
      requires direct ==> |chunk| == BLOCK_SIZE
      modifies this`zmap, this`hint, this`free, this`disk, this`owner
      ensures Core() && Owned(disk, owner, ino, iz') && |zmap| == |old(zmap)|
      ensures Written(ino, old(disk), old(owner), iz, old(free), disk, owner, iz', free, pos, if err == OK then
                chunk else [])
      ensures err == OK ==>
                Took(old(disk), iz, old(free), disk, iz', free, Limit(), pos / BLOCK_SIZE, pos / BLOCK_SIZE + 1)
      ensures err == EFBIG <==> pos >= MAX_BYTES
      ensures err != OK ==> err == EFBIG || (err == ENOSPC && forall y | first <= y < Limit() :: y !in free)
      ensures err == ENOSPC ==> old(Lacks(disk, iz, free, Limit(), pos / BLOCK_SIZE, pos / BLOCK_SIZE + 1))
      ensures err == OK && old(ExactShape(disk, iz, n)) && pos / BLOCK_SIZE <= n ==>
                ExactShape(disk, iz', if pos / BLOCK_SIZE < n then n else n + 1)
    {
      hide Owned, Wrote, Core, BlockAt, SlotZone, KeepsData, TreeZones, Bared, Took, TookSome, Lacks;
      var idx := pos / BLOCK_SIZE;
      var z: Zone16;
      err, z, iz' := ZoneAt(ino, iz, idx, true);
      WroteNothing(old(disk), iz, disk, iz', pos);
      BaredAnywhere(old(disk), old(owner), iz, disk, owner, iz', pos);
      if err != OK { return err, iz'; }
      if old(ExactShape(disk, iz, n)) && idx <= n { ExactGrows(old(disk), iz, disk, iz', n, idx); }
      ghost var d1 := disk;
      StoreChunk(ino, iz', z, pos, chunk, direct);
      WroteMore(old(disk), iz, d1, iz', disk, iz', pos, [], chunk);
      assert [] + chunk == chunk;
      StoreIsZoned(d1, iz', disk, pos, chunk);
      BaredTrans(old(disk), old(owner), iz, d1, owner, iz', disk, owner, iz', pos, pos, pos + |chunk|);
      TookThenStored(old(disk), iz, old(free), d1, iz', free, disk, Limit(), idx, idx + 1);
    }

    /** The copy loop of `minix_fs_pwrite_at`. `addr` is the address of the
        caller's buffer: whole blocks go out directly only from an even one.
        On an error the first `done` bytes have been written. */
    method PutBytes(ghost ino: nat, iz: Zones, start: nat, data: seq<Byte>, addr: nat, ghost n: nat)
      returns (err: Errno, iz': Zones, ghost done: nat)
      requires Core() && Owned(disk, owner, ino, iz) && start <= MAX_BYTES
      modifies this`zmap, this`hint, this`free, this`disk, this`owner
      ensures Core() && Owned(disk, owner, ino, iz') && |zmap| == |old(zmap)|
      ensures done <= |data| && (err == OK ==> done == |data|)
      ensures Written(ino, old(disk), old(owner), iz, old(free), disk, owner, iz', free, start, data[..done])
      ensures err == OK ==>
                Took(old(disk), iz, old(free), disk, iz', free, Limit(), start / BLOCK_SIZE,
                Upto(start, start + |data|))
      ensures err == old(RoomFor(disk, iz, free, Limit(), start, start + |data|))
      ensures err != OK ==> StopsAt(old(disk), iz, old(free), Limit(), start, start + done)
      ensures err == ENOSPC ==> forall y | first <= y < Limit() :: y !in free
      ensures err == OK && old(ExactShape(disk, iz, n)) && start <= n * BLOCK_SIZE ==>
                ExactShape(disk, iz', Reach(n, start, start + |data|))
    {
      hide Core, Written, ExactShape, Owned, Reach, Limit, Took, RoomFor, Lacks, Upto;
      ReachStart(n, start);
      var i := 0;
      iz' := iz;
      NothingWritten(ino, disk, owner, iz, free, start);
      TookStart(disk, iz, free, Limit(), start);
      while i < |data|
        invariant i <= |data| && start + i <= MAX_BYTES
        invariant Core() && Owned(disk, owner, ino, iz') && |zmap| == |old(zmap)|
        invariant Written(ino, old(disk), old(owner), iz, old(free), disk, owner, iz', free, start, data[..i])
        invariant Took(old(disk), iz, old(free), disk, iz', free, Limit(), start / BLOCK_SIZE, Upto(start, start + i))
        invariant old(ExactShape(disk, iz, n)) && start <= n * BLOCK_SIZE ==>
                  ExactShape(disk, iz', Reach(n, start, start + i))
      {
        var pos := start + i;
        var chunk := BLOCK_SIZE - pos % BLOCK_SIZE;
        if chunk > |data| - i { chunk := |data| - i; }
        if start <= n * BLOCK_SIZE { ReachStep(n, start, pos, chunk); }
        ghost var d1, o1, iz1, f1 := disk, owner, iz', free;
        err, iz' := PutChunk(ino, iz', pos, data[i..i + chunk],
            pos % BLOCK_SIZE == 0 && chunk == BLOCK_SIZE && (addr + i) % 2 == 0, Reach(n, start, pos));
        ghost var put := if err == OK then data[i..i + chunk] else [];
        WrittenMore(ino, old(disk), old(owner), iz, old(free), d1, o1, iz1, f1, disk, owner, iz', free, start,
            data[..i], put);
        if err != OK {
          Stopped(old(disk), iz, old(free), d1, iz1, f1, Limit(), start, pos, start + |data|, err);
          Stopped(old(disk), iz, old(free), d1, iz1, f1, Limit(), start, pos, pos + 1, err);
          TookRoom(old(disk), iz, old(free), d1, iz1, f1, Limit(), start, pos);
          assert data[..i] + [] == data[..i];
          return err, iz', i;
        }
        TookChunk(old(disk), iz, old(free), d1, iz1, f1, disk, iz', free, Limit(), start, pos, chunk);
        assert data[..i] + data[i..i + chunk] == data[..i + chunk];
        i := i + chunk;
      }
      TookRoom(old(disk), iz, old(free), disk, iz', free, Limit(), start, start + |data|);
      return OK, iz', |data|;
    }

    /** `minix_inode_zero_range` */
    method ZeroRange(ghost ino: nat, iz: Zones, start: nat, end: nat, ghost n: nat)
      returns (err: Errno, iz': Zones, ghost done: nat)
      requires Core() && Owned(disk, owner, ino, iz) && start <= MAX_BYTES && start <= end
      modifies this`zmap, this`hint, this`free, this`disk, this`owner
      ensures Core() && Owned(disk, owner, ino, iz') && |zmap| == |old(zmap)|
      ensures done <= end - start && (err == OK ==> done == end - start)
      ensures Written(ino, old(disk), old(owner), iz, old(free), disk, owner, iz', free, start, Zeros(done))
      ensures err == OK ==>
                Took(old(disk), iz, old(free), disk, iz', free, Limit(), start / BLOCK_SIZE, Upto(start, end))
      ensures err == old(RoomFor(disk, iz, free, Limit(), start, end))
      ensures err == ENOSPC ==> forall y | first <= y < Limit() :: y !in free
      ensures err == OK && old(ExactShape(disk, iz, n)) && start <= n * BLOCK_SIZE ==>
                ExactShape(disk, iz', Reach(n, start, end))
    {
      hide Core, Written, ExactShape, Owned, Reach, Limit, Took, RoomFor, Lacks, Upto;
      ReachStart(n, start);
      var pos := start;
      iz' := iz;
      NothingWritten(ino, disk, owner, iz, free, start);
      TookStart(disk, iz, free, Limit(), start);
      assert Zeros(0) == [];
      while pos < end
        invariant start <= pos <= end && pos <= MAX_BYTES
        invariant Core() && Owned(disk, owner, ino, iz') && |zmap| == |old(zmap)|
        invariant Written(ino, old(disk), old(owner), iz, old(free), disk, owner, iz', free, start, Zeros(pos - start))
        invariant Took(old(disk), iz, old(free), disk, iz', free, Limit(), start / BLOCK_SIZE, Upto(start, pos))
        invariant old(ExactShape(disk, iz, n)) && start <= n * BLOCK_SIZE ==>
                  ExactShape(disk, iz', Reach(n, start, pos))
      {
        var chunk := BLOCK_SIZE - pos % BLOCK_SIZE;
        if chunk > end - pos { chunk := end - pos; }
        if start <= n * BLOCK_SIZE { ReachStep(n, start, pos, chunk); }
        ghost var d1, o1, iz1, f1 := disk, owner, iz', free;
        err, iz' := PutChunk(ino, iz', pos, Zeros(chunk), pos % BLOCK_SIZE == 0 && chunk == BLOCK_SIZE, Reach(n, start,
            pos));
        ghost var put := if err == OK then Zeros(chunk) else [];
        WrittenMore(ino, old(disk), old(owner), iz, old(free), d1, o1, iz1, f1, disk, owner, iz', free, start,
            Zeros(pos - start), put);
        if err != OK {
          Stopped(old(disk), iz, old(free), d1, iz1, f1, Limit(), start, pos, end, err);
          assert Zeros(pos - start) + [] == Zeros(pos - start);
          return err, iz', pos - start;
        }
        TookChunk(old(disk), iz, old(free), d1, iz1, f1, disk, iz', free, Limit(), start, pos, chunk);
        assert Zeros(pos - start) + Zeros(chunk) == Zeros(pos - start + chunk);
        pos := pos + chunk;
      }
      TookRoom(old(disk), iz, old(free), disk, iz', free, Limit(), start, end);
      return OK, iz', end - start;
    }

    // ----- shrinking the tree ----------------------------------------------

    /** Free the zone in slot `s` and clear the slot. */
    method DetachZone(ghost ino: nat, iz: Zones, s: Slot) returns (iz': Zones)
      requires Core() && Owned(disk, owner, ino, iz)
      requires IsSlot(s) && SlotZone(disk, iz, s) != 0 && Childless(disk, iz, s)
      modifies this`zmap, this`hint, this`free, this`disk, this`owner
      ensures Core() && Owned(disk, owner, ino, iz')
      ensures forall t | IsSlot(t) ::
                SlotZone(disk, iz', t) == if t == s then 0 else old(SlotZone(disk, iz, t))
      ensures KeepsOthers(old(disk), old(owner), disk, owner, ino)
      ensures KeepsData(disk, iz', old(disk), iz)
      ensures free + TreeZones(disk, iz') == old(free + TreeZones(disk, iz)) && |zmap| == |old(zmap)|
      ensures free == old(free) + {old(SlotZone(disk, iz, s))} && old(SlotZone(disk, iz, s)) !in old(free)
    {
      hide BlockAt, Ptr, KeepsData, KeepsOthers, TreeZones;
      assert Holds(disk, owner, ino, iz, s);
      CutEffect(disk, owner, ino, iz, s);
      CutTreeZones(disk, owner, ino, iz, s);
      var z := SlotZone(disk, iz, s);
      owner := owner - {z};
      FreeZone(z);
      iz' := StoreZones(iz, s, 0);
      disk := StoreDisk(disk, iz, s, 0);
    }

    /** Free the pointer block in slot `m` if nothing hangs below it any more. */
    method PruneIfEmpty(ghost ino: nat, iz: Zones, m: Slot, ghost a: nat, ghost j: nat, ghost n: nat)
      returns (iz': Zones)
      requires Core() && Owned(disk, owner, ino, iz)
      requires IsSlot(m) && IsMeta(m) && SlotZone(disk, iz, m) != 0
      modifies this`zmap, this`hint, this`free, this`disk, this`owner
      ensures Core() && Owned(disk, owner, ino, iz')
      ensures KeepsOthers(old(disk), old(owner), disk, owner, ino)
      ensures LeavesCut(old(disk), iz, disk, iz', j, j)
      ensures free + TreeZones(disk, iz') == old(free + TreeZones(disk, iz)) && |zmap| == |old(zmap)|
      ensures forall t | IsSlot(t) && t != m :: SlotZone(disk, iz', t) == old(SlotZone(disk, iz, t))
      ensures SlotZone(disk, iz', m) == 0 || (iz' == iz && disk == old(disk))
      ensures n <= MAX_LEAVES && a <= MAX_LEAVES
              && old(forall t | IsSlot(t) && ParentOf(t) == Some(m) :: SlotZone(disk, iz, t) != 0 <==> Hits(t, a, j, n))
              ==> (SlotZone(disk, iz', m) != 0 <==> Hits(m, a, j, n))
      ensures old(free) <= free
    {
      hide Ptr, BlockAt, Hits, KeepsData, KeepsOthers, TreeZones;
      assert Holds(disk, owner, ino, iz, m);
      ChildlessIffEmpty(disk, iz, m);
      KeptSelf(ino, disk, owner, iz);
      if n <= MAX_LEAVES && a <= MAX_LEAVES
         && (forall t | IsSlot(t) && ParentOf(t) == Some(m) :: SlotZone(disk, iz, t) != 0 <==> Hits(t, a, j, n)) {
        NeededIffChild(disk, iz, m, a, j, n);
      }
      iz' := iz;
      var empty := IsEmptyPointerBlock(BlockAt(disk, SlotZone(disk, iz, m)));
      if empty { iz' := DetachZone(ino, iz, m); }
      PruneIsLeavesCut(old(disk), iz, disk, iz', j);
    }

    /** What holds after file block `idx` was released: its zone is gone, every
        other block is as it was, and a tree serving [0, a) + [idx, n) now
        serves [0, a) + [idx + 1, n). */
    twostate predicate Released(ino: nat, iz: Zones, iz': Zones, idx: nat, a: nat, n: nat)
      reads this`zmap, this`hint, this`free, this`disk, this`owner
    {
      && Core() && Owned(disk, owner, ino, iz')
      && KeepsOthers(old(disk), old(owner), disk, owner, ino)
      && LeavesCut(old(disk), iz, disk, iz', idx, idx + 1)
      && free + TreeZones(disk, iz') == old(free + TreeZones(disk, iz)) && |zmap| == |old(zmap)|
      && (old(Shape(disk, iz, a, idx, n)) && a <= idx < n <= MAX_LEAVES ==> Shape(disk, iz', a, idx + 1, n))
      && Freed(old(free), free, old(disk), iz, idx, idx + 1)
    }

    method ReleaseDirect(ghost ino: nat, iz: Zones, idx: nat, ghost a: nat, ghost n: nat) returns (iz': Zones)
      requires Core() && Owned(disk, owner, ino, iz) && idx < DIRECT && LeafZone(disk, iz, idx) != 0
      modifies this`zmap, this`hint, this`free, this`disk, this`owner
      ensures Released(ino, iz, iz', idx, a, n)
    {
      hide BlockAt, Ptr, KeepsOthers, KeepsData, LeavesCut, Core, Owned, TreeZones;
      iz' := DetachZone(ino, iz, Direct(idx));
      CutLeafIsLeavesCut(old(disk), iz, disk, iz', idx);
      if old(Shape(disk, iz, a, idx, n)) && a <= idx < n <= MAX_LEAVES {
        ShapeAfterLeafCut(old(disk), iz, disk, iz', a, idx, n);
      }
    }

    method ReleaseIndirect(ghost ino: nat, iz: Zones, idx: nat, ghost a: nat, ghost n: nat) returns (iz': Zones)
      requires Core() && Owned(disk, owner, ino, iz)
      requires DIRECT <= idx < DIRECT + PTRS && LeafZone(disk, iz, idx) != 0
      modifies this`zmap, this`hint, this`free, this`disk, this`owner
      ensures Released(ino, iz, iz', idx, a, n)
    {
      hide BlockAt, Ptr, KeepsOthers, KeepsData, LeavesCut, Core, Owned, Hits, TreeZones;
      iz' := DetachZone(ino, iz, IndLeaf(idx - DIRECT));
      CutLeafIsLeavesCut(old(disk), iz, disk, iz', idx);
      ghost var exact := old(Shape(disk, iz, a, idx, n)) && a <= idx < n <= MAX_LEAVES;
      if exact { ShapeAfterLeafCut(old(disk), iz, disk, iz', a, idx, n); }
      ghost var d1, o1, iz1 := disk, owner, iz';
      iz' := PruneIfEmpty(ino, iz', Ind, a, idx + 1, n);
      LeavesCutTrans(old(disk), iz, d1, iz1, disk, iz', idx, idx + 1, idx + 1);
      KeepsOthersTrans(old(disk), old(owner), d1, o1, disk, owner, ino);
    }

    method ReleaseDouble(ghost ino: nat, iz: Zones, idx: nat, ghost a: nat, ghost n: nat) returns (iz': Zones)
      requires Core() && Owned(disk, owner, ino, iz)
      requires DIRECT + PTRS <= idx < MAX_LEAVES && LeafZone(disk, iz, idx) != 0
      modifies this`zmap, this`hint, this`free, this`disk, this`owner
      ensures Released(ino, iz, iz', idx, a, n)
    {
      hide BlockAt, Ptr, KeepsOthers, KeepsData, LeavesCut, Core, Owned, Hits, TreeZones;
      ghost var exact := old(Shape(disk, iz, a, idx, n)) && a <= idx < n <= MAX_LEAVES;
      var s := LeafSlot(idx);
      iz' := DetachZone(ino, iz, s);
      CutLeafIsLeavesCut(old(disk), iz, disk, iz', idx);
      if exact { ShapeAfterLeafCut(old(disk), iz, disk, iz', a, idx, n); }
      ghost var d1, o1, iz1 := disk, owner, iz';
      iz' := PruneIfEmpty(ino, iz', Mid(s.i), a, idx + 1, n);
      LeavesCutTrans(old(disk), iz, d1, iz1, disk, iz', idx, idx + 1, idx + 1);
      KeepsOthersTrans(old(disk), old(owner), d1, o1, disk, owner, ino);
      if Child(disk, iz'[8], s.i) == 0 {
        ghost var d2, o2, iz2 := disk, owner, iz';
        iz' := PruneIfEmpty(ino, iz', Dind, a, idx + 1, n);
        LeavesCutTrans(old(disk), iz, d2, iz2, disk, iz', idx, idx + 1, idx + 1);
        KeepsOthersTrans(old(disk), old(owner), d2, o2, disk, owner, ino);
      } else {
        if exact { HitsBelowDind(s.i, a, idx + 1, n); }
      }
    }

    /** `minix_inode_release_zone_at`: the inode is written back whenever one
        of its own zone numbers was cleared. */
    method ReleaseZoneAt(ino: nat, w: Inode, idx: nat, ghost a: nat, ghost n: nat) returns (w': Inode)
      requires Core() && Owned(disk, owner, ino, w.zones) && idx < MAX_LEAVES
      modifies this`zmap, this`hint, this`free, this`disk, this`owner, this`inodes
      ensures Released(ino, w.zones, w'.zones, idx, a, n)
      ensures w' == w.(zones := w'.zones)
      ensures (w' == w && inodes == old(inodes)) || inodes == old(inodes)[ino := w']
    {
      hide BlockAt, Ptr, KeepsOthers, KeepsData, Core, Owned, Hits, SlotZone, TreeZones;
      w' := w;
      if LeafZone(disk, w.zones, idx) == 0 {
        NothingToRelease(ino, disk, owner, w.zones, idx, a, n);
        return;
      }
      var iz': Zones;
      if idx < DIRECT {
        iz' := ReleaseDirect(ino, w.zones, idx, a, n);
      } else if idx < DIRECT + PTRS {
        iz' := ReleaseIndirect(ino, w.zones, idx, a, n);
      } else {
        iz' := ReleaseDouble(ino, w.zones, idx, a, n);
      }
      w' := w.(zones := iz');
      if iz' != w.zones { inodes := inodes[ino := w']; }
    }

    /** `minix_inode_truncate_zones` */
    method TruncateZones(ino: nat, w: Inode, oldSize: nat, newSize: nat) returns (w': Inode)
      requires Core() && Owned(disk, owner, ino, w.zones)
      requires newSize <= oldSize <= MAX_BYTES
      modifies this`zmap, this`hint, this`free, this`disk, this`owner, this`inodes
      ensures Core() && Owned(disk, owner, ino, w'.zones)
      ensures KeepsOthers(old(disk), old(owner), disk, owner, ino)
      ensures LeavesCut(old(disk), w.zones, disk, w'.zones, ZoneCount(newSize), ZoneCount(oldSize))
      ensures free + TreeZones(disk, w'.zones) == old(free + TreeZones(disk, w.zones)) && |zmap| == |old(zmap)|
      ensures old(ExactShape(disk, w.zones, ZoneCount(oldSize))) ==> ExactShape(disk, w'.zones, ZoneCount(newSize))
      ensures Freed(old(free), free, old(disk), w.zones, ZoneCount(newSize), ZoneCount(oldSize))
      ensures w' == w.(zones := w'.zones)
      ensures (w' == w && inodes == old(inodes)) || inodes == old(inodes)[ino := w']
    {
      hide BlockAt, Ptr, KeepsOthers, KeepsData, Core, Owned, Hits, SlotZone, LeavesCut, Shape, TreeZones, HasLeaf,
           Freed;
      w' := w;
      var idx := ZoneCount(newSize);
      var n := ZoneCount(oldSize);
      ZoneCountMonotone(newSize, oldSize);
      KeptSelf(ino, disk, owner, w.zones);
      PruneIsLeavesCut(disk, w.zones, disk, w.zones, idx);
      ShapeSplit(disk, w.zones, n, idx);
      FreedNone(free, disk, w.zones, idx);
      while idx < n
        invariant ZoneCount(newSize) <= idx <= n <= MAX_LEAVES
        invariant Core() && Owned(disk, owner, ino, w'.zones)
        invariant KeepsOthers(old(disk), old(owner), disk, owner, ino)
        invariant LeavesCut(old(disk), w.zones, disk, w'.zones, ZoneCount(newSize), idx)
        invariant free + TreeZones(disk, w'.zones) == old(free + TreeZones(disk, w.zones)) && |zmap| == |old(zmap)|
        invariant old(ExactShape(disk, w.zones, n)) ==> Shape(disk, w'.zones, ZoneCount(newSize), idx, n)
        invariant Freed(old(free), free, old(disk), w.zones, ZoneCount(newSize), idx)
        invariant w' == w.(zones := w'.zones)
        invariant (w' == w && inodes == old(inodes)) || inodes == old(inodes)[ino := w']
      {
        ghost var d1, o1, iz1, f1 := disk, owner, w'.zones, free;
        w' := ReleaseZoneAt(ino, w', idx, ZoneCount(newSize), n);
        FreedMore(old(free), f1, free, old(disk), w.zones, d1, iz1, ZoneCount(newSize), idx);
        KeepsOthersTrans(old(disk), old(owner), d1, o1, disk, owner, ino);
        LeavesCutTrans(old(disk), w.zones, d1, iz1, disk, w'.zones, ZoneCount(newSize), idx, idx + 1);
        idx := idx + 1;
      }
      ShapeDone(disk, w'.zones, ZoneCount(newSize), n);
    }

    // ----- freeing a whole file ---------------------------------------------

    /** `minix_free_zone` on the zone of slot `s`, whose turn it is. `o` is the
        owner map before the first one was freed. */
    method FreeSlot(ghost ino: nat, ghost iz: Zones, ghost o: Owners, ghost s: Slot, z: Zone16)
      requires Core() && Owned(disk, o, ino, iz) && IsSlot(s) && z == SlotZone(disk, iz, s)
      requires forall y | y in o :: first <= y < Limit() && y < first + 8 * |zmap|
      requires owner == OwnersFrom(disk, o, ino, iz, Rank(s))
      modifies this`zmap, this`hint, this`free, this`owner
      ensures Core() && owner == OwnersFrom(disk, o, ino, iz, Rank(s) + 1)
      ensures free + owner.Keys == old(free + owner.Keys) && |zmap| == |old(zmap)|
    {
      hide SlotZone, Rank, Owned, OwnersFrom, TreeZones;
      OwnersStep(disk, o, ino, iz, s);
      if z != 0 {
        OwnersHere(disk, o, ino, iz, s);
        owner := owner - {z};
        FreeZone(z);
      }
    }

    /** `minix_inode_free_indirect_block` on the block in slot `m`. */
    method FreePointerBlock(ghost ino: nat, ghost iz: Zones, ghost o: Owners, ghost m: Slot, mz: Zone16)
      requires Core() && Owned(disk, o, ino, iz) && (m.Ind? || m.Mid?) && IsSlot(m) && mz == SlotZone(disk, iz, m)
      requires forall y | y in o :: first <= y < Limit() && y < first + 8 * |zmap|
      requires owner == OwnersFrom(disk, o, ino, iz, Rank(m) - PTRS)
      modifies this`zmap, this`hint, this`free, this`owner
      ensures Core() && owner == OwnersFrom(disk, o, ino, iz, Rank(m) + 1)
      ensures free + owner.Keys == old(free + owner.Keys) && |zmap| == |old(zmap)|
    {
      hide Owned, OwnersFrom, Ptr, TreeZones;
      if mz == 0 {
        OwnersSkip(disk, o, ino, iz, Rank(m) - PTRS, Rank(m) + 1);
        return;
      }
      assert mz < |disk| by { MetaOnDisk(disk, o, ino, iz, m); }
      for i := 0 to PTRS
        invariant Core() && owner == OwnersFrom(disk, o, ino, iz, Rank(m) - PTRS + i)
        invariant free + owner.Keys == old(free + owner.Keys) && |zmap| == |old(zmap)|
      {
        ghost var s := if m == Ind then IndLeaf(i) else Leaf(m.i, i);
        FreeSlot(ino, iz, o, s, Ptr(disk[mz], i));
      }
      FreeSlot(ino, iz, o, m, mz);
    }

    /** `minix_inode_free_direct_zones` */
    method FreeDirectZones(ghost ino: nat, iz: Zones, ghost o: Owners)
      requires Core() && Owned(disk, o, ino, iz)
      requires forall y | y in o :: first <= y < Limit() && y < first + 8 * |zmap|
      requires owner == OwnersFrom(disk, o, ino, iz, 0)
      modifies this`zmap, this`hint, this`free, this`owner
      ensures Core() && owner == OwnersFrom(disk, o, ino, iz, DIRECT)
      ensures free + owner.Keys == old(free + owner.Keys) && |zmap| == |old(zmap)|
    {
      hide Owned, OwnersFrom, TreeZones;
      for i := 0 to DIRECT
        invariant Core() && owner == OwnersFrom(disk, o, ino, iz, i)
        invariant free + owner.Keys == old(free + owner.Keys) && |zmap| == |old(zmap)|
      {
        FreeSlot(ino, iz, o, Direct(i), iz[i]);
      }
    }

    /** `minix_inode_free_double_indirect_tree` */
    method FreeDoubleIndirectTree(ghost ino: nat, iz: Zones, ghost o: Owners)
      requires Core() && Owned(disk, o, ino, iz)
      requires forall y | y in o :: first <= y < Limit() && y < first + 8 * |zmap|
      requires owner == OwnersFrom(disk, o, ino, iz, DIRECT + PTRS + 1)
      modifies this`zmap, this`hint, this`free, this`owner
      ensures Core() && owner == OwnersFrom(disk, o, ino, iz, RANKS)
      ensures free + owner.Keys == old(free + owner.Keys) && |zmap| == |old(zmap)|
    {
      hide Owned, OwnersFrom, Ptr, TreeZones;
      if iz[8] == 0 {
        OwnersSkip(disk, o, ino, iz, DIRECT + PTRS + 1, RANKS);
        return;
      }
      assert iz[8] < |disk| by { MetaOnDisk(disk, o, ino, iz, Dind); }
      for i := 0 to PTRS
        invariant Core() && owner == OwnersFrom(disk, o, ino, iz, DIRECT + PTRS + 1 + (PTRS + 1) * i)
        invariant free + owner.Keys == old(free + owner.Keys) && |zmap| == |old(zmap)|
      {
        FreePointerBlock(ino, iz, o, Mid(i), Ptr(disk[iz[8]], i));
      }
      FreeSlot(ino, iz, o, Dind, iz[8]);
    }

    /** `minix_inode_free_all_zones`: every zone of the file, and no other,
        becomes free. */
    method FreeAllZones(ghost ino: nat, iz: Zones) returns (iz': Zones)
      requires Core() && Owned(disk, owner, ino, iz)
      modifies this`zmap, this`hint, this`free, this`owner
      ensures Core() && iz' == NO_ZONES && Owned(disk, owner, ino, iz') && ExactShape(disk, iz', 0)
      ensures free == old(free) + TreeZones(disk, iz) && old(free) !! TreeZones(disk, iz)
      ensures owner == old(owner) - TreeZones(disk, iz)
      ensures KeepsOthers(disk, old(owner), disk, owner, ino)
      ensures |zmap| == |old(zmap)|
    {
      hide SlotZone, InTree, TreeZones, OwnersFrom;
      ghost var o := owner;
      OwnersEnd(disk, o, ino, iz);
      FreeDirectZones(ino, iz, o);
      IndRank(disk, iz);
      FreePointerBlock(ino, iz, o, Ind, iz[7]);
      FreeDoubleIndirectTree(ino, iz, o);
      NoZonesShape(disk, owner, ino);
      TreeZonesOwned(disk, o, ino, iz);
      return NO_ZONES;
    }

    // ----- the file operations ----------------------------------------------

    ghost predicate Valid()
      reads this`zmap, this`hint, this`free, this`disk, this`owner, this`inodes
    {
      Core() && AllOk(disk, owner, inodes)
    }

    ghost function Files(): map<nat, seq<Byte>>
      reads this`disk, this`inodes
    {
      FilesOf(disk, inodes)
    }

    ghost function Bytes(f: nat): seq<Byte>
      reads this`disk, this`inodes
    {
      if f in inodes then BytesOf(disk, inodes[f]) else []
    }

    /** `minix_fs_pread_at`: the requested slice of the file's bytes. */
    method PreadAt(ino: nat, count: nat, offset: int) returns (err: Errno, data: seq<Byte>)
      requires Valid()
      modifies this`zmap, this`hint, this`free, this`disk, this`owner
      ensures unchanged(this)
      ensures err == if count == 0 then OK else if offset < 0 then EINVAL
                     else if ino !in inodes then ENOENT else if inodes[ino].isDir then EISDIR else OK
      ensures err == OK ==> data == if count == 0 then [] else Slice(Bytes(ino), offset, count)
    {
      hide Owned, Core, SlotZone, LeafSlot, BlockAt, GrewFrom, Took, Lacks;
      data := [];
      if count == 0 { return OK, []; }
      if offset < 0 { return EINVAL, []; }
      if ino !in inodes { return ENOENT, []; }
      var w := inodes[ino];
      if w.isDir { return EISDIR, []; }
      if offset >= w.size { return OK, []; }
      assert FileOk(disk, owner, ino, w);
      var toRead := if offset + count > w.size then w.size - offset else count;
      while |data| < toRead
        invariant |data| <= toRead && unchanged(this)
        invariant forall k | 0 <= k < |data| :: data[k] == FileByte(disk, w.zones, offset + k)
      {
        var pos := offset + |data|;
        var off := pos % BLOCK_SIZE;
        var chunk := BLOCK_SIZE - off;
        if chunk > toRead - |data| { chunk := toRead - |data|; }
        var e, z, iz' := ZoneAt(ino, w.zones, pos / BLOCK_SIZE, false);
        forall k | pos <= k < pos + chunk
          ensures FileByte(disk, w.zones, k) == if z == 0 then 0 else BlockAt(disk, z)[off + (k - pos)]
        {
          assert k / BLOCK_SIZE == pos / BLOCK_SIZE && k % BLOCK_SIZE == off + (k - pos);
        }
        if z == 0 {
          data := data + Zeros(chunk);
        } else {
          data := data + BlockAt(disk, z)[off..off + chunk];
        }
      }
      return OK, data;
    }

    /** The part of `minix_fs_pwrite_at` that works on the local inode copy:
        zero the gap past the old end, then copy. `wrote` is how far it came. */
    method WriteThrough(ghost ino: nat, w: Inode, buf: seq<Byte>, offset: nat, addr: nat)
      returns (err: Errno, iz': Zones, ghost wrote: seq<Byte>)
      requires Core() && FileOk(disk, owner, ino, w) && !w.isDir && buf != []
      modifies this`zmap, this`hint, this`free, this`disk, this`owner
      ensures Core() && Owned(disk, owner, ino, iz') && |zmap| == |old(zmap)|
      ensures wrote <= Laid(w.size, offset, buf) && (err == OK ==> wrote == Laid(w.size, offset, buf))
      ensures Written(ino, old(disk), old(owner), w.zones, old(free), disk, owner, iz', free, Start(w.size, offset),
                wrote)
      ensures err == OK ==>
                Took(old(disk), w.zones, old(free), disk, iz', free, Limit(), Start(w.size, offset) / BLOCK_SIZE,
                    Upto(Start(w.size, offset), offset + |buf|))
      ensures err == old(RoomFor(disk, w.zones, free, Limit(), Start(w.size, offset), offset + |buf|))
      ensures err != OK && offset <= w.size ==>
                StopsAt(old(disk), w.zones, old(free), Limit(), offset, offset + |wrote|)
      ensures err == ENOSPC ==> forall y | first <= y < Limit() :: y !in free
      ensures err == OK && old(Exact(disk, w)) ==> ExactShape(disk, iz', ZoneCount(Max(w.size, offset + |buf|)))
    {
      hide Core, Owned, Written, ExactShape, Limit, Took, RoomFor, Upto, ZoneCount;
      ghost var n := ZoneCount(w.size);
      ReachSizes(w.size, offset, |buf|);
      if offset <= w.size {
        ghost var done;
        err, iz', done := PutBytes(ino, w.zones, offset, buf, addr, ZoneCount(Max(w.size, offset)));
        wrote := buf[..done];
        LaidPlain(w.size, offset, buf, done);
      } else {
        ghost var done;
        err, iz', done := ZeroRange(ino, w.zones, w.size, offset, n);
        wrote := Zeros(done);
        LaidZeros(w.size, offset, buf, done);
        if err != OK {
          NoRoomEarly(old(disk), w.zones, old(free), Limit(), w.size, offset, offset + |buf|);
          return;
        }
        ghost var d1, o1, iz1, f1 := disk, owner, iz', free;
        WrittenEnd(ino, old(disk), old(owner), w.zones, old(free), d1, o1, iz1, f1, w.size, wrote);
        err, iz', done := PutBytes(ino, iz', offset, buf, addr, ZoneCount(Max(w.size, offset)));
        WrittenMore(ino, old(disk), old(owner), w.zones, old(free), d1, o1, iz1, f1, disk, owner, iz', free, w.size,
            wrote, buf[..done]);
        RoomAfter(old(disk), w.zones, old(free), d1, iz1, f1, Limit(), w.size, offset, offset + |buf|);
        wrote := wrote + buf[..done];
        LaidPart(w.size, offset, buf, done);
        if err == OK { TookOn(old(disk), w.zones, old(free), d1, iz1, f1, disk, iz', free, Limit(), w.size, offset,
             offset + |buf|); }
      }
    }

    /** `minix_fs_pwrite_at`. The answer can be told before the call. On success the
        file is the zero-padded overlay, if and only if the zones that holes will
        get are clean, which can be told before the call too, and no other file
        changed. On failure some prefix of `buf` may have reached the disk below
        the old size; nothing else changed. */
    method PwriteAt(ino: nat, buf: seq<Byte>, offset: int, addr: nat) returns (err: Errno, ghost done: nat)
      requires Valid()
      modifies this`zmap, this`hint, this`free, this`disk, this`owner, this`inodes
      ensures Valid() && KeepsOthers(old(disk), old(owner), disk, owner, ino)
      ensures err == old(PwriteAnswer(disk, inodes, free, Limit(), maxSize, ino, offset, |buf|))
      ensures buf == [] || err in {EINVAL, ENOENT, EISDIR} ==> unchanged(this)
      ensures err == OK && buf != [] ==> ino in old(inodes) && Files() == old(Files())[ino := Bytes(ino)]
      ensures err == OK && buf != [] ==>
                (Bytes(ino) == Pwritten(old(Bytes(ino)), offset, buf) <==>
                  CleanWrite(old(disk), old(inodes)[ino], old(free), offset, |buf|))
      ensures err == OK && old(Solid(disk, NodeOf(inodes, ino))) ==>
                Bytes(ino) == Pwritten(old(Bytes(ino)), if offset < 0 then 0 else offset, buf)
      ensures err == OK && buf != [] ==> |Bytes(ino)| == Max(|old(Bytes(ino))|, offset + |buf|)
      ensures err == ENOSPC ==> forall y | first <= y < Limit() :: y !in free
      ensures err != OK ==> done <= |buf| && inodes == old(inodes)
      ensures err == EFBIG || err == ENOSPC ==> Files() == old(Files())[ino := Bytes(ino)]
      ensures (err == EFBIG || err == ENOSPC) && old(Solid(disk, NodeOf(inodes, ino))) ==>
                Bytes(ino) == Failed(old(Bytes(ino)), offset, buf, maxSize)
      ensures err == EFBIG || err == ENOSPC ==>
                if Max(old(inodes)[ino].size, offset + |buf|) > maxSize then done == 0
                else Reached(old(disk), old(inodes)[ino], old(free), Limit(), offset, done)
      ensures err == EFBIG || err == ENOSPC ==>
                TornWhereBacked(old(disk), NodeOf(old(inodes), ino), Bytes(ino), offset, buf[..done])
      ensures old(AllSolid(disk, inodes)) ==> AllSolid(disk, inodes)
      ensures err == OK && old(AllExact(disk, inodes)) ==> AllExact(disk, inodes)
      ensures err == OK && buf != [] ==>
                ino in inodes && ino in old(inodes) && inodes == old(inodes)[ino := inodes[ino]]
                && inodes[ino].nlinks == old(inodes)[ino].nlinks && !inodes[ino].isDir
                && free + UsedZones(disk, inodes) == old(free + UsedZones(disk, inodes))
    {
      hide Core, KeepsOthers, Pwritten, Torn, Limit, FilesOf, BytesOf, UsedZones, AllExact, AllSolid, AllOk, Solid,
           CleanWrite, Written, Took, RoomFor, Laid, TornWhereBacked, Reached;
      done := 0;
      KeptSelf(ino, disk, owner, NO_ZONES);
      NothingPwritten(Bytes(ino), if offset < 0 then 0 else offset);
      if buf == [] { return OK, 0; }
      if offset < 0 { return EINVAL, 0; }
      if ino !in inodes { return ENOENT, 0; }
      var w := inodes[ino];
      if w.isDir { return EISDIR, 0; }
      FileBytes(disk, owner, inodes, ino);
      if Max(w.size, offset + |buf|) > maxSize {
        UntouchedIsTorn(disk, w, offset, buf[..0]);
        return EFBIG, 0;
      }
      err, done := PwriteFile(ino, buf, offset, addr);
      if err != OK && old(Solid(disk, w)) {
        SolidReached(old(disk), w, old(free), Limit(), offset, buf, done);
      }
    }

    /** The rest of it, on a regular file that may grow so far. */
    method PwriteFile(ino: nat, buf: seq<Byte>, offset: nat, addr: nat) returns (err: Errno, ghost done: nat)
      requires Valid() && ino in inodes && !inodes[ino].isDir && buf != []
      modifies this`zmap, this`hint, this`free, this`disk, this`owner, this`inodes
      ensures Core() && done <= |buf|
      ensures err == old(RoomFor(disk, inodes[ino].zones, free, Limit(), Start(inodes[ino].size, offset),
                                 offset + |buf|))
      ensures err == OK ==>
                WroteFile(old(disk), old(owner), old(inodes), old(free), disk, owner, inodes, free, ino, offset, buf)
      ensures err != OK ==>
                && inodes == old(inodes) &&
                  TornFile(old(disk), old(owner), inodes, disk, owner, ino, offset, buf[..done])
                && Reached(old(disk), inodes[ino], old(free), Limit(), offset, done)
      ensures err == ENOSPC ==> forall y | first <= y < Limit() :: y !in free
    {
      hide Core, Limit, Written, Took, RoomFor, Laid, WroteFile, TornFile, AllOk, StopsAt, BytesOf, FilesOf, Owned,
           AllExact, AllSolid, ExactShape, Dense, ZoneCount, Contents, Upto;
      var w := inodes[ino];
      var newSize := if offset + |buf| > w.size then offset + |buf| else w.size;
      ghost var d0, o0, t0 := disk, owner, inodes;
      FileBytes(d0, o0, t0, ino);
      var iz';
      ghost var wrote;
      err, iz', wrote := WriteThrough(ino, w, buf, offset, addr);
      if err != OK {
        done := WriteFailed(d0, o0, old(free), t0, disk, owner, iz', free, ino, offset, buf, wrote);
        return;
      }
      done := |buf|;
      RoomBound(d0, w.zones, old(free), Limit(), Start(w.size, offset), offset + |buf|);
      WriteDone(d0, o0, old(free), t0, disk, owner, iz', free, Limit(), ino, offset, buf);
      inodes := inodes[ino := w.(size := newSize, zones := iz')];
    }

    /** Cut the file's zones down to what `length` needs, as `minix_truncate`
        does: the whole tree at once for 0, zone by zone otherwise, reading the
        inode back from the table in the second case. */
    method CutTo(ino: nat, w: Inode, length: nat) returns (w': Inode)
      requires Core() && FileOk(disk, owner, ino, w) && !w.isDir && length < w.size
      requires ino in inodes && inodes[ino] == w
      modifies this`zmap, this`hint, this`free, this`disk, this`owner, this`inodes
      ensures Core() && Owned(disk, owner, ino, w'.zones) && KeepsOthers(old(disk), old(owner), disk, owner, ino)
      ensures old(Dense(disk, w.zones, w.size)) ==> Dense(disk, w'.zones, length)
      ensures Contents(disk, w'.zones, length) == Fit(old(Contents(disk, w.zones, w.size)), length)
      ensures old(Exact(disk, w)) ==> ExactShape(disk, w'.zones, ZoneCount(length))
      ensures free + TreeZones(disk, w'.zones) == old(free + TreeZones(disk, w.zones))
      ensures w' == w.(zones := w'.zones)
      ensures inodes.Keys == old(inodes).Keys && forall f | f in inodes && f != ino :: inodes[f] == old(inodes)[f]
    {
      hide Core, Owned, KeepsOthers, Contents, TreeZones, Dense, ExactShape, LeavesCut, ZoneCount, Fit, NO_ZONES;
      if length == 0 {
        var iz' := FreeAllZones(ino, w.zones);
        w' := w.(zones := iz');
        EmptyContents(disk, w.zones, iz', w.size);
        NoTreeZones(disk);
      } else {
        w' := TruncateZones(ino, w, w.size, length);
        assert inodes[ino] == w';
        w' := inodes[ino];
        ShrinkContents(old(disk), w.zones, disk, w'.zones, w.size, length);
      }
    }

    /** Fill the file up with zeros to `length`, as `minix_truncate` does. */
    method GrowTo(ghost ino: nat, w: Inode, length: nat) returns (err: Errno, w': Inode)
      requires Core() && FileOk(disk, owner, ino, w) && !w.isDir && w.size < length
      modifies this`zmap, this`hint, this`free, this`disk, this`owner
      ensures Core() && Owned(disk, owner, ino, w'.zones) && KeepsOthers(old(disk), old(owner), disk, owner, ino)
      ensures w' == w.(zones := w'.zones) && |zmap| == |old(zmap)|
      ensures err == old(RoomFor(disk, w.zones, free, Limit(), w.size, length))
      ensures err == OK ==>
                length <= MAX_BYTES && free + TreeZones(disk, w'.zones) == old(free + TreeZones(disk, w.zones))
      ensures err == OK ==> (Contents(disk, w'.zones, length) == Fit(old(Contents(disk, w.zones, w.size)), length)
                             <==> old(CleanGrow(disk, w, free, length)))
      ensures err == OK && old(Dense(disk, w.zones, w.size)) ==>
                Dense(disk, w'.zones, length) && old(CleanGrow(disk, w, free, length))
      ensures err == OK && old(Exact(disk, w)) ==> ExactShape(disk, w'.zones, ZoneCount(length))
      ensures err != OK ==> w' == w
      ensures err != OK && old(Dense(disk, w.zones, w.size)) ==>
                Dense(disk, w.zones, w.size) && Contents(disk, w.zones, w.size) == old(Contents(disk, w.zones, w.size))
      ensures err == ENOSPC ==> forall y | first <= y < Limit() :: y !in free
    {
      hide Core, Owned, KeepsOthers, Contents, TreeZones, Dense, ExactShape, Kept, ZoneCount, Fit, Torn, Limit, Wrote,
           Bared, NoStale, Took, RoomFor, CleanBefore, HasZone, FileByte;
      ghost var d0, o0 := disk, owner;
      var iz';
      ghost var done;
      err, iz', done := ZeroRange(ino, w.zones, w.size, length, ZoneCount(w.size));
      KeptGivesOthers(ino, d0, o0, w.zones, disk, owner, iz');
      if err != OK {
        FailedWriteContents(ino, d0, o0, w.zones, disk, owner, iz', w.size, w.size, Zeros(done));
        TornBeyond(Contents(d0, w.zones, w.size), w.size, Zeros(done), w.size, []);
        return err, w;
      }
      WroteBound(d0, w.zones, disk, iz', w.size, Zeros(length - w.size));
      w' := w.(zones := iz');
      GrowContents(d0, o0, w.zones, disk, owner, iz', w.size, length);
      CleanIffNoStale(d0, w.zones, old(free), disk, iz', free, Limit(), w.size, w.size, length);
      if Dense(d0, w.zones, w.size) { DenseClean(d0, w.zones, old(free), w.size, w.size, length); }
      ReachSizes(w.size, length, 1);
    }

    /** `minix_truncate`: the file is cut or zero-padded to `length`, the latter if and
        only if a hole at its end will get a clean zone, and no other file
        changes. The answer can be told before the call. When growing runs out of
        space nothing changes. */
    method Truncate(ino: nat, length: nat) returns (err: Errno)
      requires Valid()
      modifies this`zmap, this`hint, this`free, this`disk, this`owner, this`inodes
      ensures Valid() && KeepsOthers(old(disk), old(owner), disk, owner, ino)
      ensures err == old(TruncateAnswer(disk, inodes, free, Limit(), maxSize, ino, length))
      ensures length > maxSize || ino !in old(inodes) || old(inodes)[ino].isDir ==> unchanged(this)
      ensures err == OK ==> Files() == old(Files())[ino := Bytes(ino)] && |Bytes(ino)| == length
      ensures err == OK ==> ino in inodes && ino in old(inodes) && inodes == old(inodes)[ino := inodes[ino]]
      ensures err == OK ==>
                (Bytes(ino) == Fit(old(Bytes(ino)), length) <==>
                CleanGrow(old(disk), old(inodes)[ino], old(free), length))
      ensures err == OK && old(Solid(disk, NodeOf(inodes, ino))) ==> Bytes(ino) == Fit(old(Bytes(ino)), length)
      ensures err != OK ==>
                inodes == old(inodes) && (ino in old(Files()) ==> Files() == old(Files())[ino := Bytes(ino)])
      ensures err != OK && old(Solid(disk, NodeOf(inodes, ino))) ==> Files() == old(Files())
      ensures old(AllSolid(disk, inodes)) ==> AllSolid(disk, inodes)
      ensures err == ENOSPC ==> forall y | first <= y < Limit() :: y !in free
      ensures err == OK && old(AllExact(disk, inodes)) ==> AllExact(disk, inodes)
      ensures err == OK ==>
                inodes[ino].nlinks == old(inodes)[ino].nlinks && !inodes[ino].isDir
                && free + UsedZones(disk, inodes) == old(free + UsedZones(disk, inodes))
    {
      hide Core, Owned, KeepsOthers, Contents, TreeZones, Dense, ExactShape, Kept, ZoneCount, Fit, Torn, Limit,
           FilesOf, BytesOf, UsedZones, AllExact, AllSolid, Exact, RoomFor, CleanBefore, NO_ZONES;
      KeptSelf(ino, disk, owner, NO_ZONES);
      if length > maxSize {
        if ino in inodes && !inodes[ino].isDir {
          FileBytes(disk, owner, inodes, ino);
        } else {
          NoFile(disk, inodes, ino);
        }
        return EFBIG;
      }
      if ino !in inodes {
        NoFile(disk, inodes, ino);
        return ENOENT;
      }
      var w := inodes[ino];
      if w.isDir {
        NoFile(disk, inodes, ino);
        return EISDIR;
      }
      ghost var d0, o0, t0 := disk, owner, inodes;
      FileBytes(d0, o0, t0, ino);
      BytesAt(d0, w);
      if length == w.size {
        FitItself(BytesOf(d0, w));
        assert inodes[ino := w] == inodes;
        return OK;
      }
      var w' := w;
      if length > w.size {
        err, w' := GrowTo(ino, w, length);
        if err != OK {
          TableKept(d0, o0, disk, owner, ino, t0, w);
          BytesAt(disk, w);
          assert t0[ino := w] == t0;
          return;
        }
      } else {
        w' := CutTo(ino, w, length);
      }
      w' := w'.(size := length);
      err := OK;
      TableKept(d0, o0, disk, owner, ino, t0, w');
      BytesAt(disk, w');
      SpaceKept(d0, o0, old(free), disk, owner, free, ino, t0, w');
      assert inodes[ino := w'] == t0[ino := w'];
      inodes := inodes[ino := w'];
    }
  }
}

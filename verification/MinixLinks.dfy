/** Hard links on a MINIX volume (fs/minix_fs.c): the link count of a regular
    file is the number of directory entries that name it. */
module MinixLinks {
  import opened Bytes
  import opened Outcomes
  import opened MinixBlocks
  import opened MinixTree
  import opened MinixData
  import opened MinixSpec
  import opened MinixSpace
  import opened MinixVolume
  import opened MinixDirs

  const MAX_INODES := 1024

  // ----- counting names -----------------------------------------------------------

  ghost function Places(t: Table): set<Pos> {
    set dir, i, j | dir in t && 0 <= i < DIRECT && 0 <= j < PER_BLOCK :: Pos(dir, i, j)
  }

  /** The places of the entries that name inode `f`. */
  ghost function Refs(d: Disk, t: Table, f: nat): set<Pos> {
    set q | q in Places(t) && EntryAt(d, t, q).ino == f
  }

  lemma RefsAre(d: Disk, t: Table, f: nat, q: Pos)
    requires f != 0
    ensures q in Refs(d, t, f) <==> EntryAt(d, t, q).ino == f
  {
    hide SlotEntry;
    if EntryAt(d, t, q).ino == f {
      assert q == Pos(q.dir, q.i, q.j) && q in Places(t);
    }
  }

  ghost predicate SameName(d: Disk, t: Table, p: Pos, q: Pos) {
    && p.dir == q.dir && EntryAt(d, t, p).ino != 0 && EntryAt(d, t, q).ino != 0
    && EntryAt(d, t, p).name == EntryAt(d, t, q).name
  }

  /** Two entries of a directory have different names. */
  ghost predicate Unique(d: Disk, t: Table) {
    forall p: Pos, q: Pos {:trigger EntryAt(d, t, p), EntryAt(d, t, q)} :: SameName(d, t, p, q) ==> p == q
  }

  /** Every entry names an inode in use. */
  ghost predicate NoneDangles(d: Disk, t: Table) {
    0 !in t && forall q {:trigger EntryAt(d, t, q)} :: EntryAt(d, t, q).ino == 0 || EntryAt(d, t, q).ino in t
  }

  /** Every regular file has a name, and as many as its link count says. */
  ghost predicate Counted(d: Disk, t: Table) {
    forall f | f in t && !t[f].isDir :: 0 < t[f].nlinks == |Refs(d, t, f)|
  }

  ghost predicate LinksOk(d: Disk, t: Table) {
    NoneDangles(d, t) && Unique(d, t) && Counted(d, t)
  }

  /** A volume with an empty root directory and no files. */
  lemma EmptyRoot(d: Disk)
    ensures LinksOk(d, map[1 := Inode(true, 0, 2, NO_ZONES)]) && AllOk(d, map[], map[1 := Inode(true, 0, 2, NO_ZONES)])
  {
    hide SlotEntry;
    NoZonesShape(d, map[], 1);
    var t: Table := map[1 := Inode(true, 0, 2, NO_ZONES)];
    forall p: Pos, q: Pos ensures EntryAt(d, t, q) == NONE && !SameName(d, t, p, q) {
    }
    forall f | f in t ensures t[f].isDir {
    }
    assert NoneDangles(d, t) && Unique(d, t) && Counted(d, t);
  }

  /** No entry of `dir` has this name. */
  ghost predicate Absent(d: Disk, t: Table, dir: nat, nm: Name) {
    forall p: Pos {:trigger EntryAt(d, t, p)} ::
         p.dir == dir && EntryAt(d, t, p).ino != 0 ==> EntryAt(d, t, p).name != nm
  }

  /** The entry of this name in `dir` names inode `f`. */
  ghost predicate NamedBy(d: Disk, t: Table, dir: nat, nm: Name, f: nat) {
    f != 0 && exists p: Pos :: p.dir == dir && EntryAt(d, t, p) == Entry(f, nm)
  }

  // ----- what one changed entry does to the counts ----------------------------------

  lemma RefsAdded(d: Disk, t: Table, d': Disk, t': Table, q: Pos, e: Entry, f: nat)
    requires EntrySet(d, t, d', t', q, e) && EntryAt(d, t, q).ino == 0 && f != 0
    ensures |Refs(d', t', f)| == |Refs(d, t, f)| + if e.ino == f then 1 else 0
  {
    hide EntryAt, Refs;
    forall p ensures p in Refs(d', t', f) <==> p in Refs(d, t, f) || (p == q && e.ino == f) {
      RefsAre(d, t, f, p);
      RefsAre(d', t', f, p);
      assert EntryAt(d', t', p) == if p == q then e else EntryAt(d, t, p);
    }
    RefsAre(d, t, f, q);
    assert Refs(d', t', f) == Refs(d, t, f) + if e.ino == f then {q} else {};
  }

  lemma RefsRemoved(d: Disk, t: Table, d': Disk, t': Table, q: Pos, f: nat)
    requires EntrySet(d, t, d', t', q, NONE) && f != 0
    ensures |Refs(d, t, f)| == |Refs(d', t', f)| + if EntryAt(d, t, q).ino == f then 1 else 0
  {
    hide EntryAt, Refs;
    forall p ensures p in Refs(d', t', f) <==> p in Refs(d, t, f) && p != q {
      RefsAre(d, t, f, p);
      RefsAre(d', t', f, p);
      assert EntryAt(d', t', p) == if p == q then NONE else EntryAt(d, t, p);
    }
    RefsAre(d, t, f, q);
    assert Refs(d, t, f) == Refs(d', t', f) + if EntryAt(d, t, q).ino == f then {q} else {};
  }

  lemma RefsSame(d: Disk, t: Table, d': Disk, t': Table, f: nat)
    requires EntriesSame(d, t, d', t') && f != 0
    ensures Refs(d', t', f) == Refs(d, t, f)
  {
    hide EntryAt, Refs;
    forall p ensures p in Refs(d', t', f) <==> p in Refs(d, t, f) {
      RefsAre(d, t, f, p);
      RefsAre(d', t', f, p);
      assert EntryAt(d', t', p) == EntryAt(d, t, p);
    }
  }

  /** The table changed for one regular file, which is no directory's business. */
  lemma InodeKeepsEntries(d: Disk, t: Table, t': Table, f: nat)
    requires (f in t ==> !t[f].isDir) && (f in t' ==> !t'[f].isDir) && t' - {f} == t - {f}
    ensures EntriesSame(d, t, d, t')
  {
    hide SlotEntry, BlockAt;
    forall p ensures EntryAt(d, t', p) == EntryAt(d, t, p) {
      if p.dir != f { SameButOne(t, t', f, p.dir); }
    }
  }

  /** One more name for `f`, and its count set to `c`: right exactly when `c` is
      the number of names it then has. */
  lemma NameAdded(d: Disk, t: Table, d': Disk, t': Table, q: Pos, f: nat, nm: Name, c: nat)
    requires NoneDangles(d, t) && Unique(d, t) && EntryAt(d, t, q).ino == 0 && Absent(d, t, q.dir, nm)
    requires EntrySet(d, t, d', t', q, Entry(f, nm)) && f != 0
    requires t'.Keys == t.Keys + {f} && f in t' && !t'[f].isDir && t'[f].nlinks == c
    requires forall g | g in t && g != f :: t'[g].isDir == t[g].isDir && t'[g].nlinks == t[g].nlinks
    requires forall g | g in t && g != f && !t[g].isDir :: 0 < t[g].nlinks == |Refs(d, t, g)|
    ensures LinksOk(d', t') <==> c == |Refs(d, t, f)| + 1
    ensures NoneDangles(d', t') && Unique(d', t')
  {
    hide EntryAt, Refs;
    RefsAdded(d, t, d', t', q, Entry(f, nm), f);
    forall g | g in t' && g != f && !t'[g].isDir ensures 0 < t'[g].nlinks == |Refs(d', t', g)| {
      RefsAdded(d, t, d', t', q, Entry(f, nm), g);
    }
    forall p: Pos, r: Pos | SameName(d', t', p, r) ensures p == r {
      assert EntryAt(d', t', p) == if p == q then Entry(f, nm) else EntryAt(d, t, p);
      assert EntryAt(d', t', r) == if r == q then Entry(f, nm) else EntryAt(d, t, r);
    }
    assert Unique(d', t') && NoneDangles(d', t');
  }

  /** One name fewer for `f`: the count goes down with it, or, at the last
      name, the inode goes. */
  lemma NameRemoved(d: Disk, t: Table, d': Disk, t': Table, q: Pos, f: nat)
    requires LinksOk(d, t) && EntryAt(d, t, q).ino == f && f in t && !t[f].isDir
    requires EntrySet(d, t, d', t', q, NONE)
    requires t'.Keys == if t[f].nlinks == 1 then t.Keys - {f} else t.Keys
    requires f in t' ==> !t'[f].isDir && t'[f].nlinks == t[f].nlinks - 1
    requires forall g | g in t && g != f :: t'[g].isDir == t[g].isDir && t'[g].nlinks == t[g].nlinks
    ensures LinksOk(d', t')
  {
    hide EntryAt, Refs;
    RefsRemoved(d, t, d', t', q, f);
    forall g | g in t' && !t'[g].isDir ensures 0 < t'[g].nlinks == |Refs(d', t', g)| {
      RefsRemoved(d, t, d', t', q, g);
    }
    forall p ensures EntryAt(d', t', p).ino == 0 || EntryAt(d', t', p).ino in t' {
      assert EntryAt(d', t', p) == if p == q then NONE else EntryAt(d, t, p);
      if t[f].nlinks == 1 { RefsAre(d', t', f, p); }
    }
    forall p: Pos, r: Pos | SameName(d', t', p, r) ensures p == r {
      assert EntryAt(d', t', p) == if p == q then NONE else EntryAt(d, t, p);
      assert EntryAt(d', t', r) == if r == q then NONE else EntryAt(d, t, r);
    }
  }

  /** A step that keeps the entries and the counts keeps the invariant. */
  lemma LinksKept(d: Disk, t: Table, d': Disk, t': Table)
    requires LinksOk(d, t) && EntriesSame(d, t, d', t') && t'.Keys == t.Keys
    requires forall g | g in t :: t'[g].isDir == t[g].isDir && t'[g].nlinks == t[g].nlinks
    ensures LinksOk(d', t')
  {
    hide EntryAt, Refs;
    forall g | g in t' && !t'[g].isDir ensures 0 < t'[g].nlinks == |Refs(d', t', g)| {
      RefsSame(d, t, d', t', g);
    }
    forall p: Pos, r: Pos | SameName(d', t', p, r) ensures p == r {
      assert EntryAt(d', t', p) == EntryAt(d, t, p) && EntryAt(d', t', r) == EntryAt(d, t, r);
    }
  }

  // ----- what the other files see ----------------------------------------------------

  /** A step for a directory leaves every regular file as it was. */
  lemma DirStep(d: Disk, o: Owners, t: Table, d': Disk, o': Owners, dir: nat, nd: Inode)
    requires KeepsOthers(d, o, d', o', dir) && AllOk(d, o, t)
    requires dir in t && t[dir].isDir && nd.isDir && Owned(d', o', dir, nd.zones)
    ensures AllOk(d', o', t[dir := nd])
    ensures FilesOf(d', t[dir := nd]) == FilesOf(d, t)
    ensures AllExact(d, t) ==> AllExact(d', t[dir := nd])
    ensures AllSolid(d, t) ==> AllSolid(d', t[dir := nd])
  {
    hide Contents, KeepsOthers, TreeZones, Owned, BytesOf, Dense;
    forall g | g in t && g != dir
      ensures FileOk(d', o', g, t[g]) && (Exact(d, t[g]) ==> Exact(d', t[g])) &&
                (Solid(d, t[g]) ==> Solid(d', t[g])) && BytesOf(d', t[g]) == BytesOf(d, t[g])
    {
      assert FileOk(d, o, g, t[g]);
      OtherKept(d, o, d', o', dir, g, t[g]);
    }
  }

  /** Dropping a file after a step for it. */
  lemma FileDropped(d: Disk, o: Owners, t: Table, d': Disk, o': Owners, f: nat)
    requires KeepsOthers(d, o, d', o', f) && AllOk(d, o, t)
    ensures AllOk(d', o', t - {f})
    ensures FilesOf(d', t - {f}) == FilesOf(d, t) - {f}
    ensures AllExact(d, t) ==> AllExact(d', t - {f})
    ensures AllSolid(d, t) ==> AllSolid(d', t - {f})
  {
    hide Contents, KeepsOthers, TreeZones, Owned, BytesOf, Exact, Solid;
    forall g | g in t && g != f
      ensures FileOk(d', o', g, t[g]) && (Exact(d, t[g]) ==> Exact(d', t[g])) &&
                (Solid(d, t[g]) ==> Solid(d', t[g])) && BytesOf(d', t[g]) == BytesOf(d, t[g])
    {
      assert FileOk(d, o, g, t[g]);
      OtherKept(d, o, d', o', f, g, t[g]);
    }
  }

  /** A link count is nobody's bytes. */
  lemma CountStep(d: Disk, o: Owners, t: Table, f: nat, c: Byte)
    requires AllOk(d, o, t) && f in t
    ensures AllOk(d, o, t[f := t[f].(nlinks := c)])
    ensures FilesOf(d, t[f := t[f].(nlinks := c)]) == FilesOf(d, t)
    ensures AllExact(d, t) ==> AllExact(d, t[f := t[f].(nlinks := c)])
    ensures AllSolid(d, t) ==> AllSolid(d, t[f := t[f].(nlinks := c)])
    ensures UsedZones(d, t[f := t[f].(nlinks := c)]) == UsedZones(d, t)
  {
    hide Contents, TreeZones, Owned, ExactShape, Dense;
    var t' := t[f := t[f].(nlinks := c)];
    assert FileOk(d, o, f, t[f]);
    assert forall g | g in t :: TreeZones(d, t'[g].zones) == TreeZones(d, t[g].zones);
    forall z ensures z in UsedZones(d, t') <==> z in UsedZones(d, t) {
      if z in UsedZones(d, t') { var g :| g in t' && z in TreeZones(d, t'[g].zones);
           assert z in TreeZones(d, t[g].zones); }
      if z in UsedZones(d, t) { var g :| g in t && z in TreeZones(d, t[g].zones);
           assert z in TreeZones(d, t'[g].zones); }
    }
  }

  // ----- finding, adding and removing an entry -----------------------------------------

  predicate CString(nm: Name) {
    forall k | 0 <= k < |nm| :: nm[k] != 0
  }

  /** The first live entry of this name, or 64. */
  method ScanBlock(b: Block, nm: Name) returns (j: nat)
    ensures j <= PER_BLOCK
    ensures forall k | 0 <= k < j :: SlotEntry(b, k).ino == 0 || SlotEntry(b, k).name != nm
    ensures j < PER_BLOCK ==> SlotEntry(b, j).ino != 0 && SlotEntry(b, j).name == nm
  {
    j := 0;
    while j < PER_BLOCK
      invariant j <= PER_BLOCK
      invariant forall k | 0 <= k < j :: SlotEntry(b, k).ino == 0 || SlotEntry(b, k).name != nm
    {
      var e := SlotEntry(b, j);
      if e.ino != 0 && e.name == nm { return; }
      j := j + 1;
    }
  }

  /** No entry of this name in the directory's zones below `i`. */
  ghost predicate AbsentBelow(d: Disk, t: Table, dir: nat, nm: Name, i: nat) {
    forall p: Pos {:trigger EntryAt(d, t, p)} ::
      p.dir == dir && p.i < i && EntryAt(d, t, p).ino != 0 ==> EntryAt(d, t, p).name != nm
  }

  lemma AbsentStep(d: Disk, t: Table, dir: nat, nm: Name, i: nat)
    requires AbsentBelow(d, t, dir, nm, i) && dir in t && i < DIRECT
    requires t[dir].zones[i] == 0 || forall k | 0 <= k < PER_BLOCK ::
               SlotEntry(BlockAt(d, t[dir].zones[i]), k).ino == 0 || SlotEntry(BlockAt(d, t[dir].zones[i]),
                   k).name != nm
    ensures AbsentBelow(d, t, dir, nm, i + 1)
  {
    hide SlotEntry, BlockAt;
  }

  lemma AbsentAll(d: Disk, t: Table, dir: nat, nm: Name)
    requires AbsentBelow(d, t, dir, nm, DIRECT)
    ensures Absent(d, t, dir, nm)
  {
    hide SlotEntry, BlockAt;
  }

  /** `minix_fs_find_dir_entry` */
  method FindDirEntry(v: Volume, dir: nat, nm: Name) returns (ino: nat, ghost q: Pos)
    requires v.Valid()
    ensures ino == 0 ==> Absent(v.disk, v.inodes, dir, nm)
    ensures ino != 0 ==> q.dir == dir && EntryAt(v.disk, v.inodes, q) == Entry(ino, nm)
  {
    hide SlotEntry, Volume.Core, AllOk, Absent, AbsentBelow;
    q := Pos(dir, 0, 0);
    if dir !in v.inodes || !v.inodes[dir].isDir {
      NoDirAbsent(v.disk, v.inodes, dir, nm);
      return 0, q;
    }
    var nd := v.inodes[dir];
    var i := 0;
    AbsentNone(v.disk, v.inodes, dir, nm);
    while i < DIRECT
      invariant i <= DIRECT && AbsentBelow(v.disk, v.inodes, dir, nm, i)
    {
      if nd.zones[i] != 0 {
        ZoneOnDisk(v, dir, i);
        var b := v.disk[nd.zones[i]];
        var j := ScanBlock(b, nm);
        if j < PER_BLOCK { return SlotEntry(b, j).ino, Pos(dir, i, j); }
      }
      AbsentStep(v.disk, v.inodes, dir, nm, i);
      i := i + 1;
    }
    AbsentAll(v.disk, v.inodes, dir, nm);
    return 0, q;
  }

  lemma NoDirAbsent(d: Disk, t: Table, dir: nat, nm: Name)
    requires dir !in t || !t[dir].isDir
    ensures Absent(d, t, dir, nm)
  {
  }

  lemma AbsentNone(d: Disk, t: Table, dir: nat, nm: Name)
    ensures AbsentBelow(d, t, dir, nm, 0)
  {
  }

  lemma ZoneOnDisk(v: Volume, dir: nat, i: nat)
    requires v.Valid() && dir in v.inodes && i < DIRECT && v.inodes[dir].zones[i] != 0
    ensures v.inodes[dir].zones[i] < |v.disk| && v.inodes[dir].zones[i] in v.owner
  {
    var iz := v.inodes[dir].zones;
    assert FileOk(v.disk, v.owner, dir, v.inodes[dir]);
    assert SlotZone(v.disk, iz, Direct(i)) == iz[i];
    assert Holds(v.disk, v.owner, dir, iz, Direct(i));
  }

  /** A step for directory `dir`, whose inode it leaves as `nd`, that sets the
      entry at `q` to `e`. */
  ghost predicate DirChanged(d: Disk, o: Owners, t: Table, d': Disk, o': Owners, dir: nat, nd: Inode, q: Pos,
                             e: Entry) {
    && dir in t && t[dir].isDir && nd.isDir && q.dir == dir && nd.nlinks == t[dir].nlinks
    && KeepsOthers(d, o, d', o', dir) && Owned(d', o', dir, nd.zones)
    && EntrySet(d, t, d', t[dir := nd], q, e)
  }

  /** The first entry that is free or has this name already, or 64. */
  method ScanForSlot(b: Block, nm: Name) returns (j: nat)
    ensures j <= PER_BLOCK
    ensures forall k | 0 <= k < j :: SlotEntry(b, k).ino != 0 && SlotEntry(b, k).name != nm
    ensures j < PER_BLOCK ==> SlotEntry(b, j).ino == 0 || SlotEntry(b, j).name == nm
  {
    j := 0;
    while j < PER_BLOCK
      invariant j <= PER_BLOCK
      invariant forall k | 0 <= k < j :: SlotEntry(b, k).ino != 0 && SlotEntry(b, k).name != nm
    {
      var e := SlotEntry(b, j);
      if e.ino == 0 || e.name == nm { return; }
      j := j + 1;
    }
  }

  /** Writing an entry into a block the directory has. */
  method WriteEntry(v: Volume, dir: nat, i: nat, j: nat, ino: Zone16, f: seq<Byte>, size: nat) returns (nd: Inode)
    requires v.Valid() && dir in v.inodes && v.inodes[dir].isDir && i < DIRECT && j < PER_BLOCK && |f| == NAME_LEN
    requires v.inodes[dir].zones[i] != 0
    modifies v`disk
    ensures v.Core() && nd == v.inodes[dir].(size := size)
    ensures DirChanged(old(v.disk), v.owner, v.inodes, v.disk, v.owner, dir, nd, Pos(dir, i, j), if ino == 0 then
              NONE else Entry(ino, Trimmed(f)))
    ensures TreeZones(v.disk, nd.zones) == old(TreeZones(v.disk, v.inodes[dir].zones))
  {
    hide TreeZones, KeepsOthers, Owned, EntrySet, AllOk;
    nd := v.inodes[dir].(size := size);
    var z := nd.zones[i];
    ZoneOnDisk(v, dir, i);
    EntryWritten(v.disk, v.owner, v.inodes, nd, Pos(dir, i, j), ino, f);
    v.disk := v.disk[z := PutEntry(v.disk[z], j, ino, f)];
  }

  /** The first of the directory's zones that is missing, or 7. */
  function FirstGap(iz: Zones, i: nat): (g: nat)
    requires i <= DIRECT
    ensures i <= g <= DIRECT && (g < DIRECT ==> iz[g] == 0) && forall k | i <= k < g :: iz[k] != 0
    decreases DIRECT - i
  {
    if i == DIRECT || iz[i] == 0 then i else FirstGap(iz, i + 1)
  }

  /** Every entry of the zones in front of the first gap is in use. */
  ghost predicate DirFull(d: Disk, t: Table, dir: nat) {
    dir in t && forall i, j | 0 <= i < FirstGap(t[dir].zones, 0) && 0 <= j < PER_BLOCK ::
      EntryAt(d, t, Pos(dir, i, j)).ino != 0
  }

  /** No zone can be allocated. */
  ghost predicate NoFreeZone(v: Volume)
    reads v`free
  {
    forall y | v.first <= y < v.Limit() :: y !in v.free
  }

  /** A directory cannot take another entry: it is full, and has all its zones or
      can get no further one. */
  ghost predicate NoRoom(v: Volume, dir: nat)
    reads v`free, v`disk, v`inodes
  {
    DirFull(v.disk, v.inodes, dir) && (FirstGap(v.inodes[dir].zones, 0) == DIRECT || NoFreeZone(v))
  }

  /** The block a directory gets when its others are full. */
  method GrowDir(v: Volume, dir: nat, i: nat, ino: Zone16, f: seq<Byte>) returns (err: Errno, nd: Inode)
    requires v.Valid() && dir in v.inodes && v.inodes[dir].isDir && i < DIRECT && |f| == NAME_LEN && ino != 0
    requires v.inodes[dir].zones[i] == 0
    modifies v`zmap, v`hint, v`free, v`disk, v`owner
    ensures v.Core() && |v.zmap| == |old(v.zmap)|
    ensures err == OK || err == ENOSPC
    ensures err == ENOSPC ==> v.disk == old(v.disk) && v.owner == old(v.owner) && v.free == old(v.free)
    ensures err == OK ==>
              DirChanged(old(v.disk), old(v.owner), v.inodes, v.disk, v.owner, dir, nd, Pos(dir, i, 0),
              Entry(ino, Trimmed(f)))
    ensures err == OK ==> v.free + TreeZones(v.disk, nd.zones) == old(v.free + TreeZones(v.disk, v.inodes[dir].zones))
    ensures err == OK ==> nd.size == (i + 1) * BLOCK_SIZE
    ensures err == ENOSPC <==> old(NoFreeZone(v))
  {
    hide TreeZones, KeepsOthers, Owned, EntrySet, AllOk;
    nd := v.inodes[dir];
    var z := v.AllocZone();
    if z == 0 { return ENOSPC, nd; }
    var z16: Zone16 := z;
    nd := nd.(zones := nd.zones[i := z16], size := (i + 1) * BLOCK_SIZE);
    ZoneAdded(v.disk, v.owner, v.inodes, nd, dir, i, z16, ino, f);
    v.disk := v.disk[z := PutEntry(ZeroBlock(), 0, ino, f)];
    v.owner := v.owner[z := Owner(dir, Direct(i))];
    return OK, nd;
  }

  /** `minix_fs_add_dir_entry`: the first free entry of the directory's zones
      takes the name, or a new zone does. */
  method AddDirEntry(v: Volume, dir: nat, nm: Name, ino: nat) returns (err: Errno, nd: Inode, ghost q: Pos)
    requires v.Valid() && dir in v.inodes && v.inodes[dir].isDir && CString(nm)
    modifies v`zmap, v`hint, v`free, v`disk, v`owner
    ensures v.Core()
    ensures err != OK ==> v.disk == old(v.disk) && v.owner == old(v.owner) && v.free == old(v.free)
    ensures err == OK ==> GoodName(nm) && 0 < ino < 65535 && old(EntryAt(v.disk, v.inodes, q)).ino == 0
    ensures err == OK ==> DirChanged(old(v.disk), old(v.owner), v.inodes, v.disk, v.owner, dir, nd, q, Entry(ino, nm))
    ensures err == OK ==> v.free + TreeZones(v.disk, nd.zones) == old(v.free + TreeZones(v.disk, v.inodes[dir].zones))
    ensures err == OK ==> q.i * BLOCK_SIZE + q.j * 16 + 16 <= nd.size
    ensures err == EEXIST ==> !old(Absent(v.disk, v.inodes, dir, nm))
    ensures err == EINVAL <==> ino == 0 || ino >= 65535 || nm == [] || |nm| > NAME_LEN
    ensures err == ENOSPC ==> old(NoRoom(v, dir))
    ensures err == OK ==> !old(NoRoom(v, dir))
    ensures err in {OK, EINVAL, EEXIST, ENOSPC}
  {
    hide TreeZones, KeepsOthers, Owned, EntrySet, AllOk, SlotEntry, DirChanged, Volume.Core, FirstGap, NoFreeZone;
    nd := v.inodes[dir];
    q := Pos(dir, 0, 0);
    if ino == 0 || ino >= 65535 { return EINVAL, nd, q; }
    if |nm| == 0 || |nm| > NAME_LEN { return EINVAL, nd, q; }
    var f := Field(nm);
    TrimmedPadded(nm, NAME_LEN - |nm|);
    var i := 0;
    while i < DIRECT && nd.zones[i] != 0
      invariant i <= DIRECT && nd == v.inodes[dir] && v.Valid()
      invariant v.disk == old(v.disk) && v.owner == old(v.owner) && v.free == old(v.free)
      invariant forall k | 0 <= k < i :: nd.zones[k] != 0
      invariant forall k, l | 0 <= k < i && 0 <= l < PER_BLOCK :: EntryAt(v.disk, v.inodes, Pos(dir, k, l)).ino != 0
    {
      ZoneOnDisk(v, dir, i);
      var b := v.disk[nd.zones[i]];
      var j := ScanForSlot(b, nm);
      if j < PER_BLOCK {
        q := Pos(dir, i, j);
        assert EntryAt(v.disk, v.inodes, q) == SlotEntry(b, j);
        if SlotEntry(b, j).ino != 0 { return EEXIST, nd, q; }
        GapBeyond(nd.zones, i);
        var end := i * BLOCK_SIZE + j * 16 + 16;
        nd := WriteEntry(v, dir, i, j, ino, f, if end > nd.size then end else nd.size);
        return OK, nd, q;
      }
      forall l | 0 <= l < PER_BLOCK ensures EntryAt(v.disk, v.inodes, Pos(dir, i, l)).ino != 0 {
        assert EntryAt(v.disk, v.inodes, Pos(dir, i, l)) == SlotEntry(b, l);
      }
      i := i + 1;
    }
    GapAt(nd.zones, i);
    assert DirFull(v.disk, v.inodes, dir);
    i := 0;
    while i < DIRECT
      invariant i <= DIRECT && nd == v.inodes[dir] && v.Valid()
      invariant v.disk == old(v.disk) && v.owner == old(v.owner) && v.free == old(v.free)
      invariant forall k | 0 <= k < i :: nd.zones[k] != 0
    {
      if nd.zones[i] == 0 {
        q := Pos(dir, i, 0);
        GapAt(nd.zones, i);
        err, nd := GrowDir(v, dir, i, ino, f);
        return err, nd, q;
      }
      i := i + 1;
    }
    GapAt(nd.zones, i);
    return ENOSPC, nd, q;
  }

  lemma GapAt(iz: Zones, i: nat)
    requires i <= DIRECT && (i < DIRECT ==> iz[i] == 0) && forall k | 0 <= k < i :: iz[k] != 0
    ensures FirstGap(iz, 0) == i
  {
  }

  lemma GapBeyond(iz: Zones, i: nat)
    requires i < DIRECT && forall k | 0 <= k <= i :: iz[k] != 0
    ensures i < FirstGap(iz, 0)
  {
  }

  method BlockEmpty(b: Block) returns (empty: bool)
    ensures empty <==> forall k | 0 <= k < PER_BLOCK :: SlotEntry(b, k).ino == 0
  {
    var k := 0;
    while k < PER_BLOCK
      invariant k <= PER_BLOCK && forall l | 0 <= l < k :: SlotEntry(b, l).ino == 0
    {
      if SlotEntry(b, k).ino != 0 { return false; }
      k := k + 1;
    }
    return true;
  }

  /** As much of a name as the comparison of `minix_fs_remove_dir_entry` looks at. */
  function Shown(nm: Name): Name {
    if |nm| > NAME_LEN then nm[..NAME_LEN] else nm
  }

  /** `minix_fs_remove_dir_entry`: the first entry of this name, or of its first 14
      bytes, is cleared. */
  method RemoveDirEntry(v: Volume, dir: nat, nm: Name) returns (err: Errno, nd: Inode, ghost q: Pos)
    requires v.Valid() && dir in v.inodes && v.inodes[dir].isDir
    modifies v`disk
    ensures v.Core()
    ensures err != OK ==> v.disk == old(v.disk)
    ensures err == OK ==>
              old(EntryAt(v.disk, v.inodes, q)).ino != 0 && old(EntryAt(v.disk, v.inodes, q)).name == Shown(nm)
    ensures err == OK ==> DirChanged(old(v.disk), v.owner, v.inodes, v.disk, v.owner, dir, nd, q, NONE)
    ensures err == OK ==> TreeZones(v.disk, nd.zones) == old(TreeZones(v.disk, v.inodes[dir].zones))
    ensures err == ENOENT ==> old(Absent(v.disk, v.inodes, dir, Shown(nm)))
    ensures err == OK ==> nd.size <= v.inodes[dir].size <= nd.size + 16 && nd.zones == v.inodes[dir].zones
    ensures err == EINVAL <==> nm == []
    ensures err in {OK, ENOENT, EINVAL}
  {
    hide TreeZones, KeepsOthers, Owned, EntrySet, AllOk, SlotEntry, DirChanged, Volume.Core, Absent, AbsentBelow;
    nd := v.inodes[dir];
    q := Pos(dir, 0, 0);
    if nm == [] { return EINVAL, nd, q; }
    var key := Shown(nm);
    var i := 0;
    AbsentNone(v.disk, v.inodes, dir, key);
    while i < DIRECT
      invariant i <= DIRECT && nd == v.inodes[dir] && v.Valid() && v.disk == old(v.disk)
      invariant AbsentBelow(v.disk, v.inodes, dir, key, i)
    {
      if nd.zones[i] != 0 {
        ZoneOnDisk(v, dir, i);
        var b := v.disk[nd.zones[i]];
        var j := ScanBlock(b, key);
        if j < PER_BLOCK {
          q := Pos(dir, i, j);
          assert EntryAt(v.disk, v.inodes, q) == SlotEntry(b, j);
          var empty := BlockEmpty(PutEntry(b, j, 0, Zeros(NAME_LEN)));
          var size := if empty then (if nd.size >= 16 then nd.size - 16 else 0) else nd.size;
          nd := WriteEntry(v, dir, i, j, 0, Zeros(NAME_LEN), size);
          return OK, nd, q;
        }
      }
      AbsentStep(v.disk, v.inodes, dir, key, i);
      i := i + 1;
    }
    AbsentAll(v.disk, v.inodes, dir, key);
    return ENOENT, nd, q;
  }

  // ----- link -----------------------------------------------------------------------

  lemma EntrySetThenSame(d: Disk, t: Table, d1: Disk, t1: Table, d2: Disk, t2: Table, q: Pos, e: Entry)
    requires EntrySet(d, t, d1, t1, q, e) && EntriesSame(d1, t1, d2, t2)
    ensures EntrySet(d, t, d2, t2, q, e)
  {
    hide EntryAt;
    forall p ensures EntryAt(d2, t2, p) == if p == q then e else EntryAt(d, t, p) {
      assert EntryAt(d2, t2, p) == EntryAt(d1, t1, p);
    }
  }

  lemma SameThenEntrySet(d: Disk, t: Table, d1: Disk, t1: Table, d2: Disk, t2: Table, q: Pos, e: Entry)
    requires EntriesSame(d, t, d1, t1) && EntrySet(d1, t1, d2, t2, q, e)
    ensures EntrySet(d, t, d2, t2, q, e)
  {
    hide EntryAt;
    forall p ensures EntryAt(d2, t2, p) == if p == q then e else EntryAt(d, t, p) {
      assert EntryAt(d2, t2, p) == if p == q then e else EntryAt(d1, t1, p);
      assert EntryAt(d1, t1, p) == EntryAt(d, t, p);
    }
  }

  /** An entry's inode is in use, and its directory is one. */
  lemma EntryOfDir(d: Disk, t: Table, q: Pos)
    requires NoneDangles(d, t) && EntryAt(d, t, q).ino != 0
    ensures EntryAt(d, t, q).ino in t && q.dir in t && t[q.dir].isDir
  {
  }

  lemma NotAbsent(d: Disk, t: Table, q: Pos)
    requires EntryAt(d, t, q).ino != 0
    ensures !Absent(d, t, q.dir, EntryAt(d, t, q).name)
  {
  }

  /** What a changed directory and a new count for `f` come to. */
  lemma DirAndCount(d: Disk, o: Owners, free: set<nat>, t: Table, d': Disk, o': Owners, free': set<nat>, dir: nat,
                    nd: Inode, q: Pos, e: Entry, f: nat, c: Byte)
    requires DirChanged(d, o, t, d', o', dir, nd, q, e) && AllOk(d, o, t) && f in t && !t[f].isDir
    requires free' + TreeZones(d', nd.zones) == free + TreeZones(d, t[dir].zones)
    ensures var t' := t[f := t[f].(nlinks := c)][dir := nd];
            && AllOk(d', o', t') && FilesOf(d', t') == FilesOf(d, t) && (AllExact(d, t) ==> AllExact(d', t')) &&
              (AllSolid(d, t) ==> AllSolid(d', t'))
            && free' + UsedZones(d', t') == free + UsedZones(d, t) && EntrySet(d, t, d', t', q, e)
  {
    hide AllOk, FilesOf, AllExact, AllSolid, UsedZones, EntrySet, KeepsOthers, Owned, TreeZones, EntriesSame;
    var t1 := t[dir := nd];
    var t' := t[f := t[f].(nlinks := c)][dir := nd];
    assert t' == t1[f := t1[f].(nlinks := c)];
    DirStep(d, o, t, d', o', dir, nd);
    SpaceKept(d, o, free, d', o', free', dir, t, nd);
    CountStep(d', o', t1, f, c);
    assert t' - {f} == t1 - {f};
    InodeKeepsEntries(d', t1, t', f);
    EntrySetThenSame(d, t, d', t1, d', t', q, e);
  }

  /** The volume as far as files and space go. */
  twostate predicate FilesKept(v: Volume)
    reads v
  {
    && v.Files() == old(v.Files())
    && (old(AllExact(v.disk, v.inodes)) ==> AllExact(v.disk, v.inodes))
    && (old(AllSolid(v.disk, v.inodes)) ==> AllSolid(v.disk, v.inodes))
    && v.free + UsedZones(v.disk, v.inodes) == old(v.free + UsedZones(v.disk, v.inodes))
  }

  /** Trees that were exact are, and no zone was lost or invented. */
  twostate predicate ExactKept(v: Volume)
    reads v
  {
    old(AllExact(v.disk, v.inodes)) ==>
      AllExact(v.disk, v.inodes) && v.free + UsedZones(v.disk, v.inodes) == old(v.free + UsedZones(v.disk, v.inodes))
  }

  /** What `minix_fs_link` answers, `f` being the inode the old name names. */
  ghost function LinkAnswer(d: Disk, t: Table, dir: nat, nm: Name, newDir: nat, newNm: Name, f: nat,
                            noRoom: bool): Errno {
    if Absent(d, t, dir, nm) then ENOENT
    else if f in t && t[f].isDir then EPERM
    else if !Absent(d, t, newDir, newNm) then EEXIST
    else if |newNm| > NAME_LEN then ENAMETOOLONG
    else if newDir !in t then ENOENT
    else if !t[newDir].isDir then ENOTDIR
    else if newNm == [] || f >= 65535 || noRoom then EIO
    else OK
  }

  /** The link count is one byte. */
  function OneMore(n: Byte): Byte {
    (n + 1) % 256
  }

  /** `minix_fs_link`: a second name for the inode. The count is a byte, so it
      says how many names there are exactly when there were fewer than 255. */
  method Link(v: Volume, dir: nat, nm: Name, newDir: nat, newNm: Name) returns (err: Errno, ghost f: nat, ghost q: Pos)
    requires v.Valid() && LinksOk(v.disk, v.inodes) && CString(newNm)
    modifies v`zmap, v`hint, v`free, v`disk, v`owner, v`inodes
    ensures v.Valid() && FilesKept(v)
    ensures err != OK ==> v.disk == old(v.disk) && v.inodes == old(v.inodes)
    ensures err == old(LinkAnswer(v.disk, v.inodes, dir, nm, newDir, newNm, f, NoRoom(v, newDir)))
    ensures old(Absent(v.disk, v.inodes, dir, nm)) ||
              (f != 0 && f in old(v.inodes) && old(NamedBy(v.disk, v.inodes, dir, nm, f)))
    ensures err == OK ==> f in old(v.inodes) && !old(v.inodes)[f].isDir
    ensures err == OK ==>
              v.inodes.Keys == old(v.inodes).Keys &&
              v.inodes[f] == old(v.inodes)[f].(nlinks := OneMore(old(v.inodes)[f].nlinks))
    ensures err == OK ==>
              forall g | g in v.inodes && g in old(v.inodes) && !old(v.inodes)[g].isDir && g != f ::
              v.inodes[g] == old(v.inodes)[g]
    ensures err == OK ==> q.dir == newDir && EntrySet(old(v.disk), old(v.inodes), v.disk, v.inodes, q, Entry(f, newNm))
    ensures err == OK ==> old(EntryAt(v.disk, v.inodes, q)).ino == 0 && old(Absent(v.disk, v.inodes, newDir, newNm))
    ensures err == OK ==> (LinksOk(v.disk, v.inodes) <==> old(v.inodes)[f].nlinks < 255)
    ensures NoneDangles(v.disk, v.inodes) && Unique(v.disk, v.inodes)
  {
    hide TreeZones, KeepsOthers, Owned, EntrySet, AllOk, EntryAt, DirChanged, Volume.Core, AllExact, AllSolid,
         UsedZones, FilesOf, Refs, Counted, Unique, Absent, NoneDangles, NoRoom, NamedBy;
    var ino, q0 := FindDirEntry(v, dir, nm);
    f, q := ino, q0;
    if ino == 0 { return ENOENT, f, q; }
    EntryOfDir(v.disk, v.inodes, q0);
    NotAbsent(v.disk, v.inodes, q0);
    PlaceNames(v.disk, v.inodes, q0);
    var w := v.inodes[ino];
    if w.isDir { return EPERM, f, q; }
    var there, q1 := FindDirEntry(v, newDir, newNm);
    if there != 0 {
      NotAbsent(v.disk, v.inodes, q1);
      return EEXIST, f, q;
    }
    if |newNm| > NAME_LEN { return ENAMETOOLONG, f, q; }
    if newDir !in v.inodes { return ENOENT, f, q; }
    if !v.inodes[newDir].isDir { return ENOTDIR, f, q; }
    ghost var d0, o0, t0, free0 := v.disk, v.owner, v.inodes, v.free;
    var nd;
    err, nd, q := AddDirEntry(v, newDir, newNm, ino);
    if err != OK { return EIO, f, q; }
    var c := OneMore(w.nlinks);
    DirAndCount(d0, o0, free0, t0, v.disk, v.owner, v.free, newDir, nd, q, Entry(ino, newNm), ino, c);
    v.inodes := v.inodes[ino := w.(nlinks := c)];
    v.inodes := v.inodes[newDir := nd];
    ChangedDir(d0, o0, t0, v.disk, v.owner, newDir, nd, q, Entry(ino, newNm));
    LinkAdded(d0, t0, v.disk, v.inodes, q, ino, newNm);
  }

  /** A link more, as the byte of the count sees it. */
  lemma LinkAdded(d: Disk, t: Table, d': Disk, t': Table, q: Pos, f: nat, nm: Name)
    requires LinksOk(d, t) && EntryAt(d, t, q).ino == 0 && Absent(d, t, q.dir, nm) &&
              EntrySet(d, t, d', t', q, Entry(f, nm))
    requires f != 0 && f in t && !t[f].isDir && t'.Keys == t.Keys
    requires !t'[f].isDir && t'[f].nlinks == OneMore(t[f].nlinks)
    requires forall g | g in t && g != f :: t'[g].isDir == t[g].isDir && t'[g].nlinks == t[g].nlinks
    ensures NoneDangles(d', t') && Unique(d', t')
    ensures LinksOk(d', t') <==> t[f].nlinks < 255
  {
    hide EntryAt, Refs, NoneDangles, Unique, Absent, EntrySet;
    NameAdded(d, t, d', t', q, f, nm, t'[f].nlinks);
  }

  lemma ChangedDir(d: Disk, o: Owners, t: Table, d': Disk, o': Owners, dir: nat, nd: Inode, q: Pos, e: Entry)
    requires DirChanged(d, o, t, d', o', dir, nd, q, e)
    ensures dir in t && t[dir].isDir && nd.isDir && q.dir == dir && nd.nlinks == t[dir].nlinks
  {
  }

  // ----- create ---------------------------------------------------------------------

  function InodeLimit(ninodes: nat): nat {
    if ninodes == 0 || ninodes >= MAX_INODES then MAX_INODES - 1 else ninodes
  }

  ghost predicate LowestUnused(t: Table, n: nat) {
    n !in t && forall k | 1 <= k < n :: k in t
  }

  ghost predicate NoInode(t: Table, ninodes: nat) {
    forall k | 1 <= k <= InodeLimit(ninodes) :: k in t
  }

  /** `minix_alloc_inode`: the lowest unused number, 0 when there is none. */
  method AllocInode(v: Volume) returns (n: nat)
    ensures n == 0 <==> NoInode(v.inodes, v.ninodes)
    ensures n != 0 ==> n <= InodeLimit(v.ninodes) && LowestUnused(v.inodes, n)
  {
    var limit := InodeLimit(v.ninodes);
    n := 1;
    while n <= limit
      invariant 1 <= n <= limit + 1 && forall k | 1 <= k < n :: k in v.inodes
    {
      if n !in v.inodes { return; }
      n := n + 1;
    }
    return 0;
  }

  const FRESH := Inode(false, 0, 1, NO_ZONES)

  /** The inode of `f`, if there is one. */
  function NodeAt(t: Table, f: nat): Inode {
    if f in t then t[f] else FRESH
  }

  /** A fresh inode is an empty file and changes nothing else. */
  lemma FreshFile(d: Disk, o: Owners, t: Table, n: nat)
    requires AllOk(d, o, t) && n !in t
    ensures AllOk(d, o, t[n := FRESH]) && FilesOf(d, t[n := FRESH]) == FilesOf(d, t)[n := []]
    ensures AllExact(d, t) ==> AllExact(d, t[n := FRESH])
    ensures AllSolid(d, t) ==> AllSolid(d, t[n := FRESH])
    ensures UsedZones(d, t[n := FRESH]) == UsedZones(d, t)
    ensures EntriesSame(d, t, d, t[n := FRESH])
  {
    hide Owned, TreeZones, ExactShape, NO_ZONES, Contents, EntryAt;
    NoZonesShape(d, o, n);
    NoTreeZones(d);
    var t' := t[n := FRESH];
    assert t' - {n} == t - {n};
    InodeKeepsEntries(d, t, t', n);
    assert BytesOf(d, FRESH) == [];
    forall z ensures z in UsedZones(d, t') <==> z in UsedZones(d, t) {
      if z in UsedZones(d, t') { var g :| g in t' && z in TreeZones(d, t'[g].zones); assert g in t && t[g] == t'[g]; }
      if z in UsedZones(d, t) { var g :| g in t && z in TreeZones(d, t[g].zones); assert t'[g] == t[g]; }
    }
  }

  lemma NoRefs(d: Disk, t: Table, n: nat)
    requires NoneDangles(d, t) && n !in t && n != 0
    ensures Refs(d, t, n) == {}
  {
    hide EntryAt, Refs;
    forall q ensures q !in Refs(d, t, n) {
      RefsAre(d, t, n, q);
    }
  }

  /** What `minix_fs_touch` answers for a name that does not exist. */
  ghost function TouchAnswer(t: Table, ninodes: nat, dir: nat, nm: Name, noRoom: bool): Errno {
    if |nm| > NAME_LEN then ENAMETOOLONG
    else if dir !in t then ENOENT
    else if !t[dir].isDir then ENOTDIR
    else if NoInode(t, ninodes) then ENOSPC
    else if nm == [] || noRoom then EIO
    else OK
  }

  lemma RoomSame(d: Disk, t: Table, t': Table, dir: nat)
    requires EntriesSame(d, t, d, t') && dir in t && dir in t' && t'[dir] == t[dir]
    ensures DirFull(d, t', dir) <==> DirFull(d, t, dir)
  {
    hide EntryAt, FirstGap;
    forall i, j | 0 <= i < FirstGap(t[dir].zones, 0) && 0 <= j < PER_BLOCK
      ensures EntryAt(d, t', Pos(dir, i, j)) == EntryAt(d, t, Pos(dir, i, j))
    {
    }
  }

  /** `minix_fs_touch`: a name that exists keeps its file, a new one gets an
      empty file of one link. */
  method Touch(v: Volume, dir: nat, nm: Name) returns (err: Errno, made: nat, ghost q: Pos)
    requires v.Valid() && LinksOk(v.disk, v.inodes) && CString(nm)
    modifies v`zmap, v`hint, v`free, v`disk, v`owner, v`inodes
    ensures v.Valid() && LinksOk(v.disk, v.inodes)
    ensures old(Absent(v.disk, v.inodes, dir, nm)) ==>
              (made != 0 <==> err == OK) && err == old(TouchAnswer(v.inodes, v.ninodes, dir, nm, NoRoom(v, dir)))
    ensures !old(Absent(v.disk, v.inodes, dir, nm)) ==>
              && made == 0 && q.dir == dir && EntryAt(v.disk, v.inodes, q).name == nm &&
                EntryAt(v.disk, v.inodes, q).ino in v.inodes
              && err == if v.inodes[EntryAt(v.disk, v.inodes, q).ino].isDir then EISDIR else OK
    ensures made == 0 ==> v.disk == old(v.disk) && v.inodes == old(v.inodes)
    ensures made != 0 ==>
              LowestUnused(old(v.inodes), made) && v.Files() == old(v.Files())[made := []] &&
              v.inodes.Keys == old(v.inodes).Keys + {made}
    ensures made != 0 ==>
              q.dir == dir && old(EntryAt(v.disk, v.inodes, q)).ino == 0 &&
              EntrySet(old(v.disk), old(v.inodes), v.disk, v.inodes, q, Entry(made, nm))
    ensures old(AllExact(v.disk, v.inodes)) ==> AllExact(v.disk, v.inodes)
    ensures old(AllSolid(v.disk, v.inodes)) ==> AllSolid(v.disk, v.inodes)
    ensures v.free + UsedZones(v.disk, v.inodes) == old(v.free + UsedZones(v.disk, v.inodes))
  {
    hide TreeZones, KeepsOthers, Owned, EntrySet, AllOk, EntryAt, DirChanged, Volume.Core, AllExact, AllSolid,
         UsedZones, FilesOf, Refs, EntriesSame, FRESH, Absent, DirFull, FirstGap, NoFreeZone, NoneDangles, Unique,
         Counted;
    var there, q0 := FindDirEntry(v, dir, nm);
    q := q0;
    if there != 0 {
      EntryOfDir(v.disk, v.inodes, q0);
      NotAbsent(v.disk, v.inodes, q0);
      return if v.inodes[there].isDir then EISDIR else OK, 0, q;
    }
    if |nm| > NAME_LEN { return ENAMETOOLONG, 0, q; }
    if dir !in v.inodes { return ENOENT, 0, q; }
    if !v.inodes[dir].isDir { return ENOTDIR, 0, q; }
    var n := AllocInode(v);
    if n == 0 { return ENOSPC, 0, q; }
    ghost var d0, o0, t0, free0 := v.disk, v.owner, v.inodes, v.free;
    FreshFile(d0, o0, t0, n);
    v.inodes := v.inodes[n := FRESH];
    ghost var t1 := v.inodes;
    RoomSame(d0, t0, t1, dir);
    NothingAdded(d0, t0, t1, dir, nm);
    var nd;
    err, nd, q := AddDirEntry(v, dir, nm, n);
    if err != OK {
      v.inodes := v.inodes - {n};
      assert v.inodes == t0;
      return EIO, 0, q;
    }
    ChangedDir(d0, o0, t1, v.disk, v.owner, dir, nd, q, Entry(n, nm));
    FreshIs();
    DirAndCount(d0, o0, free0, t1, v.disk, v.owner, v.free, dir, nd, q, Entry(n, nm), n, 1);
    assert t1[n := t1[n].(nlinks := 1)] == t1;
    v.inodes := v.inodes[dir := nd];
    made := n;
    SameThenEntrySet(d0, t0, d0, t1, v.disk, v.inodes, q, Entry(n, nm));
    SameEntry(d0, t0, d0, t1, q);
    FirstName(d0, t0, v.disk, v.inodes, q, n, nm);
  }

  lemma NothingAdded(d: Disk, t: Table, t': Table, dir: nat, nm: Name)
    requires EntriesSame(d, t, d, t')
    ensures Absent(d, t', dir, nm) <==> Absent(d, t, dir, nm)
  {
    hide EntryAt;
    forall p ensures EntryAt(d, t', p) == EntryAt(d, t, p) {
    }
  }

  /** The first name of a file that was not there. */
  lemma FirstName(d: Disk, t: Table, d': Disk, t': Table, q: Pos, f: nat, nm: Name)
    requires LinksOk(d, t) && EntryAt(d, t, q).ino == 0 && Absent(d, t, q.dir, nm) &&
              EntrySet(d, t, d', t', q, Entry(f, nm))
    requires f != 0 && f !in t && t'.Keys == t.Keys + {f} && !t'[f].isDir && t'[f].nlinks == 1
    requires forall g | g in t && g != f :: t'[g].isDir == t[g].isDir && t'[g].nlinks == t[g].nlinks
    ensures LinksOk(d', t')
  {
    hide EntryAt, Refs, NoneDangles, Unique, Absent, EntrySet;
    NoRefs(d, t, f);
    NameAdded(d, t, d', t', q, f, nm, 1);
  }

  lemma FreshIs()
    ensures FRESH.nlinks == 1 && !FRESH.isDir
  {
  }

  lemma SameEntry(d: Disk, t: Table, d': Disk, t': Table, q: Pos)
    requires EntriesSame(d, t, d', t')
    ensures EntryAt(d', t', q) == EntryAt(d, t, q)
  {
  }

  // ----- remove -----------------------------------------------------------------------

  lemma NoZonesLeft(d: Disk, o: Owners, f: nat, iz: Zones)
    requires Owned(d, o, f, iz) && ExactShape(d, iz, 0)
    ensures TreeZones(d, iz) == {}
  {
    ExactSpace(d, o, f, iz, 0);
  }

  /** An inode without zones takes no space. */
  lemma DropNoZones(d: Disk, t: Table, f: nat, nd: Inode)
    requires TreeZones(d, nd.zones) == {}
    ensures UsedZones(d, t[f := nd]) == UsedZones(d, t - {f})
  {
    hide TreeZones;
    var t1, t2 := t[f := nd], t - {f};
    forall z ensures z in UsedZones(d, t1) <==> z in UsedZones(d, t2) {
      if z in UsedZones(d, t1) { var g :| g in t1 && z in TreeZones(d, t1[g].zones); assert g in t2 && t2[g] == t1[g]; }
      if z in UsedZones(d, t2) { var g :| g in t2 && z in TreeZones(d, t2[g].zones); assert g in t1 && t2[g] == t1[g]; }
    }
  }

  /** Cutting a file to nothing and dropping its inode, as seen by everyone else. */
  lemma FileGone(d: Disk, o: Owners, free: set<nat>, t: Table, d': Disk, o': Owners, free': set<nat>, f: nat, w': Inode)
    requires KeepsOthers(d, o, d', o', f) && AllOk(d, o, t) && f in t && !t[f].isDir && Owned(d', o', f, w'.zones)
    requires free' + TreeZones(d', w'.zones) == free + TreeZones(d, t[f].zones)
    requires ExactShape(d, t[f].zones, ZoneCount(t[f].size)) ==> ExactShape(d', w'.zones, 0)
    ensures AllOk(d', o', t - {f}) && FilesOf(d', t - {f}) == FilesOf(d, t) - {f}
    ensures EntriesSame(d, t, d', t - {f})
    ensures AllSolid(d, t) ==> AllSolid(d', t - {f})
    ensures AllExact(d, t) ==>
              && AllExact(d', t - {f}) && free' == free + TreeZones(d, t[f].zones)
              && free' + UsedZones(d', t - {f}) == free + UsedZones(d, t)
  {
    hide AllOk, FilesOf, UsedZones, KeepsOthers, Owned, TreeZones, EntriesSame, ExactShape, AllSolid;
    FileDropped(d, o, t, d', o', f);
    assert (t - {f}) - {f} == t - {f};
    FileStepKeepsEntries(d, o, t, d', o', t - {f}, f);
    if AllExact(d, t) {
      assert Exact(d, t[f]);
      NoZonesLeft(d', o', f, w'.zones);
      SpaceKept(d, o, free, d', o', free', f, t, w');
      DropNoZones(d', t, f, w');
    }
  }

  /** Free the file whose last name has just gone from `dir`: (d, o, t) is the
      volume before that, and `nd` what becomes of the directory's inode. */
  method FreeFile(v: Volume, ino: nat, w: Inode, ghost d: Disk, ghost o: Owners, ghost t: Table, ghost dir: nat,
                  ghost nd: Inode, ghost q: Pos)
    requires v.Core() && v.inodes == t && AllOk(d, o, t) && DirChanged(d, o, t, v.disk, v.owner, dir, nd, q, NONE)
    requires dir in t && TreeZones(v.disk, nd.zones) == TreeZones(d, t[dir].zones)
    requires ino in t && !t[ino].isDir && w == t[ino].(nlinks := w.nlinks)
    modifies v`zmap, v`hint, v`free, v`disk, v`owner, v`inodes
    ensures v.Core() && v.inodes == t - {ino}
    ensures AllOk(v.disk, v.owner, t[dir := nd] - {ino}) &&
              FilesOf(v.disk, t[dir := nd] - {ino}) == FilesOf(d, t) - {ino}
    ensures EntrySet(d, t, v.disk, t[dir := nd] - {ino}, q, NONE)
    ensures AllSolid(d, t) ==> AllSolid(v.disk, t[dir := nd] - {ino})
    ensures AllExact(d, t) ==>
              && AllExact(v.disk, t[dir := nd] - {ino}) && v.free == old(v.free) + TreeZones(d, t[ino].zones)
              && v.free + UsedZones(v.disk, t[dir := nd] - {ino}) == old(v.free) + UsedZones(d, t)
    ensures Freed(old(v.free), v.free, d, t[ino].zones, 0, ZoneCount(t[ino].size))
    ensures forall z | z in v.free && z !in old(v.free) :: v.first <= z < v.Limit()
  {
    hide AllOk, FilesOf, UsedZones, KeepsOthers, Owned, TreeZones, EntriesSame, EntrySet, ExactShape, AllExact,
         AllSolid, Volume.Core, LeavesCut, DirChanged;
    ghost var d1, o1, free1, t1 := v.disk, v.owner, v.free, t[dir := nd];
    ChangedDir(d, o, t, d1, o1, dir, nd, q, NONE);
    DirAndCount(d, o, free1, t, d1, o1, free1, dir, nd, q, NONE, ino, t[ino].nlinks);
    assert t[ino := t[ino].(nlinks := t[ino].nlinks)] == t;
    OtherDirStep(d, o, t, d1, o1, dir, nd, q, NONE, ino);
    DirOk(d1, o1, t1, ino);
    ZoneCountNone();
    ZonesUnmoved(d, o, t, d1, o1, dir, nd, q, ino);
    OwnedZonesUsable(v, ino, w.zones);
    var w' := v.TruncateZones(ino, w, w.size, 0);
    v.inodes := v.inodes[ino := w'.(size := 0)];
    v.inodes := v.inodes - {ino};
    assert v.inodes == t - {ino};
    FileGone(d1, o1, free1, t1, v.disk, v.owner, v.free, ino, w');
    EntrySetThenSame(d, t, d1, t1, v.disk, t1 - {ino}, q, NONE);
  }

  lemma OwnedZonesUsable(v: Volume, ino: nat, iz: Zones)
    requires v.Core() && Owned(v.disk, v.owner, ino, iz)
    ensures forall z | z in TreeZones(v.disk, iz) :: v.first <= z < v.Limit()
  {
    hide TreeZones, Owned;
    TreeZonesOwned(v.disk, v.owner, ino, iz);
  }

  /** A step in a directory moves no zone of a file. */
  lemma ZonesUnmoved(d: Disk, o: Owners, t: Table, d1: Disk, o1: Owners, dir: nat, nd: Inode, q: Pos, f: nat)
    requires DirChanged(d, o, t, d1, o1, dir, nd, q, NONE) && AllOk(d, o, t) && f in t && f != dir
    ensures forall free: set<nat>, free': set<nat>, n: nat | Freed(free, free', d1, t[f].zones, 0, n) ::
              Freed(free, free', d, t[f].zones, 0, n)
  {
    hide SlotZone, LeafSlot;
    assert FileOk(d, o, f, t[f]);
    OtherFileKept(d, o, d1, o1, dir, f, t[f].zones);
    forall i | 0 <= i < MAX_LEAVES ensures LeafZone(d1, t[f].zones, i) == LeafZone(d, t[f].zones, i) {
    }
  }

  lemma ZoneCountNone()
    ensures ZoneCount(0) == 0
  {
  }

  /** `minix_fs_rm`: one name goes. The inode and its zones go with it exactly
      when the count says it was the last. */
  method Rm(v: Volume, dir: nat, nm: Name) returns (err: Errno, ghost f: nat, ghost q: Pos)
    requires v.Valid() && NoneDangles(v.disk, v.inodes) && Unique(v.disk, v.inodes)
    modifies v`zmap, v`hint, v`free, v`disk, v`owner, v`inodes
    ensures v.Valid()
    ensures err != OK ==> v.disk == old(v.disk) && v.inodes == old(v.inodes) && v.free == old(v.free)
    ensures err == ENOENT <==> old(Absent(v.disk, v.inodes, dir, nm))
    ensures err != ENOENT ==>
              f != 0 && f in old(v.inodes) && q.dir == dir && old(EntryAt(v.disk, v.inodes, q)) == Entry(f, nm)
    ensures err != ENOENT ==> err == if NodeAt(old(v.inodes), f).isDir then EISDIR else if nm == [] then EIO else OK
    ensures err == OK ==> EntrySet(old(v.disk), old(v.inodes), v.disk, v.inodes, q, NONE)
    ensures err == OK ==>
              v.inodes.Keys == if NodeAt(old(v.inodes), f).nlinks <= 1 then
              old(v.inodes).Keys - {f} else old(v.inodes).Keys
    ensures err == OK ==>
              v.Files() == if NodeAt(old(v.inodes), f).nlinks <= 1 then old(v.Files()) - {f} else old(v.Files())
    ensures err == OK && f in v.inodes ==>
              NodeAt(v.inodes, f) == NodeAt(old(v.inodes), f).(nlinks := NodeAt(old(v.inodes), f).nlinks - 1)
    ensures err == OK ==>
              forall g | g in v.inodes && g in old(v.inodes) && !old(v.inodes)[g].isDir && g != f ::
              v.inodes[g] == old(v.inodes)[g]
    ensures err == OK && old(LinksOk(v.disk, v.inodes)) ==> LinksOk(v.disk, v.inodes)
    ensures old(AllSolid(v.disk, v.inodes)) ==> AllSolid(v.disk, v.inodes)
    ensures err == OK && old(AllExact(v.disk, v.inodes)) ==>
              && AllExact(v.disk, v.inodes) &&
                v.free + UsedZones(v.disk, v.inodes) == old(v.free + UsedZones(v.disk, v.inodes))
              && v.free == old(v.free) + if f in v.inodes then {} else old(TreeZones(v.disk, v.inodes[f].zones))
    ensures err == OK ==>
              dir in v.inodes && dir in old(v.inodes) && v.inodes[dir].zones == old(v.inodes)[dir].zones &&
              v.inodes[dir].isDir
    ensures err == OK ==>
              if f in v.inodes then v.free == old(v.free)
              else Freed(old(v.free), v.free, old(v.disk), NodeAt(old(v.inodes), f).zones, 0,
                  ZoneCount(NodeAt(old(v.inodes), f).size))
    ensures err == OK ==> forall z | z in v.free && z !in old(v.free) :: v.first <= z < v.Limit()
  {
    hide TreeZones, KeepsOthers, Owned, EntrySet, AllOk, EntryAt, DirChanged, Volume.Core, AllExact, AllSolid,
         UsedZones, FilesOf, Refs, EntriesSame, Unique, Counted, Absent, NoneDangles;
    var ino, q0 := FindDirEntry(v, dir, nm);
    f, q := ino, q0;
    if ino == 0 { return ENOENT, f, q; }
    EntryOfDir(v.disk, v.inodes, q0);
    NotAbsent(v.disk, v.inodes, q0);
    NameFits(v.disk, v.inodes, q0);
    var w := v.inodes[ino];
    if w.isDir { return EISDIR, f, q; }
    ghost var d0, o0, t0, free0 := v.disk, v.owner, v.inodes, v.free;
    var nd;
    err, nd, q := RemoveDirEntry(v, dir, nm);
    if err != OK { return EIO, f, q0; }
    ChangedDir(d0, o0, t0, v.disk, v.owner, dir, nd, q, NONE);
    SameNameSamePlace(d0, t0, q0, q);
    if w.nlinks > 0 { w := w.(nlinks := w.nlinks - 1); }
    if w.nlinks == 0 {
      FreeFile(v, ino, w, d0, o0, t0, dir, nd, q);
      assert v.inodes[dir := nd] == t0[dir := nd] - {ino};
    } else {
      DirAndCount(d0, o0, free0, t0, v.disk, v.owner, v.free, dir, nd, q, NONE, ino, w.nlinks);
      v.inodes := v.inodes[ino := w];
    }
    v.inodes := v.inodes[dir := nd];
    if LinksOk(d0, t0) {
      HasName(d0, t0, ino);
      NameRemoved(d0, t0, v.disk, v.inodes, q, ino);
    }
  }

  lemma {:induction false} TrimmedShort(f: seq<Byte>)
    ensures |Trimmed(f)| <= |f|
  {
    if f != [] { TrimmedShort(f[1..]); }
  }

  lemma NameFits(d: Disk, t: Table, q: Pos)
    ensures |EntryAt(d, t, q).name| <= NAME_LEN
  {
    hide Trimmed, Ptr;
    if q.dir in t && q.i < DIRECT && q.j < PER_BLOCK {
      TrimmedShort(BlockAt(d, t[q.dir].zones[q.i])[16 * q.j + 2..16 * q.j + 16]);
    }
  }

  lemma HasName(d: Disk, t: Table, f: nat)
    requires LinksOk(d, t) && f in t && !t[f].isDir
    ensures t[f].nlinks > 0
  {
  }

  lemma SameNameSamePlace(d: Disk, t: Table, p: Pos, q: Pos)
    requires Unique(d, t) && SameName(d, t, p, q)
    ensures p == q
  {
  }

  lemma OtherDirStep(d: Disk, o: Owners, t: Table, d': Disk, o': Owners, dir: nat, nd: Inode, q: Pos, e: Entry, f: nat)
    requires DirChanged(d, o, t, d', o', dir, nd, q, e) && AllOk(d, o, t) && f in t && f != dir
    ensures TreeZones(d', t[f].zones) == TreeZones(d, t[f].zones)
  {
    hide TreeZones, KeepsOthers, Owned;
    DirOk(d, o, t, f);
    OtherKept(d, o, d', o', dir, f, t[f]);
  }

  // ----- the names of a volume, as a map -------------------------------------------------

  datatype Key = Key(dir: nat, nm: Name)

  ghost predicate HasKey(d: Disk, t: Table, q: Pos, k: Key) {
    q.dir == k.dir && EntryAt(d, t, q).ino != 0 && EntryAt(d, t, q).name == k.nm
  }

  ghost function KeysOf(d: Disk, t: Table): set<Key> {
    set q | q in Places(t) && EntryAt(d, t, q).ino != 0 :: Key(q.dir, EntryAt(d, t, q).name)
  }

  ghost function InoOf(d: Disk, t: Table, k: Key): nat {
    if exists q :: HasKey(d, t, q, k) then
      var q :| HasKey(d, t, q, k);
      EntryAt(d, t, q).ino
    else 0
  }

  /** Which inode each name names. */
  ghost function NamesOf(d: Disk, t: Table): map<Key, nat> {
    map k | k in KeysOf(d, t) :: InoOf(d, t, k)
  }

  lemma LivePlace(d: Disk, t: Table, q: Pos)
    requires EntryAt(d, t, q).ino != 0
    ensures q in Places(t)
  {
    hide SlotEntry;
    assert q == Pos(q.dir, q.i, q.j);
  }

  lemma NameAt(d: Disk, t: Table, q: Pos)
    requires Unique(d, t) && EntryAt(d, t, q).ino != 0
    ensures Key(q.dir, EntryAt(d, t, q).name) in NamesOf(d, t)
    ensures NamesOf(d, t)[Key(q.dir, EntryAt(d, t, q).name)] == EntryAt(d, t, q).ino
  {
    hide EntryAt;
    LivePlace(d, t, q);
    var k := Key(q.dir, EntryAt(d, t, q).name);
    assert HasKey(d, t, q, k);
    forall p | HasKey(d, t, p, k) ensures p == q {
      assert SameName(d, t, p, q);
    }
  }

  lemma PlaceOf(d: Disk, t: Table, k: Key) returns (q: Pos)
    requires Unique(d, t) && k in NamesOf(d, t)
    ensures q.dir == k.dir && EntryAt(d, t, q) == Entry(NamesOf(d, t)[k], k.nm) && NamesOf(d, t)[k] != 0
  {
    hide EntryAt;
    q :| q in Places(t) && EntryAt(d, t, q).ino != 0 && Key(q.dir, EntryAt(d, t, q).name) == k;
    NameAt(d, t, q);
  }

  lemma NamedIff(d: Disk, t: Table, k: Key, f: nat)
    requires Unique(d, t)
    ensures NamedBy(d, t, k.dir, k.nm, f) <==> k in NamesOf(d, t) && NamesOf(d, t)[k] == f
    ensures Absent(d, t, k.dir, k.nm) <==> k !in NamesOf(d, t)
  {
    hide EntryAt, NamesOf;
    if k in NamesOf(d, t) {
      var q := PlaceOf(d, t, k);
      assert EntryAt(d, t, q).ino == NamesOf(d, t)[k];
    }
    if NamedBy(d, t, k.dir, k.nm, f) {
      var q: Pos :| q.dir == k.dir && EntryAt(d, t, q) == Entry(f, k.nm);
      NameAt(d, t, q);
    }
    if !Absent(d, t, k.dir, k.nm) {
      var q: Pos :| q.dir == k.dir && EntryAt(d, t, q).ino != 0 && EntryAt(d, t, q).name == k.nm;
      NameAt(d, t, q);
    }
  }

  lemma NamesAdded(d: Disk, t: Table, d': Disk, t': Table, q: Pos, f: nat, nm: Name)
    requires Unique(d, t) && Unique(d', t') && EntrySet(d, t, d', t', q, Entry(f, nm)) && EntryAt(d, t, q).ino == 0 &&
              f != 0
    ensures NamesOf(d', t') == NamesOf(d, t)[Key(q.dir, nm) := f]
  {
    hide EntryAt, NamesOf;
    var n, n', kq := NamesOf(d, t), NamesOf(d', t'), Key(q.dir, nm);
    assert EntryAt(d', t', q) == Entry(f, nm);
    NameAt(d', t', q);
    forall k | k in n && k != kq ensures k in n' && n'[k] == n[k] {
      var p := PlaceOf(d, t, k);
      assert EntryAt(d', t', p) == EntryAt(d, t, p);
      NameAt(d', t', p);
    }
    forall k | k in n' && k != kq ensures k in n {
      var p := PlaceOf(d', t', k);
      assert EntryAt(d', t', p) == EntryAt(d, t, p);
      NameAt(d, t, p);
    }
  }

  lemma NamesRemoved(d: Disk, t: Table, d': Disk, t': Table, q: Pos)
    requires Unique(d, t) && EntrySet(d, t, d', t', q, NONE) && EntryAt(d, t, q).ino != 0
    ensures Unique(d', t')
    ensures NamesOf(d', t') == NamesOf(d, t) - {Key(q.dir, EntryAt(d, t, q).name)}
  {
    hide EntryAt, NamesOf;
    forall p: Pos, r: Pos | SameName(d', t', p, r) ensures p == r {
      assert EntryAt(d', t', p) == if p == q then NONE else EntryAt(d, t, p);
      assert EntryAt(d', t', r) == if r == q then NONE else EntryAt(d, t, r);
    }
    var n, n', kq := NamesOf(d, t), NamesOf(d', t'), Key(q.dir, EntryAt(d, t, q).name);
    forall k | k in n && k != kq ensures k in n' && n'[k] == n[k] {
      var p := PlaceOf(d, t, k);
      assert EntryAt(d', t', p) == EntryAt(d, t, p);
      NameAt(d', t', p);
    }
    forall k | k in n' ensures k in n && k != kq {
      var p := PlaceOf(d', t', k);
      assert EntryAt(d', t', p) == if p == q then NONE else EntryAt(d, t, p);
      NameAt(d, t, p);
      assert SameName(d, t, p, q) ==> p == q;
    }
  }

  lemma NamesSame(d: Disk, t: Table, d': Disk, t': Table)
    requires Unique(d, t) && Unique(d', t') && EntriesSame(d, t, d', t')
    ensures NamesOf(d', t') == NamesOf(d, t)
  {
    hide EntryAt, NamesOf;
    var n, n' := NamesOf(d, t), NamesOf(d', t');
    forall k | k in n ensures k in n' && n'[k] == n[k] {
      var p := PlaceOf(d, t, k);
      assert EntryAt(d', t', p) == EntryAt(d, t, p);
      NameAt(d', t', p);
    }
    forall k | k in n' ensures k in n {
      var p := PlaceOf(d', t', k);
      assert EntryAt(d', t', p) == EntryAt(d, t, p);
      NameAt(d, t, p);
    }
  }

  /** A count of 1 means that no other name names the file. */
  lemma LastName(d: Disk, t: Table, k: Key)
    requires LinksOk(d, t) && k in NamesOf(d, t) && NamesOf(d, t)[k] in t && !t[NamesOf(d, t)[k]].isDir
    ensures t[NamesOf(d, t)[k]].nlinks <= 1 <==> NamesOf(d, t)[k] !in (NamesOf(d, t) - {k}).Values
  {
    hide EntryAt, NamesOf, Refs;
    LinksParts(d, t);
    var n := NamesOf(d, t);
    var f := n[k];
    var q := PlaceOf(d, t, k);
    RefsAre(d, t, f, q);
    assert 0 < t[f].nlinks == |Refs(d, t, f)|;
    if f in (n - {k}).Values {
      var k' :| k' in n - {k} && (n - {k})[k'] == f;
      var p := PlaceOf(d, t, k');
      RefsAre(d, t, f, p);
      assert {p, q} <= Refs(d, t, f) && p != q;
      Subset({p, q}, Refs(d, t, f));
    }
    if t[f].nlinks > 1 {
      var rest := Refs(d, t, f) - {q};
      assert Refs(d, t, f) == rest + {q};
      var p :| p in rest;
      RefsAre(d, t, f, p);
      NameAt(d, t, p);
      var k' := Key(p.dir, EntryAt(d, t, p).name);
      assert SameName(d, t, p, q) ==> p == q;
      assert k' in n - {k} && (n - {k})[k'] == f;
    }
  }

  lemma Subset(a: set<Pos>, b: set<Pos>)
    requires a <= b
    ensures |a| <= |b|
  {
    assert b == a + (b - a);
  }

  /** What is left of the files when a name goes: all but one that has no other. */
  ghost function Without(names: map<Key, nat>, files: map<nat, seq<Byte>>, k: Key): map<nat, seq<Byte>> {
    if k in names && names[k] !in (names - {k}).Values then files - {names[k]} else files
  }

  // ----- rename -----------------------------------------------------------------------

  lemma NamesOne(d: Disk, t: Table, dir: nat, nm: Name, f: nat, g: nat)
    requires Unique(d, t) && NamedBy(d, t, dir, nm, f) && NamedBy(d, t, dir, nm, g)
    ensures f == g
  {
    hide EntryAt;
    var p: Pos :| p.dir == dir && EntryAt(d, t, p) == Entry(f, nm);
    var q: Pos :| q.dir == dir && EntryAt(d, t, q) == Entry(g, nm);
    assert SameName(d, t, p, q);
  }

  /** A name other than the changed one goes on naming what it named. */
  lemma OtherNameKept(d: Disk, t: Table, d': Disk, t': Table, q: Pos, e: Entry, dir: nat, nm: Name, f: nat)
    requires EntrySet(d, t, d', t', q, e) && NamedBy(d, t, dir, nm, f)
    requires q.dir != dir || EntryAt(d, t, q).ino == 0 || EntryAt(d, t, q).name != nm
    ensures NamedBy(d', t', dir, nm, f)
  {
    hide EntryAt;
    var p: Pos :| p.dir == dir && EntryAt(d, t, p) == Entry(f, nm);
    assert EntryAt(d', t', p) == EntryAt(d, t, p);
  }

  lemma NameGone(d: Disk, t: Table, d': Disk, t': Table, q: Pos)
    requires EntrySet(d, t, d', t', q, NONE) && Unique(d, t) && EntryAt(d, t, q).ino != 0
    ensures Absent(d', t', q.dir, EntryAt(d, t, q).name)
  {
    hide EntryAt;
    forall p: Pos | p.dir == q.dir &&
         EntryAt(d', t', p).ino != 0 ensures EntryAt(d', t', p).name != EntryAt(d, t, q).name {
      assert EntryAt(d', t', p) == if p == q then NONE else EntryAt(d, t, p);
      assert SameName(d, t, p, q) ==> p == q;
    }
  }

  lemma NewName(d: Disk, t: Table, d': Disk, t': Table, q: Pos, e: Entry)
    requires EntrySet(d, t, d', t', q, e) && e.ino != 0
    ensures NamedBy(d', t', q.dir, e.name, e.ino)
  {
    assert EntryAt(d', t', q) == e;
  }

  /** A name that is absent names nothing. */
  lemma AbsentNamesNone(d: Disk, t: Table, dir: nat, nm: Name, f: nat)
    requires Absent(d, t, dir, nm)
    ensures !NamedBy(d, t, dir, nm, f)
  {
    hide EntryAt;
  }

  /** link, then unlink of the old name. A count of 255 wraps in between, and the
      unlink then frees the file it has just moved. */
  method MoveName(v: Volume, dir: nat, nm: Name, newDir: nat, newNm: Name, ghost f: nat) returns (err: Errno)
    requires v.Valid() && LinksOk(v.disk, v.inodes) && CString(newNm)
    requires Absent(v.disk, v.inodes, dir, nm) || (NamedBy(v.disk, v.inodes, dir, nm, f) && f in v.inodes)
    modifies v`zmap, v`hint, v`free, v`disk, v`owner, v`inodes
    ensures ExactKept(v)
    ensures old(AllSolid(v.disk, v.inodes)) ==> AllSolid(v.disk, v.inodes)
    ensures v.Valid()
    ensures err == old(MoveAnswer(LinkAnswer(v.disk, v.inodes, dir, nm, newDir, newNm, f, NoRoom(v, newDir)), nm))
    ensures old(Absent(v.disk, v.inodes, dir, nm)) ==>
              v.disk == old(v.disk) && v.inodes == old(v.inodes) && LinksOk(v.disk, v.inodes)
    ensures err == OK ==>
              f in old(v.inodes) && NamedBy(v.disk, v.inodes, newDir, newNm, f) && Absent(v.disk, v.inodes, dir, nm)
    ensures err == OK ==>
              NamesOf(v.disk, v.inodes) == old(NamesOf(v.disk, v.inodes))[Key(newDir, newNm) := f] - {Key(dir, nm)}
    ensures err == OK && NodeAt(old(v.inodes), f).nlinks < 255 ==>
              LinksOk(v.disk, v.inodes) && v.Files() == old(v.Files()) && f in v.inodes && NodeAt(v.inodes,
                  f) == NodeAt(old(v.inodes), f)
    ensures err == OK && NodeAt(old(v.inodes), f).nlinks == 255 ==>
              !LinksOk(v.disk, v.inodes) && v.Files() == old(v.Files()) - {f} && f !in v.inodes
    ensures err != OK ==> v.Files() == old(v.Files())
    ensures err != OK && !old(Absent(v.disk, v.inodes, dir, nm)) ==>
              NamedBy(v.disk, v.inodes, dir, nm,
                  f) && (nm != [] ==> v.disk == old(v.disk) && v.inodes == old(v.inodes) && LinksOk(v.disk, v.inodes))
  {
    hide Volume.Core, AllOk, EntryAt, EntrySet, NamedBy, Absent, AllExact, AllSolid, UsedZones, FilesOf, TreeZones,
         Unique, NoneDangles, Counted, NoRoom, LinksOk, NamesOf;
    LinksParts(v.disk, v.inodes);
    ghost var f0, f1, q, q1;
    err, f0, q := Link(v, dir, nm, newDir, newNm);
    ghost var d0, t0, d1, t1 := old(v.disk), old(v.inodes), v.disk, v.inodes;
    if !Absent(d0, t0, dir, nm) { NamesOne(d0, t0, dir, nm, f, f0); }
    if err != OK { return; }
    OtherNameKept(d0, t0, d1, t1, q, Entry(f, newNm), dir, nm, f);
    NewName(d0, t0, d1, t1, q, Entry(f, newNm));
    NamesAdded(d0, t0, d1, t1, q, f, newNm);
    if Absent(d1, t1, dir, nm) { AbsentNamesNone(d1, t1, dir, nm, f); }
    err, f1, q1 := Rm(v, dir, nm);
    PlaceNames(d1, t1, q1);
    NamesOne(d1, t1, dir, nm, f, f1);
    if err != OK { return; }
    NameGone(d1, t1, v.disk, v.inodes, q1);
    NamesRemoved(d1, t1, v.disk, v.inodes, q1);
    HasName(d0, t0, f);
    if newDir == dir && newNm == nm { AbsentNamesNone(d0, t0, dir, nm, f); }
    OtherNameKept(d1, t1, v.disk, v.inodes, q1, NONE, newDir, newNm, f);
    if f !in v.inodes { DanglingIsWrong(v.disk, v.inodes, newDir, newNm, f); }
  }

  /** The answer of a link followed by an unlink. */
  function MoveAnswer(linked: Errno, nm: Name): Errno {
    if linked != OK then linked else if nm == [] then EIO else OK
  }

  lemma DanglingIsWrong(d: Disk, t: Table, dir: nat, nm: Name, f: nat)
    requires NamedBy(d, t, dir, nm, f) && f !in t
    ensures !LinksOk(d, t)
  {
    hide EntryAt;
    var p: Pos :| p.dir == dir && EntryAt(d, t, p) == Entry(f, nm);
    assert EntryAt(d, t, p).ino == f;
  }

  lemma LinksParts(d: Disk, t: Table)
    requires LinksOk(d, t)
    ensures NoneDangles(d, t) && Unique(d, t)
  {
  }

  lemma PlaceNames(d: Disk, t: Table, q: Pos)
    requires EntryAt(d, t, q).ino != 0
    ensures NamedBy(d, t, q.dir, EntryAt(d, t, q).name, EntryAt(d, t, q).ino)
  {
  }

  lemma NamedInUse(d: Disk, t: Table, dir: nat, nm: Name, f: nat)
    requires NoneDangles(d, t) && NamedBy(d, t, dir, nm, f)
    ensures f in t
  {
    hide EntryAt;
  }

  /** The name's entry lies in a zone behind a missing one, where new entries do not go. */
  ghost predicate BehindGap(d: Disk, t: Table, dir: nat, nm: Name) {
    exists q: Pos :: NamePlace(d, t, q, dir, nm) && dir in t && q.i > FirstGap(t[dir].zones, 0)
  }

  ghost predicate NamePlace(d: Disk, t: Table, q: Pos, dir: nat, nm: Name) {
    q.dir == dir && EntryAt(d, t, q).ino != 0 && EntryAt(d, t, q).name == nm
  }

  /** Removing its last name frees a zone of the file. */
  ghost predicate GivesZones(d: Disk, t: Table, g: nat) {
    g in t && t[g].nlinks <= 1 && HasLeaf(d, t[g].zones, 0, ZoneCount(t[g].size))
  }

  /** Once the name has gone from the directory, it still cannot take an entry: the place
      that became free is behind a gap, in front of it all are taken, and no zone
      is free even then. */
  ghost predicate StillNoRoom(v: Volume, dir: nat, nm: Name)
    reads v`free, v`disk, v`inodes
  {
    && BehindGap(v.disk, v.inodes, dir, nm) && DirFull(v.disk, v.inodes, dir) && NoFreeZone(v)
    && forall g | NamedBy(v.disk, v.inodes, dir, nm, g) :: !GivesZones(v.disk, v.inodes, g)
  }

  /** What a removal does to the room in its directory. */
  lemma RoomOnceGone(d: Disk, t: Table, d': Disk, t': Table, q: Pos)
    requires Unique(d, t) && EntrySet(d, t, d', t', q, NONE) && EntryAt(d, t, q).ino != 0
    requires q.dir in t && q.dir in t' && t'[q.dir].zones == t[q.dir].zones
    ensures BehindGap(d, t, q.dir, EntryAt(d, t, q).name) <==> q.i > FirstGap(t[q.dir].zones, 0)
    ensures DirFull(d', t', q.dir) <==> q.i > FirstGap(t[q.dir].zones, 0) && DirFull(d, t, q.dir)
    ensures q.i > FirstGap(t[q.dir].zones, 0) ==> FirstGap(t[q.dir].zones, 0) < DIRECT
  {
    hide EntryAt, FirstGap;
    var g := FirstGap(t[q.dir].zones, 0);
    PlaceInZone(d, t, q);
    OneBehind(d, t, q);
    forall i, j | 0 <= i < g && 0 <= j < PER_BLOCK
      ensures EntryAt(d', t', Pos(q.dir, i, j)) == if Pos(q.dir, i, j) == q then
                NONE else EntryAt(d, t, Pos(q.dir, i, j))
    {
    }
    if q.i <= g {
      assert q == Pos(q.dir, q.i, q.j) && EntryAt(d', t', Pos(q.dir, q.i, q.j)).ino == 0;
    }
  }

  lemma OnlyOneNamed(d: Disk, t: Table, dir: nat, nm: Name, g: nat)
    requires Unique(d, t) && NamedBy(d, t, dir, nm, g)
    ensures (forall f | NamedBy(d, t, dir, nm, f) :: !GivesZones(d, t, f)) <==> !GivesZones(d, t, g)
  {
    hide EntryAt, NamedBy, GivesZones;
    forall f | NamedBy(d, t, dir, nm, f) ensures f == g { NamesOne(d, t, dir, nm, f, g); }
  }

  /** Whether a removal leaves a zone free. */
  lemma ZonesGiven(d: Disk, t: Table, free: set<nat>, free': set<nat>, g: nat, first: nat, limit: nat, stays: bool)
    requires g in t && (stays <==> t[g].nlinks > 1)
    requires if stays then free' == free else Freed(free, free', d, t[g].zones, 0, ZoneCount(t[g].size))
    requires forall z | z in free' && z !in free :: first <= z < limit
    ensures (forall y | first <= y < limit :: y !in free') <==>
              (forall y | first <= y < limit :: y !in free) && !GivesZones(d, t, g)
  {
    hide HasLeaf, ZoneCount;
    if free' != free {
      var z :| z in free' && z !in free;
    }
  }

  lemma OneBehind(d: Disk, t: Table, q: Pos)
    requires Unique(d, t) && EntryAt(d, t, q).ino != 0 && q.dir in t
    ensures BehindGap(d, t, q.dir, EntryAt(d, t, q).name) <==> q.i > FirstGap(t[q.dir].zones, 0)
  {
    hide EntryAt, FirstGap;
    var nm := EntryAt(d, t, q).name;
    assert NamePlace(d, t, q, q.dir, nm);
    forall p: Pos | NamePlace(d, t, p, q.dir, nm) ensures p == q {
      assert SameName(d, t, p, q);
    }
  }

  lemma PlaceInZone(d: Disk, t: Table, q: Pos)
    requires EntryAt(d, t, q).ino != 0
    ensures q.dir in t && t[q.dir].isDir && q.i < DIRECT && q.j < PER_BLOCK && t[q.dir].zones[q.i] != 0
  {
  }

  /** Take the new name away from whatever file has it. */
  method ClearTarget(v: Volume, newDir: nat, newNm: Name, ghost dir: nat, ghost nm: Name,
                     ghost f: nat) returns (err: Errno)
    requires v.Valid() && LinksOk(v.disk, v.inodes)
    requires NamedBy(v.disk, v.inodes, dir, nm, f) && f in v.inodes && !v.inodes[f].isDir
    requires forall g | NamedBy(v.disk, v.inodes, newDir, newNm, g) && g in v.inodes :: !v.inodes[g].isDir
    modifies v`zmap, v`hint, v`free, v`disk, v`owner, v`inodes
    ensures ExactKept(v)
    ensures old(AllSolid(v.disk, v.inodes)) ==> AllSolid(v.disk, v.inodes)
    ensures v.Valid() && LinksOk(v.disk, v.inodes)
    ensures err == if newNm == [] && !old(Absent(v.disk, v.inodes, newDir, newNm)) then EACCES else OK
    ensures err != OK ==> v.disk == old(v.disk) && v.inodes == old(v.inodes)
    ensures err == OK ==> Absent(v.disk, v.inodes, newDir, newNm)
    ensures err == OK ==> NamesOf(v.disk, v.inodes) == old(NamesOf(v.disk, v.inodes)) - {Key(newDir, newNm)}
    ensures err == OK ==> v.Files() == old(Without(NamesOf(v.disk, v.inodes), v.Files(), Key(newDir, newNm)))
    ensures err == OK && (dir, nm) == (newDir, newNm) ==> (f in v.inodes <==> NodeAt(old(v.inodes), f).nlinks > 1)
    ensures err == OK && (dir, nm) != (newDir, newNm) ==>
              && NamedBy(v.disk, v.inodes, dir, nm, f) && f in v.inodes
              && NodeAt(v.inodes, f) == NodeAt(old(v.inodes), f).(nlinks := Lowered(NodeAt(old(v.inodes), f).nlinks,
                  old(NamedBy(v.disk, v.inodes, newDir, newNm, f))))
    ensures err == OK && !old(Absent(v.disk, v.inodes, newDir, newNm)) ==>
              && (NoRoom(v, newDir) <==> old(StillNoRoom(v, newDir, newNm)))
              && newDir in v.inodes && v.inodes[newDir].isDir && |newNm| <= NAME_LEN
    ensures err == OK && old(Absent(v.disk, v.inodes, newDir, newNm)) ==>
              v.disk == old(v.disk) && v.inodes == old(v.inodes) && v.free == old(v.free)
  {
    hide Volume.Core, AllOk, EntryAt, EntrySet, NamedBy, Absent, AllExact, AllSolid, UsedZones, FilesOf, TreeZones,
         Unique, NoneDangles, Counted, NamesOf, LinksOk;
    LinksParts(v.disk, v.inodes);
    ghost var k := Key(newDir, newNm);
    NamedIff(v.disk, v.inodes, k, f);
    var there, q := FindDirEntry(v, newDir, newNm);
    if there == 0 {
      AbsentNamesNone(v.disk, v.inodes, newDir, newNm, f);
      assert (dir, nm) != (newDir, newNm);
      assert NamesOf(v.disk, v.inodes) - {k} == NamesOf(v.disk, v.inodes);
      return OK;
    }
    PlaceNames(v.disk, v.inodes, q);
    NotAbsent(v.disk, v.inodes, q);
    EntryOfDir(v.disk, v.inodes, q);
    ghost var d0, t0 := v.disk, v.inodes;
    ghost var g;
    NameFits(d0, t0, q);
    err, g, q := Rm(v, newDir, newNm);
    PlaceNames(d0, t0, q);
    if err != OK { return EACCES; }
    assert NoRoom(v, newDir) <==> old(StillNoRoom(v, newDir, newNm)) by {
      RoomOnceGone(d0, t0, v.disk, v.inodes, q);
      ZonesGiven(d0, t0, old(v.free), v.free, g, v.first, v.Limit(), g in v.inodes);
      OnlyOneNamed(d0, t0, newDir, newNm, g);
    }
    NameGone(d0, t0, v.disk, v.inodes, q);
    NamesRemoved(d0, t0, v.disk, v.inodes, q);
    NameAt(d0, t0, q);
    LastName(d0, t0, k);
    LinksParts(v.disk, v.inodes);
    HasName(d0, t0, g);
    if NamedBy(d0, t0, newDir, newNm, f) { NamesOne(d0, t0, newDir, newNm, f, g); }
    if (dir, nm) != (newDir, newNm) {
      OtherNameKept(d0, t0, v.disk, v.inodes, q, NONE, dir, nm, f);
      NamedInUse(v.disk, v.inodes, dir, nm, f);
    }
  }

  /** A count with one name fewer, if `one`. */
  function Lowered(c: Byte, one: bool): Byte {
    if one && c > 0 then c - 1 else c
  }

  /** A volume as its users see it, with the tables behind it. */
  datatype View = View(d: Disk, t: Table, names: map<Key, nat>, files: map<nat, seq<Byte>>)

  ghost function ViewOf(v: Volume): View
    reads v
  {
    View(v.disk, v.inodes, NamesOf(v.disk, v.inodes), v.Files())
  }

  /** A rename that went through: the name has moved, a file that had only the
      new name is gone, and the inode is as it was but for a name it had twice;
      unless its count wrapped, when it is gone itself. */
  ghost predicate RenamedOk(s: View, s': View, k: Key, k': Key, f: nat) {
    && k != k' && f in s.t && s'.names == s.names[k' := f] - {k}
    && s'.files == Without(s.names, s.files, k') - (if Wraps(s, k', f) then {f} else {})
    && (f in s'.t <==> !Wraps(s, k', f))
    && (f in s'.t ==> s'.t[f] == s.t[f].(nlinks := Lowered(s.t[f].nlinks, Names(s, k', f))))
  }

  /** One that did not: the old name is still there. Unless it was refused at once, the new
      one has been taken from its file all the same. */
  ghost predicate RenameFailed(s: View, s': View, k: Key, k': Key, f: nat, err: Errno) {
    && Names(s', k, f)
    && if err == EACCES || err == EISDIR then s'.names == s.names && s'.files == s.files
       else s'.names == s.names - {k'} && s'.files == Without(s.names, s.files, k')
  }

  /** A rename onto the same name: the name is gone, and with it a file that had
      no other. */
  ghost predicate RenamedAway(s: View, s': View, k: Key, f: nat) {
    && f in s.t && s'.names == s.names - {k} && s'.files == Without(s.names, s.files, k)
    && (f in s'.t <==> s.t[f].nlinks > 1)
  }

  ghost predicate Names(s: View, k: Key, f: nat) {
    k in s.names && s.names[k] == f
  }

  /** The count of `f` has no room for the link a rename makes first. */
  ghost predicate Wraps(s: View, k': Key, f: nat) {
    f in s.t && s.t[f].nlinks == 255 && !Names(s, k', f)
  }

  /** What it answers, `f` being the inode the old name names. Where the new name is taken
      its place becomes free, so the link finds room but for a directory with a gap
      among its zones. */
  ghost function RenameAnswer(d: Disk, t: Table, dir: nat, nm: Name, newDir: nat, newNm: Name, f: nat, noRoom: bool,
                              stillNoRoom: bool): Errno {
    if Absent(d, t, dir, nm) then ENOENT
    else if f in t && t[f].isDir then EISDIR
    else if Absent(d, t, newDir, newNm) then MoveAnswer(LinkAnswer(d, t, dir, nm, newDir, newNm, f, noRoom), nm)
    else if newNm == [] then EACCES
    else if (dir, nm) == (newDir, newNm) then ENOENT
    else MoveAnswer(if f >= 65535 || stillNoRoom then EIO else OK, nm)
  }

  /** `vfs_rename` of a regular file on a MINIX volume: clear the new name, link,
      unlink. */
  method Rename(v: Volume, dir: nat, nm: Name, newDir: nat, newNm: Name) returns (err: Errno, ghost f: nat)
    requires v.Valid() && LinksOk(v.disk, v.inodes) && CString(newNm)
    requires forall g | NamedBy(v.disk, v.inodes, newDir, newNm, g) && g in v.inodes :: !v.inodes[g].isDir
    modifies v`zmap, v`hint, v`free, v`disk, v`owner, v`inodes
    ensures ExactKept(v)
    ensures old(AllSolid(v.disk, v.inodes)) ==> AllSolid(v.disk, v.inodes)
    ensures v.Valid()
    ensures err == old(RenameAnswer(v.disk, v.inodes, dir, nm, newDir, newNm, f, NoRoom(v, newDir),
              StillNoRoom(v, newDir, newNm)))
    ensures Key(dir, nm) !in old(ViewOf(v)).names ==> err == ENOENT && ViewOf(v) == old(ViewOf(v))
    ensures Key(dir, nm) in old(ViewOf(v)).names ==> Names(old(ViewOf(v)), Key(dir, nm), f) && f in old(v.inodes)
    ensures f in old(v.inodes) && NodeAt(old(v.inodes), f).isDir ==> err == EISDIR && ViewOf(v) == old(ViewOf(v))
    ensures err == EISDIR ==> f in old(v.inodes) && NodeAt(old(v.inodes), f).isDir
    ensures err == OK ==> RenamedOk(old(ViewOf(v)), ViewOf(v), Key(dir, nm), Key(newDir, newNm), f)
    ensures err != OK && f != 0 && (dir, nm) != (newDir, newNm) && nm != [] ==>
              RenameFailed(old(ViewOf(v)), ViewOf(v), Key(dir, nm), Key(newDir, newNm), f, err)
    ensures (dir, nm) == (newDir, newNm) && nm != [] && f in old(v.inodes) && !NodeAt(old(v.inodes), f).isDir ==>
              err == ENOENT && RenamedAway(old(ViewOf(v)), ViewOf(v), Key(dir, nm), f)
    ensures nm != [] ==> (LinksOk(v.disk, v.inodes) <==> !(err == OK && Wraps(old(ViewOf(v)), Key(newDir, newNm), f)))
  {
    hide Volume.Core, AllOk, EntryAt, EntrySet, NamedBy, Absent, AllExact, AllSolid, UsedZones, FilesOf, TreeZones,
         Unique, NoneDangles, Counted, NoRoom, StillNoRoom, LinksOk, NamesOf, Without;
    LinksParts(v.disk, v.inodes);
    ghost var k, k' := Key(dir, nm), Key(newDir, newNm);
    var ino, q := FindDirEntry(v, dir, nm);
    f := ino;
    NamedIff(v.disk, v.inodes, k, f);
    NamedIff(v.disk, v.inodes, k', f);
    if ino == 0 {
      ZeroFree(v.disk, v.inodes);
      return ENOENT, f;
    }
    PlaceNames(v.disk, v.inodes, q);
    EntryOfDir(v.disk, v.inodes, q);
    NotAbsent(v.disk, v.inodes, q);
    if v.inodes[ino].isDir { return EISDIR, f; }
    HasName(v.disk, v.inodes, f);
    err := ClearTarget(v, newDir, newNm, dir, nm, f);
    if err != OK { return; }
    LinksParts(v.disk, v.inodes);
    ghost var n1 := NamesOf(v.disk, v.inodes);
    NamedIff(v.disk, v.inodes, k, f);
    err := MoveName(v, dir, nm, newDir, newNm, f);
    assert old(ViewOf(v)).names[k' := f] == n1[k' := f];
  }

  lemma ZeroFree(d: Disk, t: Table)
    requires NoneDangles(d, t)
    ensures 0 !in t
  {
  }
}

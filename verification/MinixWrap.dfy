/** A file with 255 names, and what a link and a removal then do to it. */
module MinixWrap {
  import opened Bytes
  import opened Outcomes
  import opened MinixBlocks
  import opened MinixTree
  import opened MinixVolume
  import opened MinixDirs
  import opened MinixLinks

  const NAMES := 255

  /** The root's zone `i` in this volume: entry j names inode 2 by the one-byte name
      64 * i + j + 1, up to 255. */
  function NameBlock(i: nat): Block {
    seq(BLOCK_SIZE, m requires 0 <= m < BLOCK_SIZE => NameByte(64 * i + m / 16, m % 16))
  }

  function NameByte(k: nat, r: nat): Byte {
    if k >= NAMES then 0 else if r == 0 then 2 else if r == 2 then k + 1 else 0
  }

  function EntryNo(k: nat): Entry {
    if k < NAMES then Entry(2, [k + 1]) else NONE
  }

  lemma NameBlockByte(i: nat, j: nat, r: nat)
    requires j < PER_BLOCK && r < 16
    ensures NameBlock(i)[16 * j + r] == NameByte(64 * i + j, r)
  {
    assert (16 * j + r) / 16 == j && (16 * j + r) % 16 == r;
  }

  lemma NameBlockField(i: nat, j: nat)
    requires j < PER_BLOCK && 64 * i + j < NAMES
    ensures NameBlock(i)[16 * j + 2..16 * j + 16] == [64 * i + j + 1] + Zeros(13)
  {
    hide NameBlock;
    var b: Block, x: Byte := NameBlock(i), 64 * i + j + 1;
    var f, g := b[16 * j + 2..16 * j + 16], [x] + Zeros(13);
    forall r | 0 <= r < 14 ensures f[r] == g[r] {
      NameBlockByte(i, j, r + 2);
      assert f[r] == b[16 * j + (r + 2)];
    }
  }

  lemma NameBlockEntry(i: nat, j: nat)
    requires j < PER_BLOCK
    ensures SlotEntry(NameBlock(i), j) == EntryNo(64 * i + j)
  {
    hide NameBlock, Trimmed;
    NameBlockByte(i, j, 0);
    NameBlockByte(i, j, 1);
    if 64 * i + j < NAMES {
      NameBlockField(i, j);
      TrimmedPadded([64 * i + j + 1], 13);
    }
  }

  const ROOT_ZONES: Zones := [5, 6, 7, 8, 0, 0, 0, 0, 0]

  const TABLE: Table := map[1 := Inode(true, 4096, 2, ROOT_ZONES), 2 := Inode(false, 0, 255, NO_ZONES)]

  const OWNERS: Owners := map[5 := Owner(1, Direct(0)), 6 := Owner(1, Direct(1)), 7 := Owner(1, Direct(2)),
      8 := Owner(1, Direct(3))]

  function BlockNo(z: nat): Block {
    if 5 <= z < 9 then NameBlock(z - 5) else ZeroBlock()
  }

  function FullDisk(): Disk {
    seq<Block>(16, z requires 0 <= z < 16 => BlockNo(z))
  }

  lemma WrapEntry(q: Pos)
    ensures EntryAt(FullDisk(), TABLE, q) == if q.dir == 1 && q.i < 4 && q.j < PER_BLOCK then
              EntryNo(64 * q.i + q.j) else NONE
  {
    hide SlotEntry, NameBlock;
    if q.dir == 1 && q.i < 4 && q.j < PER_BLOCK {
      assert TABLE[1].zones[q.i] == 5 + q.i;
      NameBlockEntry(q.i, q.j);
    }
  }

  /** The place of name number `k`. */
  function PlaceNo(k: nat): Pos {
    Pos(1, k / PER_BLOCK, k % PER_BLOCK)
  }

  function FirstPlaces(n: nat): set<Pos> {
    if n == 0 then {} else FirstPlaces(n - 1) + {PlaceNo(n - 1)}
  }

  lemma {:induction false} FirstPlacesAre(n: nat)
    ensures |FirstPlaces(n)| == n
    ensures forall q: Pos :: q in FirstPlaces(n) <==> q.dir == 1 && q.j < PER_BLOCK && 64 * q.i + q.j < n
  {
    if n > 0 {
      FirstPlacesAre(n - 1);
      forall q: Pos ensures q == PlaceNo(n - 1) <==> q.dir == 1 && q.j < PER_BLOCK && 64 * q.i + q.j == n - 1 {
        if q.dir == 1 && q.j < PER_BLOCK && 64 * q.i + q.j == n - 1 {
          assert (n - 1) / 64 == q.i && (n - 1) % 64 == q.j;
        }
      }
    }
  }

  lemma WrapUnique()
    ensures NoneDangles(FullDisk(), TABLE) && Unique(FullDisk(), TABLE)
  {
    hide EntryAt, NameBlock, FullDisk;
    var d, t := FullDisk(), TABLE;
    forall q ensures EntryAt(d, t, q).ino in {0, 2} {
      WrapEntry(q);
    }
    forall p: Pos, q: Pos | SameName(d, t, p, q) ensures p == q {
      WrapEntry(p);
      WrapEntry(q);
    }
  }

  lemma WrapCount()
    ensures |Refs(FullDisk(), TABLE, 2)| == NAMES
  {
    hide EntryAt, NameBlock, FullDisk, Refs, TABLE;
    var d, t := FullDisk(), TABLE;
    FirstPlacesAre(NAMES);
    forall q: Pos ensures q in Refs(d, t, 2) <==> q in FirstPlaces(NAMES) {
      RefsAre(d, t, 2, q);
      WrapEntry(q);
    }
    assert Refs(d, t, 2) == FirstPlaces(NAMES);
  }

  /** The file has its 255 names, and its count says so. */
  lemma WrapLinks()
    ensures LinksOk(FullDisk(), TABLE)
  {
    hide EntryAt, FullDisk, Refs, NoneDangles, Unique;
    WrapUnique();
    WrapCount();
    forall f | f in TABLE && !TABLE[f].isDir ensures f == 2 {
    }
  }

  lemma WrapSound()
    ensures AllOk(FullDisk(), OWNERS, TABLE)
  {
    hide NameBlock, ZeroBlock;
    var d := FullDisk();
    NoZonesShape(d, OWNERS, 2);
    forall s | IsSlot(s) && SlotZone(d, ROOT_ZONES, s) != 0 ensures Holds(d, OWNERS, 1, ROOT_ZONES, s) {
      assert s.Direct? && s.i < 4;
    }
  }

  /** One link more, and one removal: the inode is gone, and all 255 names still
      point at it. */
  method WrapLosesFile() returns (v: Volume, err: Errno, err': Errno)
    ensures fresh(v) && v.Valid() && err == OK && err' == OK
    ensures 2 !in v.inodes && forall x: Byte | x != 0 :: NamedBy(v.disk, v.inodes, 1, [x], 2)
    ensures !LinksOk(v.disk, v.inodes)
  {
    hide EntryAt, FullDisk, AllOk, LinksOk, NoneDangles, Unique, Counted, Volume.Core, NamedBy, Absent, EntrySet,
         FilesOf, UsedZones, AllExact, AllSolid, TreeZones, NamesOf, FirstGap;
    var d := FullDisk();
    DiskSize();
    WrapSound();
    WrapLinks();
    v := new Volume(5, 16, 65536, 1023, [0], d, TABLE, OWNERS);
    var nm: Name := [1, 1];
    WrapNames(nm);
    WrapRoom(v);
    ghost var f, q, f', q';
    err, f, q := Link(v, 1, [1], 1, nm);
    ghost var d1, t1 := v.disk, v.inodes;
    NamedTwo(d, TABLE, f);
    NewName(d, TABLE, d1, t1, q, Entry(f, nm));
    if Absent(d1, t1, 1, nm) { AbsentNamesNone(d1, t1, 1, nm, f); }
    err', f', q' := Rm(v, 1, nm);
    PlaceNames(d1, t1, q');
    NamesOne(d1, t1, 1, nm, f, f');
    forall x: Byte | x != 0 ensures NamedBy(v.disk, v.inodes, 1, [x], 2) {
      OneName(x);
      OtherNameKept(d, TABLE, d1, t1, q, Entry(f, nm), 1, [x], 2);
      OtherNameKept(d1, t1, v.disk, v.inodes, q', NONE, 1, [x], 2);
    }
    assert NamedBy(v.disk, v.inodes, 1, [1], 2);
    DanglingIsWrong(v.disk, v.inodes, 1, [1], 2);
  }

  lemma DiskSize()
    ensures |FullDisk()| == 16
  {
  }

  lemma OneName(x: Byte)
    requires x != 0
    ensures NamedBy(FullDisk(), TABLE, 1, [x], 2)
  {
    hide EntryAt, FullDisk;
    var k := x - 1;
    WrapEntry(PlaceNo(k));
    assert 64 * (k / 64) + k % 64 == k;
  }

  /** No name is longer than a byte, so this one is new; and "1" is there. */
  lemma WrapNames(nm: Name)
    requires |nm| == 2
    ensures Absent(FullDisk(), TABLE, 1, nm) && !Absent(FullDisk(), TABLE, 1, [1])
  {
    hide EntryAt, FullDisk;
    forall q: Pos ensures EntryAt(FullDisk(), TABLE, q).name != nm {
      WrapEntry(q);
    }
    WrapEntry(PlaceNo(0));
    assert EntryAt(FullDisk(), TABLE, PlaceNo(0)) == Entry(2, [1]);
  }

  lemma NamedTwo(d: Disk, t: Table, f: nat)
    requires d == FullDisk() && t == TABLE && NamedBy(d, t, 1, [1], f)
    ensures f == 2
  {
    hide EntryAt, FullDisk;
    var p: Pos :| p.dir == 1 && EntryAt(d, t, p) == Entry(f, [1]);
    WrapEntry(p);
  }

  /** The last entry of the fourth block is free. */
  lemma WrapRoom(v: Volume)
    requires v.disk == FullDisk() && v.inodes == TABLE
    ensures !NoRoom(v, 1)
  {
    hide EntryAt, FullDisk;
    GapAt(ROOT_ZONES, 4);
    WrapEntry(Pos(1, 3, 63));
  }
}

/** Directory blocks of a MINIX volume: 64 entries of 16 bytes, an inode number
    and a name of at most 14 bytes (fs/minix_fs.h:45-49). */
module MinixDirs {
  import opened Bytes
  import opened MinixBlocks
  import opened MinixTree
  import opened MinixData
  import opened MinixVolume

  const PER_BLOCK := 64
  const NAME_LEN := 14

  type Name = seq<Byte>

  datatype Entry = Entry(ino: nat, name: Name)

  const NONE := Entry(0, [])

  predicate GoodName(nm: Name) {
    0 < |nm| <= NAME_LEN && forall k | 0 <= k < |nm| :: nm[k] != 0
  }

  /** The name in a field: all of it, or up to the first NUL. */
  function Trimmed(f: seq<Byte>): seq<Byte> {
    if f == [] || f[0] == 0 then [] else [f[0]] + Trimmed(f[1..])
  }

  function Field(nm: Name): (f: seq<Byte>)
    requires |nm| <= NAME_LEN
    ensures |f| == NAME_LEN
  {
    nm + Zeros(NAME_LEN - |nm|)
  }

  lemma {:induction false} TrimmedPadded(nm: Name, n: nat)
    requires forall k | 0 <= k < |nm| :: nm[k] != 0
    ensures Trimmed(nm + Zeros(n)) == nm
  {
    if nm != [] {
      assert (nm + Zeros(n))[1..] == nm[1..] + Zeros(n);
      TrimmedPadded(nm[1..], n);
    }
  }

  /** Entry `j` of a block; entries with inode 0 are all alike. */
  function SlotEntry(b: Block, j: nat): Entry
    requires j < PER_BLOCK
  {
    if Ptr(b, 8 * j) == 0 then NONE
    else Entry(Ptr(b, 8 * j), Trimmed(b[16 * j + 2..16 * j + 16]))
  }

  function PutEntry(b: Block, j: nat, ino: Zone16, f: seq<Byte>): Block
    requires j < PER_BLOCK && |f| == NAME_LEN
  {
    b[..16 * j] + [ino % 256, ino / 256] + f + b[16 * j + 16..]
  }

  lemma PutEntryIno(b: Block, j: nat, ino: Zone16, f: seq<Byte>, k: nat)
    requires j < PER_BLOCK && |f| == NAME_LEN && k < PER_BLOCK
    ensures Ptr(PutEntry(b, j, ino, f), 8 * k) == if k == j then ino else Ptr(b, 8 * k)
  {
    var b' := PutEntry(b, j, ino, f);
    if k == j {
      assert b'[16 * k] == ino % 256 && b'[16 * k + 1] == ino / 256;
    } else {
      assert b'[16 * k] == b[16 * k] && b'[16 * k + 1] == b[16 * k + 1];
    }
  }

  lemma PutEntryName(b: Block, j: nat, ino: Zone16, f: seq<Byte>, k: nat)
    requires j < PER_BLOCK && |f| == NAME_LEN && k < PER_BLOCK
    ensures PutEntry(b, j, ino, f)[16 * k + 2..16 * k + 16] == if k == j then f else b[16 * k + 2..16 * k + 16]
  {
    var b', lo := PutEntry(b, j, ino, f), 16 * k + 2;
    forall m | lo <= m < lo + NAME_LEN ensures b'[m] == if k == j then f[m - lo] else b[m] {
    }
  }

  /** Writing one entry changes that entry alone. */
  lemma PutEntryAt(b: Block, j: nat, ino: Zone16, f: seq<Byte>, k: nat)
    requires j < PER_BLOCK && |f| == NAME_LEN && k < PER_BLOCK
    ensures SlotEntry(PutEntry(b, j, ino, f), k) ==
              if k != j then SlotEntry(b, k) else if ino == 0 then NONE else Entry(ino, Trimmed(f))
  {
    hide Ptr, PutEntry, Trimmed;
    PutEntryIno(b, j, ino, f, k);
    PutEntryName(b, j, ino, f, k);
  }

  lemma NoEntries(j: nat)
    requires j < PER_BLOCK
    ensures SlotEntry(ZeroBlock(), j) == NONE
  {
  }

  // ----- the entries of all directories ----------------------------------------------

  /** A place for an entry: slot `j` of the directory's zone `i`. */
  datatype Pos = Pos(dir: nat, i: nat, j: nat)

  function EntryAt(d: Disk, t: Table, q: Pos): Entry {
    if q.dir in t && t[q.dir].isDir && q.i < DIRECT && q.j < PER_BLOCK && t[q.dir].zones[q.i] != 0
    then SlotEntry(BlockAt(d, t[q.dir].zones[q.i]), q.j)
    else NONE
  }

  /** From (d, t) to (d', t') the entry at `q` became `e` and no other changed. */
  ghost predicate EntrySet(d: Disk, t: Table, d': Disk, t': Table, q: Pos, e: Entry) {
    forall p {:trigger EntryAt(d', t', p)} :: EntryAt(d', t', p) == if p == q then e else EntryAt(d, t, p)
  }

  ghost predicate EntriesSame(d: Disk, t: Table, d': Disk, t': Table) {
    forall p {:trigger EntryAt(d', t', p)} :: EntryAt(d', t', p) == EntryAt(d, t, p)
  }

  /** A step for another inode keeps a directory's entries. */
  lemma OtherDirKept(d: Disk, o: Owners, t: Table, d': Disk, o': Owners, ino: nat, q: Pos)
    requires KeepsOthers(d, o, d', o', ino) && AllOk(d, o, t) && q.dir != ino
    ensures EntryAt(d', t, q) == EntryAt(d, t, q)
  {
    hide SlotEntry, BlockAt, KeepsOthers;
    if q.dir in t && q.i < DIRECT {
      assert FileOk(d, o, q.dir, t[q.dir]);
      OtherFileKept(d, o, d', o', ino, q.dir, t[q.dir].zones);
      assert SlotZone(d, t[q.dir].zones, Direct(q.i)) == t[q.dir].zones[q.i];
    }
  }

  /** So a step for a regular file keeps all entries. */
  lemma FileStepKeepsEntries(d: Disk, o: Owners, t: Table, d': Disk, o': Owners, t': Table, ino: nat)
    requires KeepsOthers(d, o, d', o', ino) && AllOk(d, o, t)
    requires (ino in t ==> !t[ino].isDir) && (ino in t' ==> !t'[ino].isDir)
    requires t' - {ino} == t - {ino}
    ensures EntriesSame(d, t, d', t')
  {
    hide SlotEntry, BlockAt, KeepsOthers, AllOk;
    forall p ensures EntryAt(d', t', p) == EntryAt(d, t, p) {
      if p.dir != ino {
        OtherDirKept(d, o, t, d', o', ino, p);
        SameButOne(t, t', ino, p.dir);
      }
    }
  }

  lemma SameButOne(t: Table, t': Table, ino: nat, g: nat)
    requires t' - {ino} == t - {ino} && g != ino
    ensures (g in t <==> g in t') && (g in t ==> t'[g] == t[g])
  {
    assert g in t <==> g in t - {ino};
    assert g in t' <==> g in t' - {ino};
    if g in t { assert (t - {ino})[g] == (t' - {ino})[g]; }
  }

  /** Rewriting one entry of a directory block. */
  lemma EntryWritten(d: Disk, o: Owners, t: Table, nd: Inode, q: Pos, ino: Zone16, f: seq<Byte>)
    requires AllOk(d, o, t) && q.dir in t && t[q.dir].isDir && q.i < DIRECT && q.j < PER_BLOCK && |f| == NAME_LEN
    requires nd.isDir && nd.zones == t[q.dir].zones && nd.zones[q.i] != 0
    ensures nd.zones[q.i] < |d|
    ensures var d' := d[nd.zones[q.i] := PutEntry(d[nd.zones[q.i]], q.j, ino, f)];
            && KeepsOthers(d, o, d', o, q.dir) && Owned(d', o, q.dir, nd.zones) &&
              TreeZones(d', nd.zones) == TreeZones(d, nd.zones)
            && EntrySet(d, t, d', t[q.dir := nd], q, if ino == 0 then NONE else Entry(ino, Trimmed(f)))
  {
    hide TreeZones, SlotEntry, KeepsOthers, PutEntry, AllOk;
    var iz, z := nd.zones, nd.zones[q.i];
    assert FileOk(d, o, q.dir, t[q.dir]) by { DirOk(d, o, t, q.dir); }
    assert LeafZone(d, iz, q.i) == z;
    DataWriteEffect(d, o, q.dir, iz, q.i, if z < |d| then PutEntry(d[z], q.j, ino, f) else ZeroBlock());
    var d' := d[z := PutEntry(d[z], q.j, ino, f)];
    TreeZonesSame(d, iz, d');
    var t', e := t[q.dir := nd], if ino == 0 then NONE else Entry(ino, Trimmed(f));
    forall p ensures EntryAt(d', t', p) == if p == q then e else EntryAt(d, t, p) {
      if p.dir != q.dir {
        OtherDirKept(d, o, t, d', o, q.dir, p);
      } else if p.i < DIRECT && p.j < PER_BLOCK {
        assert LeafZone(d, iz, p.i) == iz[p.i];
        PutEntryAt(d[z], q.j, ino, f, p.j);
      }
    }
    assert EntrySet(d, t, d', t', q, e);
  }

  /** Hooking a new zone with one entry into a directory. */
  lemma ZoneAdded(d: Disk, o: Owners, t: Table, nd: Inode, dir: nat, i: nat, z: Zone16, ino: Zone16, f: seq<Byte>)
    requires AllOk(d, o, t) && dir in t && t[dir].isDir && i < DIRECT && |f| == NAME_LEN && ino != 0
    requires t[dir].zones[i] == 0 && 0 < z < |d| && z !in o
    requires nd.isDir && nd.zones == t[dir].zones[i := z]
    ensures var d', o' := d[z := PutEntry(ZeroBlock(), 0, ino, f)], o[z := Owner(dir, Direct(i))];
            && KeepsOthers(d, o, d', o', dir) && Owned(d', o', dir, nd.zones)
            && TreeZones(d', nd.zones) == TreeZones(d, t[dir].zones) + {z}
            && EntrySet(d, t, d', t[dir := nd], Pos(dir, i, 0), Entry(ino, Trimmed(f)))
  {
    hide TreeZones, SlotEntry, KeepsOthers, PutEntry, AllOk, KeepsData;
    var iz, b := t[dir].zones, PutEntry(ZeroBlock(), 0, ino, f);
    var d', o', iz' := d[z := b], o[z := Owner(dir, Direct(i))], nd.zones;
    DirOk(d, o, t, dir);
    HookEffect(d, o, dir, iz, Direct(i), z);
    assert StoreZones(iz, Direct(i), z) == iz' && HookDisk(d, iz, Direct(i), z) == d;
    TreeZonesStored(d, iz, d, iz', Direct(i), 0, z);
    assert LeafZone(d, iz', i) == z;
    DataWriteEffect(d, o', dir, iz', i, b);
    TreeZonesSame(d, iz', d');
    KeepsOthersTrans(d, o, d, o', d', o', dir);
    var t', q, e := t[dir := nd], Pos(dir, i, 0), Entry(ino, Trimmed(f));
    forall p ensures EntryAt(d', t', p) == if p == q then e else EntryAt(d, t, p) {
      if p.dir != dir {
        OtherDirKept(d, o, t, d', o', dir, p);
      } else if p.i < DIRECT && p.j < PER_BLOCK {
        assert LeafZone(d, iz', p.i) == iz'[p.i];
        PutEntryAt(ZeroBlock(), 0, ino, f, p.j);
        NoEntries(p.j);
      }
    }
    assert EntrySet(d, t, d', t', q, e);
  }

  lemma DirOk(d: Disk, o: Owners, t: Table, f: nat)
    requires AllOk(d, o, t) && f in t
    ensures FileOk(d, o, f, t[f])
  {
  }
}

/** File contents seen through the zone tree, and what a run of block writes
    does to them. */
module MinixData {
  import opened Bytes
  import opened MinixBlocks
  import opened MinixTree

  const MAX_BYTES := MAX_LEAVES * BLOCK_SIZE

  /** Byte `k` of the file: a block without a zone reads as zeros. */
  function FileByte(d: Disk, iz: Zones, k: nat): Byte
    requires k < MAX_BYTES
  {
    var z := LeafZone(d, iz, k / BLOCK_SIZE);
    if z == 0 then 0 else BlockAt(d, z)[k % BLOCK_SIZE]
  }

  function Contents(d: Disk, iz: Zones, size: nat): (c: seq<Byte>)
    requires size <= MAX_BYTES
    ensures |c| == size
  {
    seq(size, k requires 0 <= k < size => FileByte(d, iz, k))
  }

  ghost predicate HasZone(d: Disk, iz: Zones, k: nat)
    requires k < MAX_BYTES
  {
    LeafZone(d, iz, k / BLOCK_SIZE) != 0
  }

  /** `minix_file_zone_count` */
  function ZoneCount(size: nat): (n: nat)
    ensures n <= MAX_LEAVES <==> size <= MAX_BYTES
    ensures forall k: nat :: k < size ==> k / BLOCK_SIZE < n
    ensures size > 0 ==> (n - 1) * BLOCK_SIZE < size <= n * BLOCK_SIZE
    ensures size == 0 ==> n == 0
  {
    if size == 0 then 0 else (size + BLOCK_SIZE - 1) / BLOCK_SIZE
  }

  /** Every byte below `size` is backed by a zone. */
  ghost predicate Dense(d: Disk, iz: Zones, size: nat) {
    size <= MAX_BYTES && forall k | 0 <= k < size :: HasZone(d, iz, k)
  }

  /** From (d, iz) to (d', iz') the bytes `data` were written at `start`; every
      other byte that was backed by a zone still is, with the same value. */
  ghost predicate Wrote(d: Disk, iz: Zones, d': Disk, iz': Zones, start: nat, data: seq<Byte>) {
    && start + |data| <= MAX_BYTES
    && (forall k | start <= k < start + |data| :: HasZone(d', iz', k) && FileByte(d', iz', k) == data[k - start])
    && (forall k | 0 <= k < MAX_BYTES && HasZone(d, iz, k) && !(start <= k < start + |data|) ::
          HasZone(d', iz', k) && FileByte(d', iz', k) == FileByte(d, iz, k))
  }

  lemma WroteNothing(d: Disk, iz: Zones, d': Disk, iz': Zones, start: nat)
    requires KeepsData(d, iz, d', iz') && start <= MAX_BYTES
    ensures Wrote(d, iz, d', iz', start, [])
  {
    forall k | 0 <= k < MAX_BYTES && HasZone(d, iz, k)
      ensures HasZone(d', iz', k) && FileByte(d', iz', k) == FileByte(d, iz, k)
    {
      assert LeafZone(d, iz, k / BLOCK_SIZE) != 0;
    }
  }

  lemma WroteMore(d: Disk, iz: Zones, d1: Disk, iz1: Zones, d2: Disk, iz2: Zones, start: nat, x: seq<Byte>,
                  y: seq<Byte>)
    requires Wrote(d, iz, d1, iz1, start, x)
    requires Wrote(d1, iz1, d2, iz2, start + |x|, y)
    ensures Wrote(d, iz, d2, iz2, start, x + y)
    ensures start + |x| + |y| <= MAX_BYTES
  {
    forall k | start <= k < start + |x + y|
      ensures HasZone(d2, iz2, k) && FileByte(d2, iz2, k) == (x + y)[k - start]
    {
      if k < start + |x| {
        assert HasZone(d1, iz1, k) && FileByte(d1, iz1, k) == x[k - start];
      }
    }
    forall k | 0 <= k < MAX_BYTES && HasZone(d, iz, k) && !(start <= k < start + |x + y|)
      ensures HasZone(d2, iz2, k) && FileByte(d2, iz2, k) == FileByte(d, iz, k)
    {
      assert HasZone(d1, iz1, k) && FileByte(d1, iz1, k) == FileByte(d, iz, k);
    }
  }

  /** Writing the data block of file block `idx`. */
  lemma DataWriteEffect(d: Disk, o: Owners, ino: nat, iz: Zones, idx: nat, b: Block)
    requires Owned(d, o, ino, iz) && idx < MAX_LEAVES
    requires LeafZone(d, iz, idx) != 0
    ensures LeafZone(d, iz, idx) < |d|
    ensures Owned(d[LeafZone(d, iz, idx) := b], o, ino, iz)
    ensures forall t | IsSlot(t) :: SlotZone(d[LeafZone(d, iz, idx) := b], iz, t) == SlotZone(d, iz, t)
    ensures KeepsOthers(d, o, d[LeafZone(d, iz, idx) := b], o, ino)
    ensures forall i | 0 <= i < MAX_LEAVES && LeafZone(d, iz, i) != 0 ::
              BlockAt(d[LeafZone(d, iz, idx) := b], LeafZone(d, iz, i)) == if i == idx then b else BlockAt(d,
                  LeafZone(d, iz, i))
  {
    var z := LeafZone(d, iz, idx);
    assert Holds(d, o, ino, iz, LeafSlot(idx));
    BlockWriteKeepsTree(d, o, ino, iz, z, b);
    forall i | 0 <= i < MAX_LEAVES && LeafZone(d, iz, i) != 0
      ensures BlockAt(d[z := b], LeafZone(d, iz, i)) == if i == idx then b else BlockAt(d, LeafZone(d, iz, i))
    {
      assert Holds(d, o, ino, iz, LeafSlot(i));
      if LeafSlot(i) == LeafSlot(idx) { LeafSlotInjective(i, idx); }
    }
  }

  lemma LeafSlotInjective(i: nat, j: nat)
    requires i < MAX_LEAVES && j < MAX_LEAVES && LeafSlot(i) == LeafSlot(j)
    ensures i == j
  {
    assert Lo(LeafSlot(i)) == i && Lo(LeafSlot(j)) == j;
  }

  /** Overlaying `chunk` inside one block is a write of exactly those bytes. */
  lemma SpliceIsWrite(d: Disk, o: Owners, ino: nat, iz: Zones, pos: nat, chunk: seq<Byte>)
    requires Owned(d, o, ino, iz)
    requires pos < MAX_BYTES && pos % BLOCK_SIZE + |chunk| <= BLOCK_SIZE
    requires LeafZone(d, iz, pos / BLOCK_SIZE) != 0
    ensures var z := LeafZone(d, iz, pos / BLOCK_SIZE);
            z < |d| && Wrote(d, iz, d[z := Splice(d[z], pos % BLOCK_SIZE, chunk)], iz, pos, chunk)
  {
    var idx := pos / BLOCK_SIZE;
    var z := LeafZone(d, iz, idx);
    assert Holds(d, o, ino, iz, LeafSlot(idx));
    var b := Splice(d[z], pos % BLOCK_SIZE, chunk);
    var d' := d[z := b];
    DataWriteEffect(d, o, ino, iz, idx, b);
    forall k | 0 <= k < MAX_BYTES && HasZone(d, iz, k)
      ensures HasZone(d', iz, k)
      ensures FileByte(d', iz, k) == if pos <= k < pos + |chunk| then chunk[k - pos] else FileByte(d, iz, k)
    {
      SpliceByte(d, iz, d', pos, chunk, k);
    }
    forall k | pos <= k < pos + |chunk|
      ensures HasZone(d, iz, k) && k < MAX_BYTES
    {
      assert k / BLOCK_SIZE == idx;
    }
  }

  lemma SpliceByte(d: Disk, iz: Zones, d': Disk, pos: nat, chunk: seq<Byte>, k: nat)
    requires k < MAX_BYTES && HasZone(d, iz, k)
    requires pos < MAX_BYTES && pos % BLOCK_SIZE + |chunk| <= BLOCK_SIZE
    requires LeafZone(d, iz, pos / BLOCK_SIZE) < |d|
    requires LeafZone(d', iz, k / BLOCK_SIZE) == LeafZone(d, iz, k / BLOCK_SIZE)
    requires BlockAt(d', LeafZone(d, iz, k / BLOCK_SIZE)) ==
               if k / BLOCK_SIZE == pos / BLOCK_SIZE then
                    Splice(d[LeafZone(d, iz, pos / BLOCK_SIZE)], pos % BLOCK_SIZE, chunk)
               else BlockAt(d, LeafZone(d, iz, k / BLOCK_SIZE))
    ensures FileByte(d', iz, k) == if pos <= k < pos + |chunk| then chunk[k - pos] else FileByte(d, iz, k)
  {
  }

  // ----- blocks that had no zone -------------------------------------------------------

  /** Position `k` got a zone that nobody owned before; and unless it was written
      itself, it shows what that zone held. */
  ghost predicate NewByte(d: Disk, o: Owners, d': Disk, iz': Zones, lo: nat, hi: nat, k: nat)
    requires k < MAX_BYTES
  {
    var z := LeafZone(d', iz', k / BLOCK_SIZE);
    z !in o && (lo <= k < hi || FileByte(d', iz', k) == BlockAt(d, z)[k % BLOCK_SIZE])
  }

  /** From (d, o, iz) to (d', o', iz') positions lo .. hi - 1 were written: zones
      nobody owns at the end were left alone, and each position that had no zone
      and has one now is a NewByte. */
  ghost predicate Bared(d: Disk, o: Owners, iz: Zones, d': Disk, o': Owners, iz': Zones, lo: nat, hi: nat) {
    && o.Keys <= o'.Keys
    && (forall z: nat | z !in o' :: BlockAt(d', z) == BlockAt(d, z))
    && (forall k | 0 <= k < MAX_BYTES && !HasZone(d, iz, k) && HasZone(d', iz', k) :: NewByte(d, o, d', iz', lo, hi, k))
  }

  lemma BaredSelf(d: Disk, o: Owners, iz: Zones, lo: nat, hi: nat)
    ensures Bared(d, o, iz, d, o, iz, lo, hi)
  {
  }

  /** Positions with a zone keep it, and their byte unless it was written. */
  ghost predicate ZonedKept(d: Disk, iz: Zones, d': Disk, iz': Zones, lo: nat, hi: nat) {
    forall k | 0 <= k < MAX_BYTES && HasZone(d, iz, k) ::
      && LeafZone(d', iz', k / BLOCK_SIZE) == LeafZone(d, iz, k / BLOCK_SIZE)
      && (lo <= k < hi || FileByte(d', iz', k) == FileByte(d, iz, k))
  }

  lemma BaredTrans(d: Disk, o: Owners, iz: Zones, d1: Disk, o1: Owners, iz1: Zones, d2: Disk, o2: Owners, iz2: Zones,
                   lo: nat, mid: nat, hi: nat)
    requires Bared(d, o, iz, d1, o1, iz1, lo, mid) && Bared(d1, o1, iz1, d2, o2, iz2, mid, hi) && lo <= mid <= hi
    requires ZonedKept(d1, iz1, d2, iz2, mid, hi)
    ensures Bared(d, o, iz, d2, o2, iz2, lo, hi)
  {
    hide LeafSlot, SlotZone, BlockAt;
    forall z: nat | z !in o2 ensures BlockAt(d2, z) == BlockAt(d, z) {
      assert z !in o1;
    }
    forall k | 0 <= k < MAX_BYTES && !HasZone(d, iz, k) &&
         HasZone(d2, iz2, k) ensures NewByte(d, o, d2, iz2, lo, hi, k) {
      if HasZone(d1, iz1, k) {
        assert NewByte(d, o, d1, iz1, lo, mid, k);
      } else {
        assert NewByte(d1, o1, d2, iz2, mid, hi, k);
      }
    }
  }

  lemma DataIsZoned(d: Disk, iz: Zones, d': Disk, iz': Zones, lo: nat)
    requires KeepsData(d, iz, d', iz')
    ensures ZonedKept(d, iz, d', iz', lo, lo)
  {
    hide LeafSlot, SlotZone, BlockAt;
    forall k | 0 <= k < MAX_BYTES && HasZone(d, iz, k)
      ensures LeafZone(d', iz', k / BLOCK_SIZE) == LeafZone(d, iz, k / BLOCK_SIZE) &&
                FileByte(d', iz', k) == FileByte(d, iz, k)
    {
      assert LeafZone(d, iz, k / BLOCK_SIZE) != 0;
    }
  }

  lemma WroteIsZoned(ino: nat, d: Disk, o: Owners, iz: Zones, d': Disk, o': Owners, iz': Zones, start: nat,
                     data: seq<Byte>)
    requires Wrote(d, iz, d', iz', start, data) && Kept(ino, d, o, iz, d', o', iz')
    ensures ZonedKept(d, iz, d', iz', start, start + |data|)
  {
    hide LeafSlot, SlotZone, BlockAt, FileByte;
    forall k | 0 <= k < MAX_BYTES && HasZone(d, iz, k)
      ensures LeafZone(d', iz', k / BLOCK_SIZE) == LeafZone(d, iz, k / BLOCK_SIZE)
    {
    }
  }

  /** One more hook. */
  lemma BaredMore(d: Disk, o: Owners, iz: Zones, d1: Disk, o1: Owners, iz1: Zones, d2: Disk, o2: Owners, iz2: Zones)
    requires Bared(d, o, iz, d1, o1, iz1, 0, 0) && Bared(d1, o1, iz1, d2, o2, iz2, 0, 0) && KeepsData(d1, iz1, d2, iz2)
    ensures Bared(d, o, iz, d2, o2, iz2, 0, 0)
  {
    hide Bared, KeepsData, ZonedKept;
    DataIsZoned(d1, iz1, d2, iz2, 0);
    BaredTrans(d, o, iz, d1, o1, iz1, d2, o2, iz2, 0, 0, 0);
  }

  /** Nothing written is nothing written, wherever. */
  lemma BaredAnywhere(d: Disk, o: Owners, iz: Zones, d': Disk, o': Owners, iz': Zones, lo: nat)
    requires Bared(d, o, iz, d', o', iz', 0, 0)
    ensures Bared(d, o, iz, d', o', iz', lo, lo)
  {
    hide LeafSlot, SlotZone, BlockAt, FileByte;
    forall k | 0 <= k < MAX_BYTES && !HasZone(d, iz, k) &&
         HasZone(d', iz', k) ensures NewByte(d, o, d', iz', lo, lo, k) {
      assert NewByte(d, o, d', iz', 0, 0, k);
    }
  }

  lemma StoreIsZoned(d: Disk, iz: Zones, d': Disk, pos: nat, chunk: seq<Byte>)
    requires Wrote(d, iz, d', iz, pos, chunk) && forall t | IsSlot(t) :: SlotZone(d', iz, t) == SlotZone(d, iz, t)
    ensures ZonedKept(d, iz, d', iz, pos, pos + |chunk|)
  {
    hide SlotZone, BlockAt, FileByte;
  }

  /** Hooking in a zone bares at most its own block. */
  lemma HookBared(d: Disk, o: Owners, ino: nat, iz: Zones, s: Slot, z: Zone16, lo: nat)
    requires IsSlot(s) && Owned(d, o, ino, iz) && SlotZone(d, iz, s) == 0 && Childless(d, iz, s)
    requires ParentOf(s).Some? ==> SlotZone(d, iz, ParentOf(s).value) != 0
    requires 0 < z < |d| && z !in o
    ensures Bared(d, o, iz, HookDisk(d, iz, s, z), o[z := Owner(ino, s)], StoreZones(iz, s, z), lo, lo)
  {
    hide SlotZone, KeepsOthers, KeepsData, LeafSlot;
    HookEffect(d, o, ino, iz, s, z);
    HookBlocks(d, o, ino, iz, s, z);
    var d', iz' := HookDisk(d, iz, s, z), StoreZones(iz, s, z);
    forall k | 0 <= k < MAX_BYTES && !HasZone(d, iz, k) &&
         HasZone(d', iz', k) ensures NewByte(d, o, d', iz', lo, lo, k) {
      assert LeafSlot(k / BLOCK_SIZE) == s && !IsMeta(s);
    }
  }

  /** The blocks a hook writes: the pointer block above, and a new pointer block. */
  lemma HookBlocks(d: Disk, o: Owners, ino: nat, iz: Zones, s: Slot, z: Zone16)
    requires IsSlot(s) && Owned(d, o, ino, iz) && 0 < z < |d| && z !in o
    requires ParentOf(s).Some? ==> SlotZone(d, iz, ParentOf(s).value) != 0
    ensures forall y: nat | y !in o && (IsMeta(s) ==> y != z) :: BlockAt(HookDisk(d, iz, s, z), y) == BlockAt(d, y)
  {
    if ParentOf(s).Some? { assert Holds(d, o, ino, iz, ParentOf(s).value); }
    if IsMeta(s) { BlockWriteKeepsTree(d, o, ino, iz, z, ZeroBlock()); }
  }

  function Max(a: nat, b: nat): nat { if a < b then b else a }

  /** The number of blocks a file of `n` blocks has after [start, pos) of it
      was written. */
  function Reach(n: nat, start: nat, pos: nat): nat {
    if pos == start then n else Max(n, ZoneCount(pos))
  }

  lemma ReachStart(n: nat, start: nat)
    ensures Reach(n, start, start) == n
  {
  }

  lemma ReachStep(n: nat, start: nat, pos: nat, chunk: nat)
    requires start <= pos && start <= n * BLOCK_SIZE
    requires 0 < chunk && pos % BLOCK_SIZE + chunk <= BLOCK_SIZE
    ensures pos / BLOCK_SIZE <= Reach(n, start, pos)
    ensures Reach(n, start, pos + chunk) ==
              if pos / BLOCK_SIZE < Reach(n, start, pos) then Reach(n, start, pos) else Reach(n, start, pos) + 1
  {
    assert ZoneCount(pos + chunk) == pos / BLOCK_SIZE + 1;
  }

  lemma ZoneCountMonotone(x: nat, y: nat)
    requires x <= y
    ensures ZoneCount(x) <= ZoneCount(y)
  {
  }
}

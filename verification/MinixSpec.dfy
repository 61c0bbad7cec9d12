/** What a file IS to its users, a sequence of bytes, and what the three
    positioned operations mean on it. */
module MinixSpec {
  import opened Bytes
  import opened MinixBlocks
  import opened MinixTree
  import opened MinixData
  import opened MinixAlloc

  /** A write zero-pads up to `off` and then overlays `data`. */
  function Pwritten(c: seq<Byte>, off: nat, data: seq<Byte>): seq<Byte> {
    if data == [] then c
    else
      var padded := if off <= |c| then c else c + Zeros(off - |c|);
      padded[..off] + data + (if off + |data| < |c| then c[off + |data|..] else [])
  }

  /** The file after a write that failed once `data` was on disk: the size is
      not updated, so only bytes below the old size can have changed. */
  function Torn(c: seq<Byte>, off: nat, data: seq<Byte>): seq<Byte> {
    seq(|c|, k requires 0 <= k < |c| => if off <= k < off + |data| then data[k - off] else c[k])
  }

  lemma PwrittenLength(c: seq<Byte>, off: nat, data: seq<Byte>)
    ensures data != [] ==> |Pwritten(c, off, data)| == Max(|c|, off + |data|)
  {
  }

  /** None of the bytes below `size` that were not written got a zone with something
      in it: where a block had no zone, the one it has now was zero there. */
  ghost predicate NoStale(d: Disk, iz: Zones, d': Disk, iz': Zones, size: nat, lo: nat, hi: nat) {
    forall k | 0 <= k < size && k < MAX_BYTES && !(lo <= k < hi) && !HasZone(d, iz, k) && HasZone(d', iz', k) ::
      BlockAt(d, LeafZone(d', iz', k / BLOCK_SIZE))[k % BLOCK_SIZE] == 0
  }

  /** The same, told before the write: where it fills a hole in part, the zone the
      hole will get is zero at every position below `size` that is not written. */
  ghost predicate CleanBefore(d: Disk, iz: Zones, free: set<nat>, size: nat, lo: nat, hi: nat) {
    forall k | 0 <= k < size && k < MAX_BYTES && !(lo <= k < hi) && FillsHole(d, iz, lo, hi, k) ::
      BlockAt(d, NextZone(d, iz, free, lo / BLOCK_SIZE, k / BLOCK_SIZE))[k % BLOCK_SIZE] == 0
  }

  /** Position `k` is in a block without a zone, and the write touches the block. */
  ghost predicate FillsHole(d: Disk, iz: Zones, lo: nat, hi: nat, k: nat)
    requires k < MAX_BYTES
  {
    lo / BLOCK_SIZE <= k / BLOCK_SIZE < Upto(lo, hi) && !HasZone(d, iz, k)
  }

  lemma CleanIffNoStale(d: Disk, iz: Zones, free: set<nat>, d': Disk, iz': Zones, free': set<nat>, limit: nat,
                        size: nat, lo: nat, hi: nat)
    requires Took(d, iz, free, d', iz', free', limit, lo / BLOCK_SIZE, Upto(lo, hi))
    ensures CleanBefore(d, iz, free, size, lo, hi) <==> NoStale(d, iz, d', iz', size, lo, hi)
  {
    hide SlotZone, BlockAt, Missing, NextZone, Upto;
    var a, b := lo / BLOCK_SIZE, Upto(lo, hi);
    forall k | 0 <= k < size && k < MAX_BYTES && !HasZone(d, iz, k)
      ensures HasZone(d', iz', k) <==> FillsHole(d, iz, lo, hi, k)
      ensures FillsHole(d, iz, lo, hi, k) ==>
                LeafZone(d', iz', k / BLOCK_SIZE) == NextZone(d, iz, free, a, k / BLOCK_SIZE)
    {
      LeafOnWays(k / BLOCK_SIZE, a, b);
      TookSlot(d, iz, free, d', iz', free', limit, a, b, LeafSlot(k / BLOCK_SIZE));
    }
  }

  lemma LeafOnWays(i: nat, a: nat, b: nat)
    requires i < MAX_LEAVES
    ensures OnWays(LeafSlot(i), a, b) <==> a <= i < b
  {
    assert Lo(LeafSlot(i)) == i && Hi(LeafSlot(i)) == i + 1;
  }

  /** A write fills at most its first and its last block in part. If those have
      zones, or it starts and ends at block boundaries, or beyond the file's end,
      it is clean, whatever holes the file has. */
  lemma EdgesBacked(d: Disk, iz: Zones, free: set<nat>, size: nat, lo: nat, hi: nat)
    requires lo < hi <= MAX_BYTES && size <= MAX_BYTES
    requires lo % BLOCK_SIZE == 0 || HasZone(d, iz, lo)
    requires hi % BLOCK_SIZE == 0 || size <= hi || HasZone(d, iz, hi)
    ensures CleanBefore(d, iz, free, size, lo, hi)
  {
    hide SlotZone, LeafSlot, NextZone;
    forall k | 0 <= k < size && k < MAX_BYTES && !(lo <= k < hi) ensures !FillsHole(d, iz, lo, hi, k) {
      assert k < lo && k / BLOCK_SIZE >= lo / BLOCK_SIZE ==> k / BLOCK_SIZE == lo / BLOCK_SIZE;
      assert hi <= k && k / BLOCK_SIZE < Upto(lo, hi) ==> k / BLOCK_SIZE == hi / BLOCK_SIZE && hi % BLOCK_SIZE != 0;
    }
  }

  lemma DenseClean(d: Disk, iz: Zones, free: set<nat>, size: nat, lo: nat, hi: nat)
    requires Dense(d, iz, size)
    ensures CleanBefore(d, iz, free, size, lo, hi)
  {
    hide BlockAt, NextZone, Upto;
  }

  /** What was written, what was there, or what a new zone held. */
  lemma LaidByte(d: Disk, o: Owners, iz: Zones, d': Disk, o': Owners, iz': Zones, lo: nat, data: seq<Byte>, k: nat)
    requires Wrote(d, iz, d', iz', lo, data) && Bared(d, o, iz, d', o', iz', lo, lo + |data|) && k < MAX_BYTES
    ensures FileByte(d', iz', k) ==
              if lo <= k < lo + |data| then data[k - lo]
              else if HasZone(d, iz, k) then FileByte(d, iz, k)
              else if HasZone(d', iz', k) then BlockAt(d, LeafZone(d', iz', k / BLOCK_SIZE))[k % BLOCK_SIZE]
              else 0
    ensures HasZone(d, iz, k) || lo <= k < lo + |data| ==> HasZone(d', iz', k)
    ensures !HasZone(d, iz, k) ==> FileByte(d, iz, k) == 0
  {
    hide LeafSlot, SlotZone, BlockAt;
    if !(lo <= k < lo + |data|) && !HasZone(d, iz, k) && HasZone(d', iz', k) {
      assert NewByte(d, o, d', iz', lo, lo + |data|, k);
    }
  }

  /** Where a write starts to touch the file: at the end, if it leaves a gap. */
  function Start(size: nat, off: nat): nat {
    if off <= size then off else size
  }

  function Laid(size: nat, off: nat, data: seq<Byte>): seq<Byte> {
    Zeros(if off <= size then 0 else off - size) + data
  }

  lemma LaidPlain(size: nat, off: nat, buf: seq<Byte>, done: nat)
    requires off <= size && done <= |buf|
    ensures Start(size, off) == off && buf[..done] <= Laid(size, off, buf) && (done == |buf| ==>
              buf[..done] == Laid(size, off, buf))
  {
    assert Laid(size, off, buf) == buf;
  }

  lemma LaidZeros(size: nat, off: nat, buf: seq<Byte>, done: nat)
    requires size < off && done <= off - size
    ensures Start(size, off) == size && Zeros(done) <= Laid(size, off, buf)
  {
  }

  lemma LaidPart(size: nat, off: nat, buf: seq<Byte>, done: nat)
    requires size < off && done <= |buf|
    ensures Zeros(off - size) + buf[..done] <= Laid(size, off, buf)
    ensures done == |buf| ==> Zeros(off - size) + buf[..done] == Laid(size, off, buf)
  {
  }

  lemma StartLaid(size: nat, off: nat, buf: seq<Byte>)
    ensures Start(size, off) + |Laid(size, off, buf)| == off + |buf|
  {
  }

  lemma StartLaidPart(size: nat, off: nat, buf: seq<Byte>, wrote: seq<Byte>)
    requires wrote <= Laid(size, off, buf)
    ensures Start(size, off) + |wrote| <= off + |buf|
  {
  }

  /** Below the old end, what was laid down is a part of `buf`. */
  lemma TornPart(c: seq<Byte>, off: nat, buf: seq<Byte>, wrote: seq<Byte>) returns (done: nat)
    requires wrote <= Laid(|c|, off, buf)
    ensures done <= |buf| && Torn(c, off, buf[..done]) == Torn(c, Start(|c|, off), wrote)
    ensures done == if off <= |c| then |wrote| else 0
  {
    if off <= |c| {
      done := |wrote|;
      assert Laid(|c|, off, buf) == buf && wrote == buf[..done];
    } else {
      done := 0;
      TornBeyond(c, off, buf[..0], |c|, wrote);
    }
  }

  /** Once the old end is reached, all that can be torn is. */
  lemma TornWhole(c: seq<Byte>, off: nat, buf: seq<Byte>, done: nat)
    requires done <= |buf| && (off <= |c| ==> off + done >= |c|)
    ensures Torn(c, off, buf[..done]) == Torn(c, off, buf)
  {
  }

  /** What a failed write makes of a file without holes: too big a one is refused at once,
      and any other has overwritten all of the old bytes it reaches. */
  function Failed(c: seq<Byte>, off: nat, buf: seq<Byte>, maxSize: nat): seq<Byte> {
    if Max(|c|, off + |buf|) > maxSize then c else Torn(c, off, buf)
  }

  /** Padding with zeros and copying, seen through the tree, is the write on the
      bytes if and only if no stale byte came up. */
  lemma WriteContents(d: Disk, o: Owners, iz: Zones, d': Disk, o': Owners, iz': Zones, size: nat, off: nat,
                      data: seq<Byte>)
    requires size <= MAX_BYTES && off + |data| <= MAX_BYTES && data != []
    requires Wrote(d, iz, d', iz', Start(size, off), Laid(size, off, data))
    requires Bared(d, o, iz, d', o', iz', Start(size, off), off + |data|)
    ensures Contents(d', iz', Max(size, off + |data|)) == Pwritten(Contents(d, iz, size), off, data)
       <==> NoStale(d, iz, d', iz', size, Start(size, off), off + |data|)
    ensures Dense(d, iz, size) ==> Dense(d', iz', Max(size, off + |data|))
  {
    hide FileByte, HasZone, BlockAt, Wrote, Bared, LeafSlot, SlotZone;
    var n, lo := Max(size, off + |data|), Start(size, off);
    var c, c' := Contents(d, iz, size), Contents(d', iz', n);
    var w := Pwritten(c, off, data);
    PwrittenLength(c, off, data);
    forall k | 0 <= k < n
      ensures c'[k] == FileByte(d', iz', k) && (lo <= k < off + |data| || HasZone(d, iz, k) || !HasZone(d', iz', k) ==>
                c'[k] == w[k])
      ensures !(lo <= k < off + |data|) ==> k < size && w[k] == FileByte(d, iz, k)
      ensures !(lo <= k < off + |data|) && !HasZone(d, iz, k) && HasZone(d', iz', k) ==>
                w[k] == 0 && c'[k] == BlockAt(d, LeafZone(d', iz', k / BLOCK_SIZE))[k % BLOCK_SIZE]
      ensures HasZone(d, iz, k) || lo <= k < off + |data| ==> HasZone(d', iz', k)
    {
      LaidByte(d, o, iz, d', o', iz', lo, Laid(size, off, data), k);
    }
    if c' == w {
      forall k | 0 <= k < size && k < MAX_BYTES && !(lo <= k < off + |data|) && !HasZone(d, iz, k) &&
           HasZone(d', iz', k)
        ensures BlockAt(d, LeafZone(d', iz', k / BLOCK_SIZE))[k % BLOCK_SIZE] == 0
      {
        assert c'[k] == w[k];
      }
    }
    if NoStale(d, iz, d', iz', size, lo, off + |data|) {
      assert forall k | 0 <= k < n :: c'[k] == w[k];
    }
  }

  /** Growing a file by zeros. */
  lemma GrowContents(d: Disk, o: Owners, iz: Zones, d': Disk, o': Owners, iz': Zones, size: nat, n: nat)
    requires size <= n <= MAX_BYTES
    requires Wrote(d, iz, d', iz', size, Zeros(n - size)) && Bared(d, o, iz, d', o', iz', size, n)
    ensures Contents(d', iz', n) == Fit(Contents(d, iz, size), n) <==> NoStale(d, iz, d', iz', size, size, n)
    ensures Dense(d, iz, size) ==> Dense(d', iz', n)
  {
    hide FileByte, HasZone, BlockAt, Wrote, Bared, LeafSlot, SlotZone;
    var c, c' := Contents(d, iz, size), Contents(d', iz', n);
    var w := Fit(c, n);
    forall k | 0 <= k < n
      ensures c'[k] == FileByte(d', iz', k) && (size <= k || HasZone(d, iz, k) || !HasZone(d', iz', k) ==>
                c'[k] == w[k])
      ensures k < size && !HasZone(d, iz, k) && HasZone(d', iz', k) ==>
                w[k] == 0 && c'[k] == BlockAt(d, LeafZone(d', iz', k / BLOCK_SIZE))[k % BLOCK_SIZE]
      ensures HasZone(d, iz, k) || size <= k ==> HasZone(d', iz', k)
    {
      LaidByte(d, o, iz, d', o', iz', size, Zeros(n - size), k);
    }
    if c' == w {
      forall k | 0 <= k < size && k < MAX_BYTES && !HasZone(d, iz, k) && HasZone(d', iz', k)
        ensures BlockAt(d, LeafZone(d', iz', k / BLOCK_SIZE))[k % BLOCK_SIZE] == 0
      {
        assert c'[k] == w[k];
      }
    }
    if NoStale(d, iz, d', iz', size, size, n) {
      assert forall k | 0 <= k < n :: c'[k] == w[k];
    }
  }

  /** Cutting off the blocks past the new end leaves the bytes before it. */
  lemma ShrinkContents(d: Disk, iz: Zones, d1: Disk, iz1: Zones, size: nat, n: nat)
    requires n <= size <= MAX_BYTES
    requires LeavesCut(d, iz, d1, iz1, ZoneCount(n), ZoneCount(size))
    ensures Contents(d1, iz1, n) == Fit(Contents(d, iz, size), n)
    ensures Dense(d, iz, size) ==> Dense(d1, iz1, n)
  {
    hide SlotZone, LeafSlot, BlockAt;
    forall k | 0 <= k < n
      ensures FileByte(d1, iz1, k) == FileByte(d, iz, k) && (HasZone(d, iz, k) ==> HasZone(d1, iz1, k))
    {
      assert k / BLOCK_SIZE < ZoneCount(n);
      assert LeafZone(d1, iz1, k / BLOCK_SIZE) == LeafZone(d, iz, k / BLOCK_SIZE);
    }
  }

  // ----- after a write that failed -----------------------------------------

  /** The inode on disk still has its old zone numbers. Through them the
      changed disk shows a sub-tree of the one the write was building. */
  lemma OldRootsSubtree(ino: nat, d: Disk, o: Owners, iz: Zones, d': Disk, o': Owners, iz': Zones, s: Slot)
    requires Kept(ino, d, o, iz, d', o', iz') && IsSlot(s)
    ensures SlotZone(d', iz, s) == 0 || SlotZone(d', iz, s) == SlotZone(d', iz', s)
    ensures SlotZone(d, iz, s) != 0 ==> SlotZone(d', iz, s) == SlotZone(d, iz, s)
  {
    assert iz[7] != 0 ==> SlotZone(d, iz, Ind) != 0;
    assert iz[8] != 0 ==> SlotZone(d, iz, Dind) != 0;
    match s
    case Direct(i) =>
    case Leaf(i, j) => assert SlotZone(d, iz, s) != 0 ==> SlotZone(d, iz, Mid(i)) != 0;
    case _ =>
  }

  lemma FailedWriteKeepsTree(ino: nat, d: Disk, o: Owners, iz: Zones, d': Disk, o': Owners, iz': Zones)
    requires Kept(ino, d, o, iz, d', o', iz') && Owned(d', o', ino, iz')
    ensures Owned(d', o', ino, iz)
    ensures forall s | IsSlot(s) && SlotZone(d, iz, s) != 0 :: SlotZone(d', iz, s) == SlotZone(d', iz', s)
  {
    hide SlotZone;
    forall s | IsSlot(s)
      ensures SlotZone(d', iz, s) != 0 ==> Holds(d', o', ino, iz, s)
      ensures SlotZone(d, iz, s) != 0 ==> SlotZone(d', iz, s) == SlotZone(d', iz', s)
    {
      OldRootsSubtree(ino, d, o, iz, d', o', iz', s);
      if SlotZone(d', iz, s) != 0 { assert Holds(d', o', ino, iz', s); }
    }
  }

  /** What is left of a write that failed: a byte that had a zone is the written one
      or as before, and one that had none is zero, the written one, or what its
      new zone held. */
  lemma FailedWriteContents(ino: nat, d: Disk, o: Owners, iz: Zones, d': Disk, o': Owners, iz': Zones, size: nat,
                            off: nat, data: seq<Byte>)
    requires Kept(ino, d, o, iz, d', o', iz') && Owned(d', o', ino, iz') && size <= MAX_BYTES
    requires Wrote(d, iz, d', iz', off, data) && Bared(d, o, iz, d', o', iz', off, off + |data|)
    ensures Owned(d', o', ino, iz)
    ensures forall k | 0 <= k < size && HasZone(d, iz, k) ::
              HasZone(d', iz, k) && FileByte(d', iz, k) == Torn(Contents(d, iz, size), off, data)[k]
    ensures forall k | 0 <= k < size && !HasZone(d, iz, k) && HasZone(d', iz, k) ::
              FileByte(d', iz, k) == if off <= k < off + |data| then data[k - off] else BlockAt(d, LeafZone(d', iz',
                  k / BLOCK_SIZE))[k % BLOCK_SIZE]
    ensures Dense(d, iz, size) ==>
              Dense(d', iz, size) && Contents(d', iz, size) == Torn(Contents(d, iz, size), off, data)
  {
    hide SlotZone, LeafSlot, BlockAt, Owned, Bared;
    FailedWriteKeepsTree(ino, d, o, iz, d', o', iz');
    forall k | 0 <= k < size
      ensures HasZone(d, iz, k) ==>
                HasZone(d', iz, k) && FileByte(d', iz, k) == Torn(Contents(d, iz, size), off, data)[k]
      ensures !HasZone(d, iz, k) && HasZone(d', iz, k) ==>
                FileByte(d', iz, k) == if off <= k < off + |data| then data[k - off] else BlockAt(d, LeafZone(d', iz',
                    k / BLOCK_SIZE))[k % BLOCK_SIZE]
    {
      OldRootsSubtree(ino, d, o, iz, d', o', iz', LeafSlot(k / BLOCK_SIZE));
      LaidByte(d, o, iz, d', o', iz', off, data, k);
    }
  }

  lemma WroteBound(d: Disk, iz: Zones, d': Disk, iz': Zones, start: nat, data: seq<Byte>)
    requires Wrote(d, iz, d', iz', start, data)
    ensures start + |data| <= MAX_BYTES
  {
  }

  /** A torn write past the end changes nothing, whatever it wrote. */
  lemma TornBeyond(c: seq<Byte>, off: nat, x: seq<Byte>, off': nat, y: seq<Byte>)
    requires |c| <= off && |c| <= off'
    ensures Torn(c, off, x) == c == Torn(c, off', y)
  {
  }

  /** The tree size reached by padding to `off` and then writing. */
  lemma ReachSizes(size: nat, off: nat, count: nat)
    requires count > 0
    ensures off <= ZoneCount(Max(size, off)) * BLOCK_SIZE
    ensures size <= ZoneCount(size) * BLOCK_SIZE
    ensures off > size ==> Reach(ZoneCount(size), size, off) == ZoneCount(Max(size, off))
    ensures Reach(ZoneCount(Max(size, off)), off, off + count) == ZoneCount(Max(size, off + count))
  {
    ZoneCountMonotone(size, Max(size, off));
    ZoneCountMonotone(size, Max(size, off + count));
    ZoneCountMonotone(Max(size, off), Max(size, off + count));
  }

  lemma TornNothing(c: seq<Byte>, off: nat)
    ensures Torn(c, off, []) == c
  {
  }

  lemma FitItself(c: seq<Byte>)
    ensures Fit(c, |c|) == c
  {
  }

  lemma EmptyContents(d: Disk, iz: Zones, iz': Zones, size: nat)
    requires size <= MAX_BYTES
    ensures Dense(d, iz', 0) && ZoneCount(0) == 0
    ensures Contents(d, iz', 0) == Fit(Contents(d, iz, size), 0)
  {
  }

  lemma NoTreeZones(d: Disk)
    ensures TreeZones(d, NO_ZONES) == {}
  {
  }

  lemma KeptGivesOthers(ino: nat, d: Disk, o: Owners, iz: Zones, d': Disk, o': Owners, iz': Zones)
    requires Kept(ino, d, o, iz, d', o', iz')
    ensures KeepsOthers(d, o, d', o', ino)
  {
  }

  /** A write into part of a block that has no zone yet hooks in a zone as it was
      left by its last user. The bytes of the block around the written ones were
      zero before and are then that zone's. */
  lemma HoleShowsOldBlock(d: Disk, o: Owners, ino: nat, iz: Zones, idx: nat, z: Zone16, off: nat, chunk: seq<Byte>,
                          k: nat)
    requires Owned(d, o, ino, iz) && idx < MAX_LEAVES && LeafZone(d, iz, idx) == 0
    requires ParentOf(LeafSlot(idx)).Some? ==> SlotZone(d, iz, ParentOf(LeafSlot(idx)).value) != 0
    requires 0 < z < |d| && z !in o && off + |chunk| <= BLOCK_SIZE
    requires k < MAX_BYTES && k / BLOCK_SIZE == idx && !(off <= k % BLOCK_SIZE < off + |chunk|)
    ensures FileByte(d, iz, k) == 0
    ensures var d1, iz1 := HookDisk(d, iz, LeafSlot(idx), z), StoreZones(iz, LeafSlot(idx), z);
            && z < |d1| && LeafZone(d1, iz1, idx) == z
            && FileByte(d1[z := Splice(d1[z], off, chunk)], iz1, k) == d[z][k % BLOCK_SIZE]
  {
    hide SlotZone, Owned, Ptr, KeepsOthers, KeepsData;
    var s := LeafSlot(idx);
    LeafChildless(d, iz, s);
    HookEffect(d, o, ino, iz, s, z);
    var d1, iz1 := HookDisk(d, iz, s, z), StoreZones(iz, s, z);
    HookKeepsNew(d, o, ino, iz, s, z);
    DataWriteEffect(d1, o[z := Owner(ino, s)], ino, iz1, idx, Splice(d1[z], off, chunk));
  }

  lemma LeafChildless(d: Disk, iz: Zones, s: Slot)
    requires !IsMeta(s)
    ensures Childless(d, iz, s)
  {
  }

  /** Hooking a data zone in does not touch its block. */
  lemma HookKeepsNew(d: Disk, o: Owners, ino: nat, iz: Zones, s: Slot, z: Zone16)
    requires IsSlot(s) && !IsMeta(s) && Owned(d, o, ino, iz) && 0 < z < |d| && z !in o
    requires ParentOf(s).Some? ==> SlotZone(d, iz, ParentOf(s).value) != 0
    ensures |HookDisk(d, iz, s, z)| == |d| && HookDisk(d, iz, s, z)[z] == d[z]
  {
    if ParentOf(s).Some? { assert Holds(d, o, ino, iz, ParentOf(s).value); }
  }
}

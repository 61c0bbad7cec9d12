/** Which zones a growing file gets: the allocator hands out the lowest free zone
    each time, so all of it can be told from the state before. */
module MinixAlloc {
  import opened Outcomes
  import opened MinixBlocks
  import opened MinixTree
  import opened MinixData

  // ----- the free zones in order ---------------------------------------------------------

  ghost function Lowest(free: set<nat>): nat {
    if free == {} then 0
    else
      LowestExists(free);
      var z: nat :| z in free && forall y | y in free :: z <= y;
      z
  }

  lemma LowestExists(free: set<nat>)
    requires free != {}
    ensures exists z: nat :: z in free && forall y | y in free :: z <= y
  {
    var z := FindLowest(free);
  }

  lemma {:induction false} FindLowest(free: set<nat>) returns (z: nat)
    requires free != {}
    ensures z in free && forall y | y in free :: z <= y
  {
    var x :| x in free;
    var rest := free - {x};
    assert free == rest + {x};
    z := x;
    if rest != {} {
      var y := FindLowest(rest);
      if y < x { z := y; }
    }
  }

  lemma LowestIs(free: set<nat>, z: nat)
    requires z in free && forall y | y in free :: z <= y
    ensures Lowest(free) == z
  {
  }

  /** The free zones without the `n` lowest. */
  ghost function Rest(free: set<nat>, n: nat): set<nat> {
    if n == 0 then free else Rest(free - {Lowest(free)}, n - 1)
  }

  /** The free zone that `n` others lie below. */
  ghost function Nth(free: set<nat>, n: nat): nat {
    Lowest(Rest(free, n))
  }

  lemma {:induction false} RestRest(free: set<nat>, m: nat, n: nat)
    ensures Rest(Rest(free, m), n) == Rest(free, m + n)
  {
    if m > 0 { RestRest(free - {Lowest(free)}, m - 1, n); }
  }

  lemma RestOne(free: set<nat>, n: nat)
    ensures Rest(free, n + 1) == Rest(free, n) - {Nth(free, n)}
  {
    RestRest(free, n, 1);
    assert Rest(Rest(free, n), 1) == Rest(Rest(free, n) - {Lowest(Rest(free, n))}, 0);
  }

  /** The free zones the volume can use. */
  ghost function Usable(free: set<nat>, limit: nat): set<nat> {
    set z | z in free && z < limit
  }

  lemma {:induction false} UsableRest(free: set<nat>, n: nat, limit: nat)
    requires n <= |Usable(free, limit)|
    ensures |Usable(Rest(free, n), limit)| == |Usable(free, limit)| - n
  {
    if n > 0 {
      var z := Lowest(free);
      var y :| y in Usable(free, limit);
      assert z in free && z <= y;
      assert Usable(free, limit) == Usable(free - {z}, limit) + {z};
      UsableRest(free - {z}, n - 1, limit);
    }
  }

  // ----- what a file lacks --------------------------------------------------------------

  /** The slots on the way to file block `i`. */
  ghost function Way(i: nat): set<Slot> {
    if i < DIRECT then {Direct(i)}
    else if i < DIRECT + PTRS then {Ind, IndLeaf(i - DIRECT)}
    else if i < MAX_LEAVES then
      {Dind, Mid((i - DIRECT - PTRS) / PTRS), Leaf((i - DIRECT - PTRS) / PTRS, (i - DIRECT - PTRS) % PTRS)}
    else {}
  }

  lemma WayIsPath(s: Slot, i: nat)
    ensures s in Way(i) <==> IsSlot(s) && i < MAX_LEAVES && OnPath(s, i)
  {
    if IsSlot(s) && i < MAX_LEAVES { PathOfLeaf(s, i); }
  }

  /** The empty slots on the ways to the file blocks a .. b - 1. */
  ghost function Missing(d: Disk, iz: Zones, a: nat, b: nat): set<Slot> {
    set i, s | a <= i < b && s in Way(i) && IsSlot(s) && SlotZone(d, iz, s) == 0 :: s
  }

  predicate OnWays(s: Slot, a: nat, b: nat) {
    Lo(s) < b && a < Hi(s) && a < b
  }

  lemma OnWaysIs(s: Slot, a: nat, b: nat)
    requires IsSlot(s) && b <= MAX_LEAVES
    ensures OnWays(s, a, b) <==> exists i :: a <= i < b && s in Way(i)
  {
    if OnWays(s, a, b) {
      var i := if Lo(s) < a then a else Lo(s);
      WayIsPath(s, i);
    }
    if i :| a <= i < b && s in Way(i) { WayIsPath(s, i); }
  }

  lemma MissingIs(d: Disk, iz: Zones, a: nat, b: nat, s: Slot)
    requires b <= MAX_LEAVES
    ensures s in Missing(d, iz, a, b) <==> IsSlot(s) && OnWays(s, a, b) && SlotZone(d, iz, s) == 0
  {
    if IsSlot(s) { OnWaysIs(s, a, b); }
  }

  // ----- what a growing file takes --------------------------------------------------------

  /** On the way to block `idx` some of the missing slots were filled, each with the
      lowest zone free at its time. */
  ghost predicate TookSome(d: Disk, iz: Zones, free: set<nat>, d': Disk, iz': Zones, free': set<nat>, limit: nat,
                           idx: nat) {
    var m, m' := Missing(d, iz, idx, idx + 1), Missing(d', iz', idx, idx + 1);
    m' <= m && |m'| <= |m| && |m| - |m'| <= |Usable(free, limit)| && free' == Rest(free, |m| - |m'|)
  }

  lemma TookNone(d: Disk, iz: Zones, free: set<nat>, limit: nat, idx: nat)
    ensures TookSome(d, iz, free, d, iz, free, limit, idx)
  {
  }

  /** One more slot filled. */
  lemma TookOneMore(d: Disk, iz: Zones, free: set<nat>, d1: Disk, iz1: Zones, free1: set<nat>, d2: Disk, iz2: Zones,
                    free2: set<nat>, limit: nat, idx: nat, s: Slot, z: Zone16)
    requires TookSome(d, iz, free, d1, iz1, free1, limit, idx) && IsSlot(s) && OnPath(s, idx) && idx < MAX_LEAVES
    requires SlotZone(d1, iz1, s) == 0 && z != 0
    requires forall t | IsSlot(t) :: SlotZone(d2, iz2, t) == if t == s then z else SlotZone(d1, iz1, t)
    requires z < limit && z in free1 && (forall y | y in free1 :: z <= y) && free2 == free1 - {z}
    ensures TookSome(d, iz, free, d2, iz2, free2, limit, idx)
    ensures (forall t | IsSlot(t) && OnPath(t, idx) && t != s :: SlotZone(d1, iz1, t) != 0) ==>
              0 < |Missing(d, iz, idx, idx + 1)| && z == Nth(free, |Missing(d, iz, idx, idx + 1)| - 1)
  {
    hide SlotZone, OnPath, Way;
    var m, m1, m2 := Missing(d, iz, idx, idx + 1), Missing(d1, iz1, idx, idx + 1), Missing(d2, iz2, idx, idx + 1);
    WayIsPath(s, idx);
    assert s in m1;
    assert m2 == m1 - {s};
    var n := |m| - |m1|;
    LowestIs(free1, z);
    RestOne(free, n);
    UsableRest(free, n, limit);
    assert z in Usable(free1, limit);
    if forall t | IsSlot(t) && OnPath(t, idx) && t != s :: SlotZone(d1, iz1, t) != 0 {
      forall t | t in m1 ensures t == s { WayIsPath(t, idx); }
      assert m1 == {s};
    }
  }

  /** The zone block `i` gets when the blocks from `a` on are written: as many free
      zones lie below it as slots were missing before it. */
  ghost function NextZone(d: Disk, iz: Zones, free: set<nat>, a: nat, i: nat): nat {
    var n := |Missing(d, iz, a, i + 1)|;
    if n == 0 then 0 else Nth(free, n - 1)
  }

  lemma TookSomeTrans(d: Disk, iz: Zones, free: set<nat>, d1: Disk, iz1: Zones, free1: set<nat>, d2: Disk, iz2: Zones,
                      free2: set<nat>, limit: nat, idx: nat)
    requires TookSome(d, iz, free, d1, iz1, free1, limit, idx) && TookSome(d1, iz1, free1, d2, iz2, free2, limit, idx)
    ensures TookSome(d, iz, free, d2, iz2, free2, limit, idx)
    ensures Lacks(d1, iz1, free1, limit, idx, idx + 1) ==> Lacks(d, iz, free, limit, idx, idx + 1)
    ensures idx < MAX_LEAVES && LeafZone(d1, iz1, idx) == 0 ==>
              NextZone(d1, iz1, free1, idx, idx) == NextZone(d, iz, free, idx, idx)
  {
    hide SlotZone, Missing;
    var m, m1, m2 := Missing(d, iz, idx, idx + 1), Missing(d1, iz1, idx, idx + 1), Missing(d2, iz2, idx, idx + 1);
    UsableRest(free, |m| - |m1|, limit);
    RestRest(free, |m| - |m1|, |m1| - |m2|);
    if idx < MAX_LEAVES && LeafZone(d1, iz1, idx) == 0 {
      MissingIs(d1, iz1, idx, idx + 1, LeafSlot(idx));
      assert LeafSlot(idx) in m1;
      RestRest(free, |m| - |m1|, |m1| - 1);
    }
  }

  /** When a data slot is filled the way to it is complete. */
  lemma LastOnWay(d: Disk, iz: Zones, idx: nat, s: Slot)
    requires idx < MAX_LEAVES && IsSlot(s) && OnPath(s, idx) && !IsMeta(s)
    requires ParentOf(s).Some? ==> SlotZone(d, iz, ParentOf(s).value) != 0
    ensures forall t | IsSlot(t) && OnPath(t, idx) && t != s :: SlotZone(d, iz, t) != 0
  {
    hide Ptr;
    PathOfLeaf(s, idx);
    forall t | IsSlot(t) && OnPath(t, idx) && t != s ensures SlotZone(d, iz, t) != 0 { PathOfLeaf(t, idx); }
  }

  /** The blocks a .. b - 1 have been given all the zones they lacked, and no other
      block has got any. */
  ghost predicate Took(d: Disk, iz: Zones, free: set<nat>, d': Disk, iz': Zones, free': set<nat>, limit: nat, a: nat,
                       b: nat) {
    && b <= MAX_LEAVES
    && (forall s | IsSlot(s) :: SlotZone(d', iz', s) == 0 <==> SlotZone(d, iz, s) == 0 && !OnWays(s, a, b))
    && (forall s | IsSlot(s) && SlotZone(d, iz, s) != 0 :: SlotZone(d', iz', s) == SlotZone(d, iz, s))
    && |Missing(d, iz, a, b)| <= |Usable(free, limit)| && free' == Rest(free, |Missing(d, iz, a, b)|)
    && (forall i | a <= i < b && LeafZone(d, iz, i) == 0 :: LeafZone(d', iz', i) == NextZone(d, iz, free, a, i))
  }

  lemma TookNothing(d: Disk, iz: Zones, free: set<nat>, limit: nat, a: nat)
    requires a <= MAX_LEAVES
    ensures Took(d, iz, free, d, iz, free, limit, a, a)
  {
    assert Missing(d, iz, a, a) == {};
  }

  /** The whole way to one block. */
  lemma TookBlock(d: Disk, iz: Zones, free: set<nat>, d': Disk, iz': Zones, free': set<nat>, limit: nat, idx: nat)
    requires TookSome(d, iz, free, d', iz', free', limit, idx) && idx < MAX_LEAVES
    requires forall s | IsSlot(s) && SlotZone(d, iz, s) != 0 :: SlotZone(d', iz', s) == SlotZone(d, iz, s)
    requires forall s | IsSlot(s) && SlotZone(d, iz, s) == 0 && SlotZone(d', iz', s) != 0 :: OnPath(s, idx)
    requires forall s | IsSlot(s) && OnPath(s, idx) :: SlotZone(d', iz', s) != 0
    requires LeafZone(d, iz, idx) == 0 ==> LeafZone(d', iz', idx) == NextZone(d, iz, free, idx, idx)
    ensures Took(d, iz, free, d', iz', free', limit, idx, idx + 1)
  {
    hide SlotZone, Way;
    var m := Missing(d', iz', idx, idx + 1);
    forall s: Slot ensures s in m ==>
         IsSlot(s) && OnPath(s, idx) && SlotZone(d', iz', s) == 0 { MissingIs(d', iz', idx, idx + 1, s); }
    assert m == {};
  }

  /** A run of blocks, and then a run that continues it, perhaps going over some
      of the first again. */
  lemma MissingSplit(d: Disk, iz: Zones, free: set<nat>, d1: Disk, iz1: Zones, free1: set<nat>, limit: nat, a: nat,
                     b': nat, b: nat, c: nat)
    requires Took(d, iz, free, d1, iz1, free1, limit, a, b) && a <= b' <= b <= c <= MAX_LEAVES
    ensures |Missing(d, iz, a, c)| == |Missing(d, iz, a, b)| + |Missing(d1, iz1, b', c)|
  {
    hide SlotZone, Missing, Took;
    var m, n, k := Missing(d, iz, a, c), Missing(d, iz, a, b), Missing(d1, iz1, b', c);
    forall s: Slot ensures (s in m <==> s in n || s in k) && (s in n ==> s !in k) {
      MissingIs(d, iz, a, c, s);
      MissingIs(d, iz, a, b, s);
      MissingIs(d1, iz1, b', c, s);
      if IsSlot(s) { TookSlot(d, iz, free, d1, iz1, free1, limit, a, b, s); }
    }
    assert m == n + k && n !! k;
  }

  lemma TookSlot(d: Disk, iz: Zones, free: set<nat>, d': Disk, iz': Zones, free': set<nat>, limit: nat, a: nat, b: nat,
                 s: Slot)
    requires Took(d, iz, free, d', iz', free', limit, a, b) && IsSlot(s)
    ensures SlotZone(d', iz', s) == 0 <==> SlotZone(d, iz, s) == 0 && !OnWays(s, a, b)
    ensures SlotZone(d, iz, s) != 0 ==> SlotZone(d', iz', s) == SlotZone(d, iz, s)
  {
  }

  lemma TookTrans(d: Disk, iz: Zones, free: set<nat>, d1: Disk, iz1: Zones, free1: set<nat>, d2: Disk, iz2: Zones,
                  free2: set<nat>, limit: nat, a: nat, b': nat, b: nat, c: nat)
    requires Took(d, iz, free, d1, iz1, free1, limit, a, b) && Took(d1, iz1, free1, d2, iz2, free2, limit, b', c) &&
              a <= b' <= b <= c
    ensures Took(d, iz, free, d2, iz2, free2, limit, a, c)
  {
    hide SlotZone, Missing;
    MissingSplit(d, iz, free, d1, iz1, free1, limit, a, b', b, c);
    var n := |Missing(d, iz, a, b)|;
    UsableRest(free, n, limit);
    RestRest(free, n, |Missing(d1, iz1, b', c)|);
    forall i | a <= i < c && LeafZone(d, iz, i) == 0 ensures LeafZone(d2, iz2, i) == NextZone(d, iz, free, a, i) {
      if i >= b {
        MissingSplit(d, iz, free, d1, iz1, free1, limit, a, b', b, i + 1);
        assert LeafZone(d1, iz1, i) == 0;
        NextInRest(d, iz, free, d1, iz1, free1, n, a, b', i);
      } else {
        assert LeafZone(d1, iz1, i) != 0;
      }
    }
  }

  lemma NextInRest(d: Disk, iz: Zones, free: set<nat>, d1: Disk, iz1: Zones, free1: set<nat>, n: nat, a: nat, b': nat,
                   i: nat)
    requires free1 == Rest(free, n) && |Missing(d, iz, a, i + 1)| == n + |Missing(d1, iz1, b', i + 1)| &&
              b' <= i < MAX_LEAVES && LeafZone(d1, iz1, i) == 0
    ensures NextZone(d1, iz1, free1, b', i) == NextZone(d, iz, free, a, i)
  {
    hide SlotZone, Missing;
    MissingIs(d1, iz1, b', i + 1, LeafSlot(i));
    var m := Missing(d1, iz1, b', i + 1);
    assert LeafSlot(i) in m;
    RestRest(free, n, |m| - 1);
  }

  /** Writing data moves no zone. */
  lemma TookThenStored(d: Disk, iz: Zones, free: set<nat>, d1: Disk, iz1: Zones, free1: set<nat>, d2: Disk, limit: nat,
                       a: nat, b: nat)
    requires Took(d, iz, free, d1, iz1, free1, limit, a, b)
    requires forall t | IsSlot(t) :: SlotZone(d2, iz1, t) == SlotZone(d1, iz1, t)
    ensures Took(d, iz, free, d2, iz1, free1, limit, a, b)
  {
    hide SlotZone, Missing, NextZone;
  }

  // ----- when there are too few zones -------------------------------------------------------

  /** The volume has fewer free zones than the blocks a .. b - 1 lack. */
  ghost predicate Lacks(d: Disk, iz: Zones, free: set<nat>, limit: nat, a: nat, b: nat) {
    |Usable(free, limit)| < |Missing(d, iz, a, b)|
  }

  /** Growing towards a block stopped for want of a zone. */
  lemma StoppedLacks(d: Disk, iz: Zones, free: set<nat>, d': Disk, iz': Zones, free': set<nat>, limit: nat, idx: nat,
                     s: Slot)
    requires TookSome(d, iz, free, d', iz', free', limit, idx) && Usable(free', limit) == {}
    requires IsSlot(s) && idx < MAX_LEAVES && OnPath(s, idx) && SlotZone(d', iz', s) == 0
    ensures Lacks(d, iz, free, limit, idx, idx + 1)
  {
    hide SlotZone, Missing;
    MissingIs(d', iz', idx, idx + 1, s);
    UsableRest(free, |Missing(d, iz, idx, idx + 1)| - |Missing(d', iz', idx, idx + 1)|, limit);
    assert s in Missing(d', iz', idx, idx + 1);
  }

  lemma MissingGrows(d: Disk, iz: Zones, a: nat, c: nat, e: nat)
    requires c <= e
    ensures |Missing(d, iz, a, c)| <= |Missing(d, iz, a, e)|
  {
    hide SlotZone, Way;
    var m, m' := Missing(d, iz, a, c), Missing(d, iz, a, e);
    assert m <= m';
    assert m' == m + (m' - m);
  }

  /** There is nothing beyond the tree. */
  lemma MissingCapped(d: Disk, iz: Zones, a: nat, c: nat)
    requires MAX_LEAVES <= c
    ensures Missing(d, iz, a, c) == Missing(d, iz, a, MAX_LEAVES)
  {
    hide SlotZone;
    forall i: nat, s: Slot | a <= i < c && s in Way(i) ensures i < MAX_LEAVES { WayIsPath(s, i); }
  }

  lemma LacksIff(d: Disk, iz: Zones, free: set<nat>, d1: Disk, iz1: Zones, free1: set<nat>, limit: nat, a: nat,
                 b': nat, b: nat, c: nat)
    requires Took(d, iz, free, d1, iz1, free1, limit, a, b) && a <= b' <= b <= c
    ensures Lacks(d1, iz1, free1, limit, b', c) <==> Lacks(d, iz, free, limit, a, c)
  {
    hide SlotZone, Missing;
    if c > MAX_LEAVES {
      MissingCapped(d, iz, a, c);
      MissingCapped(d1, iz1, b', c);
    }
    MissingSplit(d, iz, free, d1, iz1, free1, limit, a, b', b, if c > MAX_LEAVES then MAX_LEAVES else c);
    UsableRest(free, |Missing(d, iz, a, b)|, limit);
  }

  lemma LacksMore(d: Disk, iz: Zones, free: set<nat>, limit: nat, a: nat, c: nat, e: nat)
    requires Lacks(d, iz, free, limit, a, c) && c <= e
    ensures Lacks(d, iz, free, limit, a, e)
  {
    hide Missing;
    MissingGrows(d, iz, a, c, e);
  }

  // ----- a write of positions start .. end - 1 -------------------------------------------

  /** The block behind the last one that the positions from `start` to `end` touch. */
  function Upto(start: nat, end: nat): nat {
    if end <= start then start / BLOCK_SIZE else ZoneCount(end)
  }

  lemma UptoStep(start: nat, pos: nat, chunk: nat)
    requires start <= pos && 0 < chunk && pos % BLOCK_SIZE + chunk <= BLOCK_SIZE
    ensures start / BLOCK_SIZE <= pos / BLOCK_SIZE <= Upto(start, pos) <= pos / BLOCK_SIZE + 1
    ensures Upto(start, pos + chunk) == pos / BLOCK_SIZE + 1
  {
    assert ZoneCount(pos + chunk) == pos / BLOCK_SIZE + 1;
    DivMono(start, pos);
  }

  lemma DivMono(x: nat, y: nat)
    requires x <= y
    ensures x / BLOCK_SIZE <= y / BLOCK_SIZE
  {
  }

  lemma UptoGrows(start: nat, pos: nat, end: nat)
    requires start <= pos <= end
    ensures Upto(start, pos) <= Upto(start, end)
  {
    ZoneCountMonotone(pos, end);
    if start == pos < end { DivMono(start, end - 1); }
  }

  /** Whether the volume has the zones for such a write, and the tree the room: all
      of it known before the first zone is taken. */
  ghost function RoomFor(d: Disk, iz: Zones, free: set<nat>, limit: nat, start: nat, end: nat): (e: Errno)
    ensures e in {OK, ENOSPC, EFBIG}
  {
    if Lacks(d, iz, free, limit, start / BLOCK_SIZE, Upto(start, end)) then ENOSPC
    else if end > MAX_BYTES then EFBIG
    else OK
  }

  lemma TookStart(d: Disk, iz: Zones, free: set<nat>, limit: nat, start: nat)
    requires start <= MAX_BYTES
    ensures Took(d, iz, free, d, iz, free, limit, start / BLOCK_SIZE, Upto(start, start))
  {
    hide Took;
    TookNothing(d, iz, free, limit, start / BLOCK_SIZE);
  }

  /** One chunk more. */
  lemma TookChunk(d: Disk, iz: Zones, free: set<nat>, d1: Disk, iz1: Zones, free1: set<nat>, d2: Disk, iz2: Zones,
                  free2: set<nat>, limit: nat, start: nat, pos: nat, chunk: nat)
    requires start <= pos && 0 < chunk && pos % BLOCK_SIZE + chunk <= BLOCK_SIZE
    requires Took(d, iz, free, d1, iz1, free1, limit, start / BLOCK_SIZE, Upto(start, pos))
    requires Took(d1, iz1, free1, d2, iz2, free2, limit, pos / BLOCK_SIZE, pos / BLOCK_SIZE + 1)
    ensures Took(d, iz, free, d2, iz2, free2, limit, start / BLOCK_SIZE, Upto(start, pos + chunk))
  {
    hide Took, Upto;
    UptoStep(start, pos, chunk);
    TookTrans(d, iz, free, d1, iz1, free1, d2, iz2, free2, limit, start / BLOCK_SIZE, pos / BLOCK_SIZE, Upto(start,
        pos), pos / BLOCK_SIZE + 1);
  }

  /** A write that came to its end had the room. */
  lemma TookRoom(d: Disk, iz: Zones, free: set<nat>, d': Disk, iz': Zones, free': set<nat>, limit: nat, start: nat,
                 end: nat)
    requires Took(d, iz, free, d', iz', free', limit, start / BLOCK_SIZE, Upto(start, end)) && end <= MAX_BYTES
    ensures RoomFor(d, iz, free, limit, start, end) == OK
  {
    hide Missing, Upto, SlotZone;
  }

  lemma UptoMax(start: nat)
    requires start <= MAX_BYTES
    ensures Upto(start, MAX_BYTES) == MAX_LEAVES
  {
    assert MAX_BYTES / BLOCK_SIZE == MAX_LEAVES && ZoneCount(MAX_BYTES) == MAX_LEAVES;
  }

  /** One that was stopped at `pos` had not. */
  lemma Stopped(d: Disk, iz: Zones, free: set<nat>, d1: Disk, iz1: Zones, free1: set<nat>, limit: nat, start: nat,
                pos: nat, end: nat, err: Errno)
    requires Took(d, iz, free, d1, iz1, free1, limit, start / BLOCK_SIZE, Upto(start, pos)) && start <= pos < end &&
              pos <= MAX_BYTES
    requires if pos == MAX_BYTES then
              err == EFBIG else err == ENOSPC && Lacks(d1, iz1, free1, limit, pos / BLOCK_SIZE, pos / BLOCK_SIZE + 1)
    ensures RoomFor(d, iz, free, limit, start, end) == err
  {
    hide Took, Lacks, Upto;
    UptoStep(start, pos, 1);
    UptoGrows(start, pos, end);
    UptoGrows(start, pos + 1, end);
    var a := start / BLOCK_SIZE;
    if pos == MAX_BYTES {
      UptoMax(start);
      AllTaken(d, iz, free, d1, iz1, free1, limit, a, Upto(start, pos), Upto(start, end));
    } else {
      LacksIff(d, iz, free, d1, iz1, free1, limit, a, pos / BLOCK_SIZE, Upto(start, pos), pos / BLOCK_SIZE + 1);
      LacksMore(d, iz, free, limit, a, pos / BLOCK_SIZE + 1, Upto(start, end));
    }
  }

  lemma AllTaken(d: Disk, iz: Zones, free: set<nat>, d1: Disk, iz1: Zones, free1: set<nat>, limit: nat, a: nat, b: nat,
                 c: nat)
    requires Took(d, iz, free, d1, iz1, free1, limit, a, b) && b == MAX_LEAVES <= c
    ensures !Lacks(d, iz, free, limit, a, c)
  {
    hide Missing, SlotZone;
    MissingCapped(d, iz, a, c);
  }

  lemma RoomBound(d: Disk, iz: Zones, free: set<nat>, limit: nat, start: nat, end: nat)
    requires RoomFor(d, iz, free, limit, start, end) == OK
    ensures end <= MAX_BYTES
  {
  }

  /** A longer write needs no less. */
  lemma NoRoomEarly(d: Disk, iz: Zones, free: set<nat>, limit: nat, start: nat, mid: nat, end: nat)
    requires start <= mid <= end && RoomFor(d, iz, free, limit, start, mid) != OK
    ensures RoomFor(d, iz, free, limit, start, end) == RoomFor(d, iz, free, limit, start, mid)
  {
    hide Lacks, Upto;
    var a, b, c := start / BLOCK_SIZE, Upto(start, mid), Upto(start, end);
    UptoGrows(start, mid, end);
    if Lacks(d, iz, free, limit, a, b) {
      LacksMore(d, iz, free, limit, a, b, c);
    } else {
      UptoBeyond(start, mid);
      SameLack(d, iz, free, limit, a, b, c);
    }
  }

  lemma UptoBeyond(start: nat, end: nat)
    requires end > MAX_BYTES
    ensures Upto(start, end) >= MAX_LEAVES
  {
    if end <= start { DivMono(MAX_BYTES, start); }
    assert MAX_BYTES / BLOCK_SIZE == MAX_LEAVES;
  }

  lemma SameLack(d: Disk, iz: Zones, free: set<nat>, limit: nat, a: nat, b: nat, c: nat)
    requires MAX_LEAVES <= b <= c
    ensures Lacks(d, iz, free, limit, a, b) <==> Lacks(d, iz, free, limit, a, c)
  {
    hide Missing;
    MissingCapped(d, iz, a, b);
    MissingCapped(d, iz, a, c);
  }

  /** The room for the second part of a write is the room for the whole, once the
      first part is done. */
  lemma RoomAfter(d: Disk, iz: Zones, free: set<nat>, d1: Disk, iz1: Zones, free1: set<nat>, limit: nat, start: nat,
                  mid: nat, end: nat)
    requires Took(d, iz, free, d1, iz1, free1, limit, start / BLOCK_SIZE, Upto(start, mid)) && start < mid < end
    ensures RoomFor(d1, iz1, free1, limit, mid, end) == RoomFor(d, iz, free, limit, start, end)
  {
    hide Took, Lacks;
    UptoParts(start, mid, end);
    LacksIff(d, iz, free, d1, iz1, free1, limit, start / BLOCK_SIZE, mid / BLOCK_SIZE, Upto(start, mid), Upto(start,
        end));
  }

  lemma UptoParts(start: nat, mid: nat, end: nat)
    requires start < mid < end
    ensures start / BLOCK_SIZE <= mid / BLOCK_SIZE <= Upto(start, mid) <= Upto(start, end) == Upto(mid, end)
  {
    DivMono(start, mid);
    ZoneCountMonotone(mid, end);
  }

  // ----- where a write that lacks room stops ------------------------------------------------

  /** There is room up to position `p`, and none for it. */
  ghost predicate StopsAt(d: Disk, iz: Zones, free: set<nat>, limit: nat, start: nat, p: nat) {
    start <= p && RoomFor(d, iz, free, limit, start, p) == OK && RoomFor(d, iz, free, limit, start, p + 1) != OK
  }

  lemma StopIsUnique(d: Disk, iz: Zones, free: set<nat>, limit: nat, start: nat, p: nat, q: nat)
    requires StopsAt(d, iz, free, limit, start, p) && StopsAt(d, iz, free, limit, start, q)
    ensures p == q
  {
    hide RoomFor;
    if p < q { NoRoomEarly(d, iz, free, limit, start, p + 1, q); }
    if q < p { NoRoomEarly(d, iz, free, limit, start, q + 1, p); }
  }

  /** A write stops at a position that has no zone. */
  lemma StopIsUnbacked(d: Disk, iz: Zones, free: set<nat>, limit: nat, start: nat, p: nat)
    requires StopsAt(d, iz, free, limit, start, p) && p < MAX_BYTES
    ensures !HasZone(d, iz, p)
  {
    hide Missing, LeafZone, Upto;
    if HasZone(d, iz, p) {
      UptoStep(start, p, 1);
      MissingBacked(d, iz, start / BLOCK_SIZE, Upto(start, p), p / BLOCK_SIZE);
    }
  }

  lemma MissingBacked(d: Disk, iz: Zones, a: nat, b: nat, i: nat)
    requires i < MAX_LEAVES && LeafZone(d, iz, i) != 0 && i <= b <= i + 1
    ensures Missing(d, iz, a, i + 1) == Missing(d, iz, a, b)
  {
    hide LeafZone, SlotZone;
    forall s | s in Way(i) ensures SlotZone(d, iz, s) != 0 { WayBacked(d, iz, i, s); }
  }

  lemma WayBacked(d: Disk, iz: Zones, i: nat, s: Slot)
    requires i < MAX_LEAVES && LeafZone(d, iz, i) != 0 && s in Way(i)
    ensures SlotZone(d, iz, s) != 0
  {
  }

  lemma TookOn(d: Disk, iz: Zones, free: set<nat>, d1: Disk, iz1: Zones, free1: set<nat>, d2: Disk, iz2: Zones,
               free2: set<nat>, limit: nat, start: nat, mid: nat, end: nat)
    requires start < mid < end
    requires Took(d, iz, free, d1, iz1, free1, limit, start / BLOCK_SIZE, Upto(start, mid))
    requires Took(d1, iz1, free1, d2, iz2, free2, limit, mid / BLOCK_SIZE, Upto(mid, end))
    ensures Took(d, iz, free, d2, iz2, free2, limit, start / BLOCK_SIZE, Upto(start, end))
  {
    hide Took, Upto;
    UptoParts(start, mid, end);
    TookTrans(d, iz, free, d1, iz1, free1, d2, iz2, free2, limit, start / BLOCK_SIZE, mid / BLOCK_SIZE, Upto(start,
        mid), Upto(start, end));
  }
}

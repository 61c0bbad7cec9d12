/** How many zones a MINIX file occupies. */
module MinixSpace {
  import opened MinixBlocks
  import opened MinixTree

  /** Data blocks, the indirect block once there are more than 7, and once there
      are more than 519 the double-indirect block and its pointer blocks. */
  function ZonesNeeded(n: nat): nat {
    n
    + (if n > DIRECT then 1 else 0)
    + (if n > DIRECT + PTRS then 1 + (n - DIRECT - PTRS + PTRS - 1) / PTRS else 0)
  }

  /** The slots first needed when a file grows from n to n + 1 blocks. */
  function NewSlots(n: nat): set<Slot>
    requires n < MAX_LEAVES
  {
    {LeafSlot(n)}
    + (if n == DIRECT then {Ind} else {})
    + (if n == DIRECT + PTRS then {Dind} else {})
    + (if n >= DIRECT + PTRS && (n - DIRECT - PTRS) % PTRS == 0 then {Mid((n - DIRECT - PTRS) / PTRS)} else {})
  }

  function SlotsFor(n: nat): set<Slot>
    requires n <= MAX_LEAVES
  {
    if n == 0 then {} else SlotsFor(n - 1) + NewSlots(n - 1)
  }

  lemma NewSlotsAre(n: nat, s: Slot)
    requires n < MAX_LEAVES
    ensures s in NewSlots(n) <==> IsSlot(s) && Hits(s, n + 1, n + 1, n + 1) && !Hits(s, n, n, n)
  {
    if s.Leaf? && IsSlot(s) { PathOfLeaf(s, n); }
  }

  lemma {:induction false} SlotsForAre(n: nat, s: Slot)
    requires n <= MAX_LEAVES
    ensures s in SlotsFor(n) <==> IsSlot(s) && Hits(s, n, n, n)
  {
    if n > 0 {
      SlotsForAre(n - 1, s);
      NewSlotsAre(n - 1, s);
    }
  }

  lemma NewSlotsCount(n: nat)
    requires n < MAX_LEAVES
    ensures |NewSlots(n)| == ZonesNeeded(n + 1) - ZonesNeeded(n)
  {
    var leaf := {LeafSlot(n)};
    var ind := if n == DIRECT then {Ind} else {};
    var dind := if n == DIRECT + PTRS then {Dind} else {};
    var mid := if n >= DIRECT + PTRS && (n - DIRECT - PTRS) % PTRS == 0 then {Mid((n - DIRECT - PTRS) / PTRS)} else {};
    assert |leaf + ind| == |leaf| + |ind|;
    assert |leaf + ind + dind| == |leaf| + |ind| + |dind|;
    assert |leaf + ind + dind + mid| == |leaf| + |ind| + |dind| + |mid|;
    if n >= DIRECT + PTRS {
      var r := n - DIRECT - PTRS;
      assert (r + PTRS) / PTRS - (r + PTRS - 1) / PTRS == if r % PTRS == 0 then 1 else 0;
    }
  }

  lemma NewSlotsFresh(n: nat)
    requires n < MAX_LEAVES
    ensures SlotsFor(n) !! NewSlots(n)
  {
    hide SlotsFor, NewSlots, Hits;
    forall s: Slot | s in NewSlots(n) ensures s !in SlotsFor(n) {
      SlotsForAre(n, s);
      NewSlotsAre(n, s);
    }
  }

  lemma {:induction false} SlotsForCount(n: nat)
    requires n <= MAX_LEAVES
    ensures |SlotsFor(n)| == ZonesNeeded(n)
  {
    hide NewSlots;
    if n > 0 {
      SlotsForCount(n - 1);
      NewSlotsCount(n - 1);
      NewSlotsFresh(n - 1);
    }
  }

  ghost function ZonesIn(d: Disk, iz: Zones, ss: set<Slot>): set<nat>
    requires forall s | s in ss :: IsSlot(s)
  {
    set s | s in ss :: SlotZone(d, iz, s) as nat
  }

  lemma {:induction false} ZonesInCount(d: Disk, o: Owners, ino: nat, iz: Zones, ss: set<Slot>)
    requires Owned(d, o, ino, iz)
    requires forall s | s in ss :: IsSlot(s) && SlotZone(d, iz, s) != 0
    ensures |ZonesIn(d, iz, ss)| == |ss|
  {
    hide SlotZone;
    if ss != {} {
      var s :| s in ss;
      var rest := ss - {s};
      ZonesInCount(d, o, ino, iz, rest);
      assert Holds(d, o, ino, iz, s);
      forall t | t in rest ensures SlotZone(d, iz, t) != SlotZone(d, iz, s) {
        assert Holds(d, o, ino, iz, t);
      }
      assert ZonesIn(d, iz, ss) == ZonesIn(d, iz, rest) + {SlotZone(d, iz, s) as nat};
    }
  }

  /** A file of `n` blocks with an exact tree occupies exactly that many zones:
      no pointer block is missing, shared or left over. */
  lemma ExactSpace(d: Disk, o: Owners, ino: nat, iz: Zones, n: nat)
    requires Owned(d, o, ino, iz) && n <= MAX_LEAVES && ExactShape(d, iz, n)
    ensures |TreeZones(d, iz)| == ZonesNeeded(n)
  {
    hide SlotZone, Hits;
    var ss := SlotsFor(n);
    forall s | IsSlot(s) || s in ss
      ensures s in ss <==> IsSlot(s) && SlotZone(d, iz, s) != 0
    {
      SlotsForAre(n, s);
    }
    SlotsForCount(n);
    ZonesInCount(d, o, ino, iz, ss);
    forall z: nat ensures z in TreeZones(d, iz) <==> z in ZonesIn(d, iz, ss) {
      if z in TreeZones(d, iz) {
        var s :| IsSlot(s) && SlotZone(d, iz, s) == z;
        assert s in ss;
      }
    }
    assert TreeZones(d, iz) == ZonesIn(d, iz, ss);
  }
}

/** The zone tree of one MINIX inode: seven direct zones, one indirect block and
    one double-indirect block (fs/minix_fs.h:33-42, fs/minix_fs.c:1852-2020).

    Every place that can hold a zone number is a Slot. */
module MinixTree {
  import opened Outcomes
  import opened MinixBlocks

  const DIRECT := 7
  const MAX_LEAVES := DIRECT + PTRS + PTRS * PTRS

  type Disk = seq<Block>
  type Zones = s: seq<Zone16> | |s| == 9 witness [0, 0, 0, 0, 0, 0, 0, 0, 0]

  datatype Slot =
    | Direct(i: nat)       // i_zone[i], i < 7
    | Ind                  // i_zone[7]
    | IndLeaf(i: nat)      // entry i of the indirect block
    | Dind                 // i_zone[8]
    | Mid(i: nat)          // entry i of the double-indirect block
    | Leaf(i: nat, j: nat) // entry j of the block named by Mid(i)

  predicate IsSlot(s: Slot) {
    match s
    case Direct(i) => i < DIRECT
    case IndLeaf(i) => i < PTRS
    case Mid(i) => i < PTRS
    case Leaf(i, j) => i < PTRS && j < PTRS
    case _ => true
  }

  predicate IsMeta(s: Slot) {
    s.Ind? || s.Dind? || s.Mid?
  }

  function BlockAt(d: Disk, z: nat): Block {
    if z < |d| then d[z] else ZeroBlock()
  }

  function Child(d: Disk, parent: nat, i: nat): Zone16
    requires i < PTRS
  {
    if parent == 0 then 0 else Ptr(BlockAt(d, parent), i)
  }

  /** The zone number a slot holds; 0 when it holds none. */
  function SlotZone(d: Disk, iz: Zones, s: Slot): Zone16
    requires IsSlot(s)
  {
    match s
    case Direct(i) => iz[i]
    case Ind => iz[7]
    case Dind => iz[8]
    case IndLeaf(i) => Child(d, iz[7], i)
    case Mid(i) => Child(d, iz[8], i)
    case Leaf(i, j) => Child(d, Child(d, iz[8], i), j)
  }

  /** The slot naming the block that `s` is stored in; `None` for i_zone itself. */
  function ParentOf(s: Slot): Option<Slot> {
    match s
    case IndLeaf(_) => Some(Ind)
    case Mid(_) => Some(Dind)
    case Leaf(i, _) => Some(Mid(i))
    case _ => None
  }

  function IndexOf(s: Slot): nat {
    match s
    case Direct(i) => i
    case Ind => 7
    case Dind => 8
    case IndLeaf(i) => i
    case Mid(i) => i
    case Leaf(_, j) => j
  }

  /** Storing `v` in slot `s`: either i_zone or one pointer block changes. */
  function StoreZones(iz: Zones, s: Slot, v: Zone16): Zones
    requires IsSlot(s)
  {
    if ParentOf(s).None? then iz[IndexOf(s) := v] else iz
  }

  function StoreDisk(d: Disk, iz: Zones, s: Slot, v: Zone16): Disk
    requires IsSlot(s)
  {
    if ParentOf(s).None? then d
    else
      var p := SlotZone(d, iz, ParentOf(s).value);
      if p < |d| then d[p := SetPtr(d[p], IndexOf(s), v)] else d
  }

  // ----- ownership ---------------------------------------------------------

  datatype Owner = Owner(ino: nat, slot: Slot)
  type Owners = map<nat, Owner>

  /** Every zone a slot of `ino` holds exists on the disk and is recorded as
      belonging to exactly that slot. As `o` is a map, no zone can be held by
      two slots, whether of one file or of two. */
  ghost predicate Owned(d: Disk, o: Owners, ino: nat, iz: Zones) {
    forall s | IsSlot(s) && SlotZone(d, iz, s) != 0 :: Holds(d, o, ino, iz, s)
  }

  ghost predicate Holds(d: Disk, o: Owners, ino: nat, iz: Zones, s: Slot)
    requires IsSlot(s)
  {
    var z := SlotZone(d, iz, s);
    z < |d| && z in o && o[z] == Owner(ino, s)
  }

  /** No slot hangs below `s`. */
  ghost predicate Childless(d: Disk, iz: Zones, s: Slot) {
    forall t | IsSlot(t) && ParentOf(t) == Some(s) :: SlotZone(d, iz, t) == 0
  }

  /** Storing a zone number changes the slot stored to and no other: this is
      what makes a pointer write safe, both when a zone is hooked in and when
      it is cut off. */
  lemma StoreEffect(d: Disk, o: Owners, ino: nat, iz: Zones, s: Slot, v: Zone16, t: Slot)
    requires IsSlot(s) && IsSlot(t)
    requires Owned(d, o, ino, iz)
    requires Childless(d, iz, s)
    requires ParentOf(s).Some? ==> SlotZone(d, iz, ParentOf(s).value) != 0
    requires v != 0 ==> v !in o && (IsMeta(s) ==> NoPtrs(BlockAt(d, v)))
    ensures SlotZone(StoreDisk(d, iz, s, v), StoreZones(iz, s, v), t)
         == if t == s then v else SlotZone(d, iz, t)
  {
    if ParentOf(s).None? {
      StoreRootEffect(d, o, ino, iz, s, v, t);
    } else {
      StoreChildEffect(d, o, ino, iz, s, v, t);
    }
  }

  lemma StoreRootEffect(d: Disk, o: Owners, ino: nat, iz: Zones, s: Slot, v: Zone16, t: Slot)
    requires IsSlot(s) && IsSlot(t) && ParentOf(s).None?
    requires Childless(d, iz, s)
    requires v != 0 && IsMeta(s) ==> NoPtrs(BlockAt(d, v))
    ensures SlotZone(d, StoreZones(iz, s, v), t) == if t == s then v else SlotZone(d, iz, t)
  {
    match t
    case Leaf(i, j) => if s == Dind { assert SlotZone(d, iz, Mid(i)) == 0; }
    case _ =>
  }

  /** A pointer write leaves every other block of the disk alone. */
  lemma StoreTouchesParent(d: Disk, iz: Zones, s: Slot, v: Zone16, p: nat, i: nat)
    requires IsSlot(s) && ParentOf(s).Some? && i < PTRS
    requires 0 < SlotZone(d, iz, ParentOf(s).value) < |d|
    ensures |StoreDisk(d, iz, s, v)| == |d|
    ensures Child(StoreDisk(d, iz, s, v), p, i)
         == if p == SlotZone(d, iz, ParentOf(s).value) && i == IndexOf(s) then v else Child(d, p, i)
  {
    if p == SlotZone(d, iz, ParentOf(s).value) {
      PtrOfSetPtr(d[p], IndexOf(s), v, i);
    }
  }

  lemma StoreChildEffect(d: Disk, o: Owners, ino: nat, iz: Zones, s: Slot, v: Zone16, t: Slot)
    requires IsSlot(s) && IsSlot(t) && ParentOf(s).Some?
    requires Owned(d, o, ino, iz)
    requires Childless(d, iz, s)
    requires SlotZone(d, iz, ParentOf(s).value) != 0
    requires v != 0 ==> v !in o && (IsMeta(s) ==> NoPtrs(BlockAt(d, v)))
    ensures SlotZone(StoreDisk(d, iz, s, v), iz, t) == if t == s then v else SlotZone(d, iz, t)
  {
    assert Holds(d, o, ino, iz, ParentOf(s).value);
    match t
    case Direct(_) =>
    case Ind =>
    case Dind =>
    case IndLeaf(i) =>
      if iz[7] != 0 { assert Holds(d, o, ino, iz, Ind); }
      StoreTouchesParent(d, iz, s, v, iz[7], i);
    case Mid(i) =>
      if iz[8] != 0 { assert Holds(d, o, ino, iz, Dind); }
      StoreTouchesParent(d, iz, s, v, iz[8], i);
    case Leaf(i, j) =>
      StoreChildEffectLeaf(d, o, ino, iz, s, v, i, j);
  }

  lemma StoreChildEffectLeaf(d: Disk, o: Owners, ino: nat, iz: Zones, s: Slot, v: Zone16, i: nat, j: nat)
    requires IsSlot(s) && ParentOf(s).Some? && i < PTRS && j < PTRS
    requires Owned(d, o, ino, iz)
    requires Childless(d, iz, s)
    requires SlotZone(d, iz, ParentOf(s).value) != 0
    requires v != 0 ==> v !in o && (IsMeta(s) ==> NoPtrs(BlockAt(d, v)))
    ensures SlotZone(StoreDisk(d, iz, s, v), iz, Leaf(i, j)) == if s == Leaf(i, j) then
              v else SlotZone(d, iz, Leaf(i, j))
  {
    assert Holds(d, o, ino, iz, ParentOf(s).value);
    if iz[8] != 0 {
      assert Holds(d, o, ino, iz, Dind);
      StoreTouchesParent(d, iz, s, v, iz[8], i);
      var m := SlotZone(d, iz, Mid(i));
      if s == Mid(i) {
        assert SlotZone(d, iz, Leaf(i, j)) == 0;
        StoreTouchesParent(d, iz, s, v, v, j);
      } else if m != 0 {
        assert Holds(d, o, ino, iz, Mid(i));
        StoreTouchesParent(d, iz, s, v, m, j);
      }
    }
  }

  // ----- what the owner map keeps ------------------------------------------

  lemma AttachOwned(d: Disk, o: Owners, ino: nat, iz: Zones, s: Slot, v: Zone16)
    requires IsSlot(s)
    requires Owned(d, o, ino, iz)
    requires SlotZone(d, iz, s) == 0 && Childless(d, iz, s)
    requires ParentOf(s).Some? ==> SlotZone(d, iz, ParentOf(s).value) != 0
    requires 0 < v < |d| && v !in o && (IsMeta(s) ==> NoPtrs(BlockAt(d, v)))
    ensures Owned(StoreDisk(d, iz, s, v), o[v := Owner(ino, s)], ino, StoreZones(iz, s, v))
  {
    var d', iz', o' := StoreDisk(d, iz, s, v), StoreZones(iz, s, v), o[v := Owner(ino, s)];
    forall t | IsSlot(t) && SlotZone(d', iz', t) != 0
      ensures Holds(d', o', ino, iz', t)
    {
      StoreEffect(d, o, ino, iz, s, v, t);
      if t != s { assert Holds(d, o, ino, iz, t); }
    }
  }

  lemma DetachOwned(d: Disk, o: Owners, ino: nat, iz: Zones, s: Slot)
    requires IsSlot(s)
    requires Owned(d, o, ino, iz)
    requires SlotZone(d, iz, s) != 0 && Childless(d, iz, s)
    requires ParentOf(s).Some? ==> SlotZone(d, iz, ParentOf(s).value) != 0
    ensures Owned(StoreDisk(d, iz, s, 0), o - {SlotZone(d, iz, s)}, ino, StoreZones(iz, s, 0))
  {
    var d', iz', o' := StoreDisk(d, iz, s, 0), StoreZones(iz, s, 0), o - {SlotZone(d, iz, s)};
    assert Holds(d, o, ino, iz, s);
    forall t | IsSlot(t) && SlotZone(d', iz', t) != 0
      ensures Holds(d', o', ino, iz', t)
    {
      StoreEffect(d, o, ino, iz, s, 0, t);
      assert Holds(d, o, ino, iz, t);
    }
  }

  /** A step taken for file `ino` keeps every block and every ownership record
      of the other files. */
  ghost predicate KeepsOthers(d: Disk, o: Owners, d': Disk, o': Owners, ino: nat) {
    && |d'| == |d|
    && forall z | z in o && o[z].ino != ino :: z in o' && o'[z] == o[z] && BlockAt(d', z) == BlockAt(d, z)
  }

  /** Such a step leaves another file's whole zone map as it was. */
  lemma OtherFileKept(d: Disk, o: Owners, d': Disk, o': Owners, ino: nat, g: nat, iz: Zones)
    requires KeepsOthers(d, o, d', o', ino) && g != ino
    requires Owned(d, o, g, iz)
    ensures Owned(d', o', g, iz)
    ensures forall s | IsSlot(s) :: SlotZone(d', iz, s) == SlotZone(d, iz, s)
    ensures forall s | IsSlot(s) && SlotZone(d, iz, s) != 0 ::
              BlockAt(d', SlotZone(d, iz, s)) == BlockAt(d, SlotZone(d, iz, s))
  {
    forall s | IsSlot(s)
      ensures SlotZone(d', iz, s) == SlotZone(d, iz, s)
    {
      if iz[7] != 0 { assert Holds(d, o, g, iz, Ind); }
      if iz[8] != 0 { assert Holds(d, o, g, iz, Dind); }
      if s.Leaf? && SlotZone(d, iz, Mid(s.i)) != 0 { assert Holds(d, o, g, iz, Mid(s.i)); }
    }
    forall s | IsSlot(s) && SlotZone(d, iz, s) != 0
      ensures BlockAt(d', SlotZone(d, iz, s)) == BlockAt(d, SlotZone(d, iz, s)) && Holds(d', o', g, iz, s)
    {
      assert Holds(d, o, g, iz, s);
    }
  }

  // ----- which leaves a slot serves ----------------------------------------

  /** The slot that holds the zone of the file's block `idx`. */
  function LeafSlot(idx: nat): Slot
    requires idx < MAX_LEAVES
    ensures IsSlot(LeafSlot(idx)) && !IsMeta(LeafSlot(idx))
  {
    if idx < DIRECT then Direct(idx)
    else if idx < DIRECT + PTRS then IndLeaf(idx - DIRECT)
    else Leaf((idx - DIRECT - PTRS) / PTRS, (idx - DIRECT - PTRS) % PTRS)
  }

  /** Slot `s` serves the file blocks Lo(s) .. Hi(s) - 1. */
  function Lo(s: Slot): nat {
    match s
    case Direct(i) => i
    case Ind => DIRECT
    case IndLeaf(i) => DIRECT + i
    case Dind => DIRECT + PTRS
    case Mid(i) => DIRECT + PTRS + PTRS * i
    case Leaf(i, j) => DIRECT + PTRS + PTRS * i + j
  }

  function Hi(s: Slot): nat {
    match s
    case Ind => DIRECT + PTRS
    case Dind => MAX_LEAVES
    case Mid(i) => DIRECT + PTRS + PTRS * (i + 1)
    case _ => Lo(s) + 1
  }

  predicate OnPath(s: Slot, idx: nat) {
    Lo(s) <= idx < Hi(s)
  }

  lemma PathOfLeaf(s: Slot, idx: nat)
    requires IsSlot(s) && idx < MAX_LEAVES
    ensures !IsMeta(s) ==> (OnPath(s, idx) <==> s == LeafSlot(idx))
    ensures ParentOf(LeafSlot(idx)).Some? ==> OnPath(ParentOf(LeafSlot(idx)).value, idx)
    ensures IsMeta(s) && OnPath(s, idx) ==>
              ParentOf(LeafSlot(idx)) == Some(s)
              || (s == Dind && LeafSlot(idx).Leaf?)
  {
  }

  function LeafZone(d: Disk, iz: Zones, idx: nat): Zone16
    requires idx < MAX_LEAVES
  {
    SlotZone(d, iz, LeafSlot(idx))
  }

  /** Blocks of the file's data stay in place with their contents. */
  ghost predicate KeepsData(d: Disk, iz: Zones, d': Disk, iz': Zones) {
    forall idx | 0 <= idx < MAX_LEAVES && LeafZone(d, iz, idx) != 0 ::
      && LeafZone(d', iz', idx) == LeafZone(d, iz, idx)
      && BlockAt(d', LeafZone(d, iz, idx)) == BlockAt(d, LeafZone(d, iz, idx))
  }

  // ----- the exact shape of a tree -----------------------------------------

  /** Some file block in [0, a) or [j, n) lies below `s`. */
  predicate Hits(s: Slot, a: nat, j: nat, n: nat) {
    Lo(s) < a || (Lo(s) < n && j < Hi(s) && j < n)
  }

  /** The tree serves exactly the file blocks [0, a) and [j, n): a data slot is
      filled iff its block is one of those, and a pointer block is present iff
      one of those lies below it. */
  ghost predicate Shape(d: Disk, iz: Zones, a: nat, j: nat, n: nat) {
    forall s | IsSlot(s) :: SlotZone(d, iz, s) != 0 <==> Hits(s, a, j, n)
  }

  /** The shape of a file of `n` blocks with no holes and nothing beyond. */
  ghost predicate ExactShape(d: Disk, iz: Zones, n: nat) {
    Shape(d, iz, n, n, n)
  }

  // ----- the two kinds of disk write the engine makes ----------------------

  /** Writing a block that is not one of the file's own pointer blocks leaves
      its zone map alone. */
  lemma BlockWriteKeepsTree(d: Disk, o: Owners, ino: nat, iz: Zones, z: nat, b: Block)
    requires Owned(d, o, ino, iz) && z < |d|
    requires z in o && o[z].ino == ino ==> !IsMeta(o[z].slot)
    ensures Owned(d[z := b], o, ino, iz)
    ensures forall t | IsSlot(t) :: SlotZone(d[z := b], iz, t) == SlotZone(d, iz, t)
  {
    forall t | IsSlot(t)
      ensures SlotZone(d[z := b], iz, t) == SlotZone(d, iz, t)
      ensures SlotZone(d, iz, t) != 0 ==> Holds(d[z := b], o, ino, iz, t)
    {
      if iz[7] != 0 { assert Holds(d, o, ino, iz, Ind); }
      if iz[8] != 0 { assert Holds(d, o, ino, iz, Dind); }
      if t.Leaf? && SlotZone(d, iz, Mid(t.i)) != 0 { assert Holds(d, o, ino, iz, Mid(t.i)); }
      if SlotZone(d, iz, t) != 0 { assert Holds(d, o, ino, iz, t); }
    }
  }

  /** The disk after a fresh zone `z` was hooked into slot `s`: a new pointer
      block is cleared first, then the pointer is stored. */
  function HookDisk(d: Disk, iz: Zones, s: Slot, z: Zone16): Disk
    requires IsSlot(s) && z < |d|
  {
    StoreDisk(if IsMeta(s) then d[z := ZeroBlock()] else d, iz, s, z)
  }

  lemma HookEffect(d: Disk, o: Owners, ino: nat, iz: Zones, s: Slot, z: Zone16)
    requires IsSlot(s) && Owned(d, o, ino, iz)
    requires SlotZone(d, iz, s) == 0 && Childless(d, iz, s)
    requires ParentOf(s).Some? ==> SlotZone(d, iz, ParentOf(s).value) != 0
    requires 0 < z < |d| && z !in o
    ensures Owned(HookDisk(d, iz, s, z), o[z := Owner(ino, s)], ino, StoreZones(iz, s, z))
    ensures forall t | IsSlot(t) ::
              SlotZone(HookDisk(d, iz, s, z), StoreZones(iz, s, z), t) == if t == s then z else SlotZone(d, iz, t)
    ensures KeepsOthers(d, o, HookDisk(d, iz, s, z), o[z := Owner(ino, s)], ino)
    ensures KeepsData(d, iz, HookDisk(d, iz, s, z), StoreZones(iz, s, z))
  {
    var d1 := if IsMeta(s) then d[z := ZeroBlock()] else d;
    if IsMeta(s) { BlockWriteKeepsTree(d, o, ino, iz, z, ZeroBlock()); }
    AttachOwned(d1, o, ino, iz, s, z);
    forall t | IsSlot(t)
      ensures SlotZone(HookDisk(d, iz, s, z), StoreZones(iz, s, z), t) == if t == s then z else SlotZone(d, iz, t)
    {
      StoreEffect(d1, o, ino, iz, s, z, t);
    }
    HookKeepsBlocks(d, o, ino, iz, s, z);
  }

  lemma HookKeepsBlocks(d: Disk, o: Owners, ino: nat, iz: Zones, s: Slot, z: Zone16)
    requires IsSlot(s) && Owned(d, o, ino, iz)
    requires ParentOf(s).Some? ==> SlotZone(d, iz, ParentOf(s).value) != 0
    requires 0 < z < |d| && z !in o
    requires forall t | IsSlot(t) ::
              SlotZone(HookDisk(d, iz, s, z), StoreZones(iz, s, z), t) == if t == s then z else SlotZone(d, iz, t)
    requires SlotZone(d, iz, s) == 0
    ensures KeepsOthers(d, o, HookDisk(d, iz, s, z), o[z := Owner(ino, s)], ino)
    ensures KeepsData(d, iz, HookDisk(d, iz, s, z), StoreZones(iz, s, z))
  {
    var d1 := if IsMeta(s) then d[z := ZeroBlock()] else d;
    var d2 := HookDisk(d, iz, s, z);
    if IsMeta(s) { BlockWriteKeepsTree(d, o, ino, iz, z, ZeroBlock()); }
    assert |d2| == |d|;
    forall y | y in o && (ParentOf(s).Some? ==> y != SlotZone(d, iz, ParentOf(s).value))
      ensures BlockAt(d2, y) == BlockAt(d, y)
    {
    }
    if ParentOf(s).Some? { assert Holds(d, o, ino, iz, ParentOf(s).value); }
    forall idx | 0 <= idx < MAX_LEAVES && LeafZone(d, iz, idx) != 0
      ensures LeafZone(d2, StoreZones(iz, s, z), idx) == LeafZone(d, iz, idx)
      ensures BlockAt(d2, LeafZone(d, iz, idx)) == BlockAt(d, LeafZone(d, iz, idx))
    {
      assert Holds(d, o, ino, iz, LeafSlot(idx));
    }
  }

  /** Filling the way to block `idx` of a tree serving [0, n), for idx <= n,
      gives the tree serving [0, max(n, idx + 1)). */
  lemma ExactGrows(d: Disk, iz: Zones, d': Disk, iz': Zones, n: nat, idx: nat)
    requires ExactShape(d, iz, n) && idx <= n
    requires forall s | IsSlot(s) ::
               SlotZone(d', iz', s) != 0 <==> SlotZone(d, iz, s) != 0 || OnPath(s, idx)
    ensures ExactShape(d', iz', if idx < n then n else n + 1)
  {
  }

  /** A step taken for `ino`, from (d, o, iz) to (d', o', iz'), that moves none
      of the zones the file holds and nothing of another file. */
  ghost predicate Kept(ino: nat, d: Disk, o: Owners, iz: Zones, d': Disk, o': Owners, iz': Zones) {
    && KeepsOthers(d, o, d', o', ino)
    && forall s | IsSlot(s) && SlotZone(d, iz, s) != 0 :: SlotZone(d', iz', s) == SlotZone(d, iz, s)
  }

  lemma KeptTrans(ino: nat, d: Disk, o: Owners, iz: Zones, d1: Disk, o1: Owners, iz1: Zones, d2: Disk, o2: Owners,
                  iz2: Zones)
    requires Kept(ino, d, o, iz, d1, o1, iz1) && Kept(ino, d1, o1, iz1, d2, o2, iz2)
    ensures Kept(ino, d, o, iz, d2, o2, iz2)
  {
    hide SlotZone;
  }

  lemma KeptSelf(ino: nat, d: Disk, o: Owners, iz: Zones)
    ensures Kept(ino, d, o, iz, d, o, iz) && KeepsOthers(d, o, d, o, ino) && KeepsData(d, iz, d, iz)
  {
  }

  // ----- cutting zones off --------------------------------------------------

  lemma ChildlessIffEmpty(d: Disk, iz: Zones, m: Slot)
    requires IsSlot(m) && IsMeta(m) && SlotZone(d, iz, m) != 0
    ensures NoPtrs(BlockAt(d, SlotZone(d, iz, m))) <==> Childless(d, iz, m)
  {
    hide Ptr, BlockAt;
    var b := BlockAt(d, SlotZone(d, iz, m));
    if Childless(d, iz, m) {
      forall i | 0 <= i < PTRS ensures Ptr(b, i) == 0 {
        var t := if m == Ind then IndLeaf(i) else if m == Dind then Mid(i) else Leaf(m.i, i);
        assert SlotZone(d, iz, t) == 0;
      }
    }
  }

  /** A pointer block has something below it exactly when it serves a block of
      [0, a) or [j, n), if that is so of its entries. */
  lemma NeededIffChild(d: Disk, iz: Zones, m: Slot, a: nat, j: nat, n: nat)
    requires IsSlot(m) && IsMeta(m) && n <= MAX_LEAVES && a <= MAX_LEAVES
    requires forall t | IsSlot(t) && ParentOf(t) == Some(m) :: SlotZone(d, iz, t) != 0 <==> Hits(t, a, j, n)
    ensures Childless(d, iz, m) <==> !Hits(m, a, j, n)
  {
    hide SlotZone;
    if Hits(m, a, j, n) {
      // the first served block below m, and the entry that leads to it
      var w := if Lo(m) < a || j < Lo(m) then Lo(m) else j;
      assert OnPath(m, w) && Hits(LeafSlot(w), a, j, n);
      var t := if m == Dind then Mid((w - DIRECT - PTRS) / PTRS) else LeafSlot(w);
      assert IsSlot(t) && ParentOf(t) == Some(m) && Hits(t, a, j, n);
      assert SlotZone(d, iz, t) != 0;
    }
  }

  /** Dropping block `j` from [0, a) + [j, n) affects only the way to it. */
  lemma HitsStep(s: Slot, a: nat, j: nat, n: nat)
    requires a <= j < n && IsSlot(s)
    ensures Hits(s, a, j, n) <==> Hits(s, a, j + 1, n) || OnPath(s, j)
    ensures !IsMeta(s) && OnPath(s, j) ==> !Hits(s, a, j + 1, n)
  {
  }

  lemma CutEffect(d: Disk, o: Owners, ino: nat, iz: Zones, s: Slot)
    requires IsSlot(s) && Owned(d, o, ino, iz)
    requires SlotZone(d, iz, s) != 0 && Childless(d, iz, s)
    ensures Owned(StoreDisk(d, iz, s, 0), o - {SlotZone(d, iz, s)}, ino, StoreZones(iz, s, 0))
    ensures forall t | IsSlot(t) ::
              SlotZone(StoreDisk(d, iz, s, 0), StoreZones(iz, s, 0), t) == if t == s then 0 else SlotZone(d, iz, t)
    ensures KeepsOthers(d, o, StoreDisk(d, iz, s, 0), o - {SlotZone(d, iz, s)}, ino)
    ensures KeepsData(StoreDisk(d, iz, s, 0), StoreZones(iz, s, 0), d, iz)
  {
    DetachOwned(d, o, ino, iz, s);
    var d', iz' := StoreDisk(d, iz, s, 0), StoreZones(iz, s, 0);
    forall t | IsSlot(t)
      ensures SlotZone(d', iz', t) == if t == s then 0 else SlotZone(d, iz, t)
    {
      StoreEffect(d, o, ino, iz, s, 0, t);
    }
    CutKeepsBlocks(d, o, ino, iz, s);
  }

  lemma CutKeepsBlocks(d: Disk, o: Owners, ino: nat, iz: Zones, s: Slot)
    requires IsSlot(s) && Owned(d, o, ino, iz) && SlotZone(d, iz, s) != 0
    requires forall t | IsSlot(t) ::
              SlotZone(StoreDisk(d, iz, s, 0), StoreZones(iz, s, 0), t) == if t == s then 0 else SlotZone(d, iz, t)
    ensures KeepsOthers(d, o, StoreDisk(d, iz, s, 0), o - {SlotZone(d, iz, s)}, ino)
    ensures KeepsData(StoreDisk(d, iz, s, 0), StoreZones(iz, s, 0), d, iz)
  {
    var d', iz' := StoreDisk(d, iz, s, 0), StoreZones(iz, s, 0);
    assert Holds(d, o, ino, iz, s);
    if ParentOf(s).Some? { assert Holds(d, o, ino, iz, ParentOf(s).value); }
    forall idx | 0 <= idx < MAX_LEAVES && LeafZone(d', iz', idx) != 0
      ensures LeafZone(d', iz', idx) == LeafZone(d, iz, idx)
      ensures BlockAt(d', LeafZone(d, iz, idx)) == BlockAt(d, LeafZone(d, iz, idx))
    {
      assert Holds(d, o, ino, iz, LeafSlot(idx));
    }
  }

  /** The file blocks [lo, hi) lost their zones; every other block keeps its
      zone and its bytes. */
  ghost predicate LeavesCut(d: Disk, iz: Zones, d': Disk, iz': Zones, lo: nat, hi: nat) {
    forall i | 0 <= i < MAX_LEAVES ::
      && LeafZone(d', iz', i) == (if lo <= i < hi then 0 else LeafZone(d, iz, i))
      && (LeafZone(d', iz', i) != 0 ==> BlockAt(d', LeafZone(d, iz, i)) == BlockAt(d, LeafZone(d, iz, i)))
  }

  lemma LeavesCutTrans(d: Disk, iz: Zones, d1: Disk, iz1: Zones, d2: Disk, iz2: Zones, lo: nat, mid: nat, hi: nat)
    requires lo <= mid <= hi
    requires LeavesCut(d, iz, d1, iz1, lo, mid) && LeavesCut(d1, iz1, d2, iz2, mid, hi)
    ensures LeavesCut(d, iz, d2, iz2, lo, hi)
  {
    hide SlotZone, LeafSlot, BlockAt, LeafZone;
  }

  /** Cutting off leaf `idx` alone. */
  lemma CutLeafIsLeavesCut(d: Disk, iz: Zones, d': Disk, iz': Zones, idx: nat)
    requires idx < MAX_LEAVES
    requires forall t | IsSlot(t) && !IsMeta(t) ::
              SlotZone(d', iz', t) == if t == LeafSlot(idx) then 0 else SlotZone(d, iz, t)
    requires KeepsData(d', iz', d, iz)
    ensures LeavesCut(d, iz, d', iz', idx, idx + 1)
  {
    hide SlotZone, BlockAt;
    forall i | 0 <= i < MAX_LEAVES && i != idx
      ensures LeafSlot(i) != LeafSlot(idx)
    {
      assert Lo(LeafSlot(i)) == i && Lo(LeafSlot(idx)) == idx;
    }
  }

  /** Pruning pointer blocks that serve no block leaves every data slot alone. */
  lemma PruneIsLeavesCut(d: Disk, iz: Zones, d': Disk, iz': Zones, lo: nat)
    requires forall t | IsSlot(t) && !IsMeta(t) :: SlotZone(d', iz', t) == SlotZone(d, iz, t)
    requires KeepsData(d', iz', d, iz)
    ensures LeavesCut(d, iz, d', iz', lo, lo)
  {
    hide SlotZone, BlockAt;
  }

  /** Between cutting off block `idx` and pruning: the pointer blocks on the
      way to it may still be there although nothing below needs them. */
  ghost predicate ShapeWithPath(d: Disk, iz: Zones, a: nat, idx: nat, n: nat) {
    forall t | IsSlot(t) :: SlotZone(d, iz, t) != 0 <==> Hits(t, a, idx + 1, n) || (OnPath(t, idx) && IsMeta(t))
  }

  lemma ShapeAfterLeafCut(d: Disk, iz: Zones, d': Disk, iz': Zones, a: nat, idx: nat, n: nat)
    requires Shape(d, iz, a, idx, n) && a <= idx < n <= MAX_LEAVES
    requires forall t | IsSlot(t) :: SlotZone(d', iz', t) == if t == LeafSlot(idx) then 0 else SlotZone(d, iz, t)
    ensures ShapeWithPath(d', iz', a, idx, n)
  {
    hide SlotZone, Hits, OnPath;
    forall t | IsSlot(t)
      ensures SlotZone(d', iz', t) != 0 <==> Hits(t, a, idx + 1, n) || (OnPath(t, idx) && IsMeta(t))
    {
      HitsStep(t, a, idx, n);
      PathOfLeaf(t, idx);
    }
  }

  lemma KeepsOthersTrans(d: Disk, o: Owners, d1: Disk, o1: Owners, d2: Disk, o2: Owners, ino: nat)
    requires KeepsOthers(d, o, d1, o1, ino) && KeepsOthers(d1, o1, d2, o2, ino)
    ensures KeepsOthers(d, o, d2, o2, ino)
  {
    hide BlockAt;
  }

  lemma HitsBelowDind(i: nat, a: nat, j: nat, n: nat)
    requires i < PTRS && Hits(Mid(i), a, j, n)
    ensures Hits(Dind, a, j, n)
  {
  }

  lemma NothingToRelease(ino: nat, d: Disk, o: Owners, iz: Zones, idx: nat, a: nat, n: nat)
    requires idx < MAX_LEAVES && LeafZone(d, iz, idx) == 0
    ensures KeepsOthers(d, o, d, o, ino) && LeavesCut(d, iz, d, iz, idx, idx + 1)
    ensures idx < n ==> !Shape(d, iz, a, idx, n)
  {
    assert idx < n ==> Hits(LeafSlot(idx), a, idx, n);
  }

  /** [0, n) is [0, a) + [a, n), and [0, a) is [0, a) + [n, n). */
  lemma ShapeSplit(d: Disk, iz: Zones, n: nat, a: nat)
    requires a <= n
    ensures ExactShape(d, iz, n) <==> Shape(d, iz, a, a, n)
  {
    hide SlotZone;
    assert forall s | IsSlot(s) :: Hits(s, n, n, n) <==> Hits(s, a, a, n);
  }

  lemma ShapeDone(d: Disk, iz: Zones, a: nat, n: nat)
    ensures Shape(d, iz, a, n, n) <==> ExactShape(d, iz, a)
  {
    hide SlotZone;
    assert forall s | IsSlot(s) :: Hits(s, a, n, n) <==> Hits(s, a, a, a);
  }

  // ----- freeing a whole tree ----------------------------------------------

  /** The zones a tree holds. */
  ghost function TreeZones(d: Disk, iz: Zones): set<nat> {
    set z: nat | z < 65536 && InTree(d, iz, z)
  }

  ghost predicate InTree(d: Disk, iz: Zones, z: nat) {
    z != 0 && exists s :: IsSlot(s) && SlotZone(d, iz, s) == z
  }

  /** The order in which `minix_inode_free_all_zones` visits the slots: the
      entries of a pointer block before the block itself. */
  function Rank(s: Slot): nat {
    match s
    case Direct(i) => i
    case IndLeaf(i) => DIRECT + i
    case Ind => DIRECT + PTRS
    case Leaf(i, j) => DIRECT + PTRS + 1 + (PTRS + 1) * i + j
    case Mid(i) => DIRECT + PTRS + 1 + (PTRS + 1) * i + PTRS
    case Dind => DIRECT + PTRS + 1 + (PTRS + 1) * PTRS
  }

  const RANKS := DIRECT + PTRS + 1 + (PTRS + 1) * PTRS + 1

  /** The owner map once every slot of rank below `r` was freed. */
  ghost function OwnersFrom(d: Disk, o: Owners, ino: nat, iz: Zones, r: nat): Owners {
    map z | z in o && !Gone(d, o, ino, iz, r, z) :: o[z]
  }

  ghost predicate Gone(d: Disk, o: Owners, ino: nat, iz: Zones, r: nat, z: nat)
    requires z in o
  {
    && o[z].ino == ino && IsSlot(o[z].slot) && Rank(o[z].slot) < r
    && SlotZone(d, iz, o[z].slot) == z
  }

  lemma RankInjective(s: Slot, t: Slot)
    requires IsSlot(s) && IsSlot(t) && Rank(s) == Rank(t)
    ensures s == t
  {
  }

  lemma OwnersStep(d: Disk, o: Owners, ino: nat, iz: Zones, s: Slot)
    requires IsSlot(s) && Owned(d, o, ino, iz) && 0 !in o
    ensures SlotZone(d, iz, s) == 0 ==>
              OwnersFrom(d, o, ino, iz, Rank(s) + 1) == OwnersFrom(d, o, ino, iz, Rank(s))
    ensures SlotZone(d, iz, s) != 0 ==>
              Holds(d, o, ino, iz, s)
              && OwnersFrom(d, o, ino, iz, Rank(s) + 1) == OwnersFrom(d, o, ino, iz, Rank(s)) - {SlotZone(d, iz, s)}
  {
    hide SlotZone, Rank;
    var r := Rank(s);
    forall z | z in o
      ensures Gone(d, o, ino, iz, r + 1, z) <==>
              Gone(d, o, ino, iz, r, z) || (SlotZone(d, iz, s) == z && o[z] == Owner(ino, s))
    {
      if IsSlot(o[z].slot) && Rank(o[z].slot) == r { RankInjective(o[z].slot, s); }
    }
    if SlotZone(d, iz, s) != 0 { assert Holds(d, o, ino, iz, s); }
  }

  /** Ranks whose slots are all empty need no visit. */
  lemma OwnersSkip(d: Disk, o: Owners, ino: nat, iz: Zones, r: nat, r': nat)
    requires r <= r'
    requires 0 !in o
    requires forall s | IsSlot(s) && r <= Rank(s) < r' :: SlotZone(d, iz, s) == 0
    ensures OwnersFrom(d, o, ino, iz, r) == OwnersFrom(d, o, ino, iz, r')
  {
    hide SlotZone, Rank;
    forall z | z in o
      ensures Gone(d, o, ino, iz, r, z) <==> Gone(d, o, ino, iz, r', z)
    {
    }
  }

  /** After the last rank exactly the tree's zones are gone. */
  lemma OwnersEnd(d: Disk, o: Owners, ino: nat, iz: Zones)
    requires Owned(d, o, ino, iz) && 0 !in o
    ensures OwnersFrom(d, o, ino, iz, RANKS) == o - TreeZones(d, iz)
    ensures TreeZones(d, iz) <= o.Keys
    ensures OwnersFrom(d, o, ino, iz, 0) == o
  {
    hide SlotZone;
    forall z | z in o
      ensures Gone(d, o, ino, iz, RANKS, z) <==> z in TreeZones(d, iz)
    {
      if Gone(d, o, ino, iz, RANKS, z) {
        assert IsSlot(o[z].slot) && SlotZone(d, iz, o[z].slot) == z;
      }
      if z in TreeZones(d, iz) {
        var s :| IsSlot(s) && SlotZone(d, iz, s) == z;
        assert Holds(d, o, ino, iz, s);
      }
    }
    forall z | z in TreeZones(d, iz) ensures z in o {
      var s :| IsSlot(s) && SlotZone(d, iz, s) == z;
      assert Holds(d, o, ino, iz, s);
    }
  }

  lemma OwnersHere(d: Disk, o: Owners, ino: nat, iz: Zones, s: Slot)
    requires IsSlot(s) && Owned(d, o, ino, iz) && SlotZone(d, iz, s) != 0
    ensures SlotZone(d, iz, s) in OwnersFrom(d, o, ino, iz, Rank(s))
  {
    assert Holds(d, o, ino, iz, s);
  }

  lemma MetaOnDisk(d: Disk, o: Owners, ino: nat, iz: Zones, m: Slot)
    requires IsSlot(m) && Owned(d, o, ino, iz)
    ensures SlotZone(d, iz, m) != 0 ==> SlotZone(d, iz, m) < |d|
  {
    if SlotZone(d, iz, m) != 0 { assert Holds(d, o, ino, iz, m); }
  }

  lemma IndRank(d: Disk, iz: Zones)
    ensures SlotZone(d, iz, Ind) == iz[7] && Rank(Ind) - PTRS == DIRECT && Rank(Ind) + 1 == DIRECT + PTRS + 1
  {
  }

  const NO_ZONES: Zones := [0, 0, 0, 0, 0, 0, 0, 0, 0]

  lemma NoZonesShape(d: Disk, o: Owners, ino: nat)
    ensures Owned(d, o, ino, NO_ZONES) && ExactShape(d, NO_ZONES, 0)
  {
  }

  lemma TreeZonesOwned(d: Disk, o: Owners, ino: nat, iz: Zones)
    requires Owned(d, o, ino, iz)
    ensures forall z | z in TreeZones(d, iz) :: z in o && o[z].ino == ino
  {
    forall z | z in TreeZones(d, iz) ensures z in o && o[z].ino == ino {
      var s :| IsSlot(s) && SlotZone(d, iz, s) == z;
      assert Holds(d, o, ino, iz, s);
    }
  }

  lemma TreeZonesStored(d: Disk, iz: Zones, d': Disk, iz': Zones, s: Slot, z: Zone16, z': Zone16)
    requires IsSlot(s) && SlotZone(d, iz, s) == z
    requires forall t | IsSlot(t) :: SlotZone(d', iz', t) == if t == s then z' else SlotZone(d, iz, t)
    ensures z == 0 && z' != 0 ==> TreeZones(d', iz') == TreeZones(d, iz) + {z'}
    ensures z' == 0 ==> TreeZones(d, iz) <= TreeZones(d', iz') + {z} && TreeZones(d', iz') <= TreeZones(d, iz)
  {
    hide SlotZone;
    forall y: nat | y < 65536
      ensures InTree(d, iz, y) ==> y == z || InTree(d', iz', y)
      ensures InTree(d', iz', y) ==> y == z' || InTree(d, iz, y)
    {
      if InTree(d, iz, y) { var t :| IsSlot(t) && SlotZone(d, iz, t) == y; assert t == s || SlotZone(d', iz', t) == y; }
      if InTree(d', iz', y) { var t :| IsSlot(t) && SlotZone(d', iz', t) == y;
           assert t == s || SlotZone(d, iz, t) == y; }
    }
    assert z' != 0 ==> InTree(d', iz', z') by { assert SlotZone(d', iz', s) == z'; }
  }

  lemma CutTreeZones(d: Disk, o: Owners, ino: nat, iz: Zones, s: Slot)
    requires IsSlot(s) && Owned(d, o, ino, iz) && SlotZone(d, iz, s) != 0
    requires forall t | IsSlot(t) ::
              SlotZone(StoreDisk(d, iz, s, 0), StoreZones(iz, s, 0), t) == if t == s then 0 else SlotZone(d, iz, t)
    ensures TreeZones(d, iz) == TreeZones(StoreDisk(d, iz, s, 0), StoreZones(iz, s, 0)) + {SlotZone(d, iz, s)}
    ensures SlotZone(d, iz, s) !in TreeZones(StoreDisk(d, iz, s, 0), StoreZones(iz, s, 0))
  {
    hide SlotZone, StoreDisk, StoreZones;
    var z, d', iz' := SlotZone(d, iz, s), StoreDisk(d, iz, s, 0), StoreZones(iz, s, 0);
    TreeZonesStored(d, iz, d', iz', s, z, 0);
    assert InTree(d, iz, z);
    assert Holds(d, o, ino, iz, s);
    forall t | IsSlot(t) && t != s ensures SlotZone(d, iz, t) != z {
      if SlotZone(d, iz, t) != 0 { assert Holds(d, o, ino, iz, t); }
    }
  }

  lemma TreeZonesSame(d: Disk, iz: Zones, d': Disk)
    requires forall t | IsSlot(t) :: SlotZone(d', iz, t) == SlotZone(d, iz, t)
    ensures TreeZones(d', iz) == TreeZones(d, iz)
  {
    hide SlotZone;
    forall y: nat ensures InTree(d, iz, y) <==> InTree(d', iz, y) {
      if InTree(d, iz, y) { var t :| IsSlot(t) && SlotZone(d, iz, t) == y; assert SlotZone(d', iz, t) == y; }
      if InTree(d', iz, y) { var t :| IsSlot(t) && SlotZone(d', iz, t) == y; assert SlotZone(d, iz, t) == y; }
    }
  }
}

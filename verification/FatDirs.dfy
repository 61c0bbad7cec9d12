/** A FAT16 directory: an array of 32-byte slots, searched in order up to the
    first one never used (fs/fat16_disk.c:694-756, 1334-1448). */
module FatDirs {
  import opened Bytes
  import opened Outcomes
  import opened FatNames

  /** A slot's name and attributes; its cluster and size are the volume's business. */
  datatype DirSlot = Slot(name: Name11, attr: Byte)

  type Index = map<seq<Byte>, nat>

  predicate IsLive(s: DirSlot) {
    Live(s.name, s.attr)
  }

  predicate IsFree(s: DirSlot) {
    s.name[0] == 0 || s.name[0] == GONE
  }

  /** What a lookup compares with; meant for readable names. */
  function KeyAt(s: DirSlot): seq<Byte> {
    match Format(s.name) case Some(f) => Key(f) case None => []
  }

  predicate Readable(s: DirSlot) {
    Format(s.name).Some?
  }

  ghost predicate SlotOk(s: DirSlot, i: nat, at: Index) {
    IsLive(s) ==> Readable(s) && KeyAt(s) in at && at[KeyAt(s)] == i
  }

  /** All that is live lies before the first slot never used, and `at` gives, for
      each name, the one live slot that has it. */
  ghost predicate DirOk(slots: seq<DirSlot>, at: Index) {
    && (forall i, j | 0 <= i < j < |slots| :: slots[i].name[0] == 0 ==> slots[j].name[0] == 0)
    && (forall i | 0 <= i < |slots| :: SlotOk(slots[i], i, at))
    && (forall k | k in at :: at[k] < |slots| && IsLive(slots[at[k]]) && KeyAt(slots[at[k]]) == k)
  }

  ghost predicate Indexable(slots: seq<DirSlot>) {
    exists at :: DirOk(slots, at)
  }

  lemma MatchIsKey(want: Text, s: DirSlot, junk: seq<Byte>)
    requires Readable(s)
    ensures Match(want, s.name, s.attr, junk) <==> IsLive(s) && KeyAt(s) == Key(want)
  {
  }

  /** Writing one slot. */
  lemma SlotWritten(slots: seq<DirSlot>, at: Index, i: nat, s: DirSlot, at': Index)
    requires DirOk(slots, at) && i < |slots|
    requires s.name[0] == 0 ==> slots[i].name[0] == 0
    requires forall j | 0 <= j < i :: slots[j].name[0] != 0
    requires IsLive(s) ==> Readable(s)
    requires forall k :: k in at' <==> (k in at && at[k] != i) || (IsLive(s) && k == KeyAt(s))
    requires forall k | k in at' :: at'[k] == if IsLive(s) && k == KeyAt(s) then i else at[k]
    requires IsLive(s) && KeyAt(s) in at ==> at[KeyAt(s)] == i
    ensures DirOk(slots[i := s], at')
  {
    hide KeyAt, Readable, IsLive;
    var slots' := slots[i := s];
    forall j | 0 <= j < |slots'| ensures SlotOk(slots'[j], j, at') {
      assert SlotOk(slots[j], j, at);
    }
    forall j, k | 0 <= j < k < |slots'| ensures slots'[j].name[0] == 0 ==> slots'[k].name[0] == 0 {
    }
  }

  /** Two live slots of one name cannot be indexed. */
  lemma TwiceIsNotOk(slots: seq<DirSlot>, at: Index, i: nat, j: nat)
    requires i < |slots| && j < |slots| && i != j && IsLive(slots[i]) && IsLive(slots[j]) &&
              KeyAt(slots[i]) == KeyAt(slots[j])
    ensures !DirOk(slots, at)
  {
    assert SlotOk(slots[i], i, at) && SlotOk(slots[j], j, at) ==> false;
  }

  /** The stored form of `leaf` takes no name that is in use. */
  ghost predicate Fresh(at: Index, leaf: Text) {
    Encode(leaf).Some? ==> leaf[0] == GONE || KeyAt(Slot(Encode(leaf).value, 0)) !in at
  }

  /** `fat16_find_in_dir`: the slot that has the name, if any has. */
  method FindIn(slots: seq<DirSlot>, ghost at: Index, want: Text, junk: seq<Byte>) returns (err: Errno, i: nat)
    requires DirOk(slots, at)
    ensures err == OK <==> Key(want) in at
    ensures err == OK ==> i == at[Key(want)] && i < |slots|
    ensures err == OK || err == ENOENT
  {
    hide KeyAt, Readable, IsLive, Match, Key;
    i := 0;
    while i < |slots|
      invariant i <= |slots|
      invariant forall j | 0 <= j < i :: slots[j].name[0] != 0
      invariant Key(want) in at ==> at[Key(want)] >= i
    {
      var s := slots[i];
      if s.name[0] == 0 {
        LiveBefore(slots, at, i, Key(want));
        break;
      }
      UnreadableNoMatch(slots, at, i, want, junk);
      if Match(want, s.name, s.attr, junk) { return OK, i; }
      i := i + 1;
    }
    return ENOENT, 0;
  }

  /** `fat16_find_free_slot`: the first slot deleted or never used. */
  method FirstFree(slots: seq<DirSlot>) returns (err: Errno, i: nat)
    ensures err == OK || err == ENOSPC
    ensures err == OK ==> i < |slots| && IsFree(slots[i]) && forall j | 0 <= j < i :: !IsFree(slots[j])
    ensures err == ENOSPC <==> forall j | 0 <= j < |slots| :: !IsFree(slots[j])
  {
    i := 0;
    while i < |slots|
      invariant i <= |slots| && forall j | 0 <= j < i :: !IsFree(slots[j])
    {
      if IsFree(slots[i]) { return OK, i; }
      i := i + 1;
    }
    return ENOSPC, 0;
  }

  /** The answer to a request for a new name. */
  ghost function RoomAnswer(slots: seq<DirSlot>, at: Index, name: Text): Errno {
    if Key(name) in at then EEXIST
    else if forall j | 0 <= j < |slots| :: !IsFree(slots[j]) then ENOSPC
    else if Encode(CutText(name)).None? then EINVAL
    else OK
  }

  class Directory {
    var slots: seq<DirSlot>
    ghost var at: Index

    ghost predicate Valid()
      reads this
    {
      DirOk(slots, at)
    }

    /** A well-formed directory as found on disk. */
    constructor (slots: seq<DirSlot>, ghost at: Index)
      requires DirOk(slots, at)
      ensures Valid() && this.slots == slots && this.at == at
    {
      this.slots, this.at := slots, at;
    }

    /** The directory side of create and mkdir. What is stored is the name cut to
        the 11 characters of the leaf buffer. */
    method Create(name: Text, attr: Byte, junk: seq<Byte>) returns (err: Errno, ghost i: nat)
      requires Valid() && attr != LFN
      modifies this
      ensures err == RoomAnswer(old(slots), old(at), name)
      ensures err != OK ==> slots == old(slots) && at == old(at)
      ensures err == OK ==>
                Encode(CutText(name)).Some? && i < |old(slots)| && IsFree(old(slots)[i]) &&
                slots == old(slots)[i := Slot(Encode(CutText(name)).value, attr)]
      ensures err == OK && Plain(CutText(name)) ==> Valid() && at == old(at)[Key(name) := i]
      ensures err == OK ==> (Fresh(old(at), CutText(name)) <==> Indexable(slots))
      ensures err == OK ==> (Match(name, Encode(CutText(name)).value, attr, junk) <==> Plain(CutText(name)))
    {
      hide KeyAt, Readable, IsLive, Match, Key, Encode, Plain, Format, DirOk, Live;
      var e, f := FindIn(slots, at, name, junk);
      i := 0;
      if e == OK { return EEXIST, i; }
      var leaf := CutText(name);
      var s;
      e, s := FirstFree(slots);
      if e != OK { return ENOSPC, i; }
      var code := Encode(leaf);
      if code.None? { return EINVAL, i; }
      i := s;
      var slot := Slot(code.value, attr);
      Added(slots, at, s, leaf, slot);
      KeyOfCut(name);
      CutMatch(name, attr, junk);
      slots := slots[s := slot];
      if Fresh(at, leaf) { at := IndexWith(at, leaf, s); }
      return OK, i;
    }

    /** The directory side of unlink and rmdir: the first byte of the name is
        overwritten. */
    method Remove(name: Text, junk: seq<Byte>) returns (err: Errno)
      requires Valid()
      modifies this
      ensures err == OK <==> Key(name) in old(at)
      ensures err == OK || (err == ENOENT && slots == old(slots) && at == old(at))
      ensures Valid() && at == old(at) - {Key(name)}
      ensures err == OK ==>
                old(at)[Key(name)] < |old(slots)| &&
                slots == old(slots)[old(at)[Key(name)] := old(slots)[old(at)[Key(name)]].(name := old(slots)[old(at)[Key(name)]].name[0 := GONE])]
    {
      hide KeyAt, Readable, Match, Key, Format, DirOk;
      var i;
      err, i := FindIn(slots, at, name, junk);
      if err != OK {
        assert at - {Key(name)} == at;
        return;
      }
      Removed(slots, at, Key(name));
      slots := slots[i := slots[i].(name := slots[i].name[0 := GONE])];
      at := at - {Key(name)};
    }
  }

  lemma LiveBefore(slots: seq<DirSlot>, at: Index, i: nat, k: seq<Byte>)
    requires DirOk(slots, at) && i < |slots| && slots[i].name[0] == 0
    ensures k in at ==> at[k] < i
  {
    hide KeyAt;
  }

  lemma UnreadableNoMatch(slots: seq<DirSlot>, at: Index, i: nat, want: Text, junk: seq<Byte>)
    requires DirOk(slots, at) && i < |slots|
    ensures Match(want, slots[i].name, slots[i].attr, junk) <==> Key(want) in at && at[Key(want)] == i
  {
    hide KeyAt, Format, Key;
    assert SlotOk(slots[i], i, at);
    if IsLive(slots[i]) { MatchIsKey(want, slots[i], junk); }
  }

  function CutText(name: Text): (t: Text)
    ensures t == Cut(name) && |t| < MAX_NAME
  {
    Cut(name)
  }

  lemma KeyOfCut(name: Text)
    ensures Key(CutText(name)) == Key(name)
  {
  }

  lemma CutMatch(name: Text, attr: Byte, junk: seq<Byte>)
    requires Encode(CutText(name)).Some? && attr != LFN
    ensures Match(name, Encode(CutText(name)).value, attr, junk) <==> Plain(CutText(name))
  {
    hide Encode, Plain, Format, Live, Key;
    FindsItselfIffPlain(CutText(name), attr, junk);
    KeyOfCut(name);
  }

  ghost function IndexWith(at: Index, leaf: Text, i: nat): Index {
    if Encode(leaf).None? || leaf[0] == GONE then at
    else at[KeyAt(Slot(Encode(leaf).value, 0)) := i]
  }

  /** What a new slot does to the index. */
  lemma Added(slots: seq<DirSlot>, at: Index, i: nat, leaf: Text, s: DirSlot)
    requires DirOk(slots, at) && i < |slots| && IsFree(slots[i]) && forall j | 0 <= j < i :: !IsFree(slots[j])
    requires |leaf| < MAX_NAME && Encode(leaf).Some? && s.name == Encode(leaf).value && s.attr != LFN
    ensures Fresh(at, leaf) ==> DirOk(slots[i := s], IndexWith(at, leaf, i))
    ensures Fresh(at, leaf) <==> Indexable(slots[i := s])
    ensures Plain(leaf) && Key(leaf) !in at ==> Fresh(at, leaf) && IndexWith(at, leaf, i) == at[Key(leaf) := i]
  {
    hide DirOk, Plain, Format, Encode, Key;
    var slots', k := slots[i := s], KeyAt(s);
    EncodedLive(leaf, s.attr);
    FormatEncoded(leaf);
    NotZero(leaf);
    FreeNotIndexed(slots, at, i);
    assert KeyAt(Slot(s.name, 0)) == k;
    if Fresh(at, leaf) {
      SlotWritten(slots, at, i, s, IndexWith(at, leaf, i));
    } else {
      IndexedLive(slots, at, k);
      forall x ensures !DirOk(slots', x) { TwiceIsNotOk(slots', x, i, at[k]); }
    }
    if Plain(leaf) {
      FormatPlain(leaf);
      KeyTwice(leaf);
      PlainFirst(leaf);
    }
  }

  lemma KeyTwice(leaf: Text)
    requires |leaf| < MAX_NAME
    ensures Key(Upper(leaf)) == Key(leaf)
  {
    UpperTwice(leaf);
  }

  lemma NotZero(leaf: Text)
    requires Encode(leaf).Some?
    ensures leaf != [] && Encode(leaf).value[0] != 0
  {
    assert Encode(leaf).value[0] == Upper(BaseOf(leaf))[0] == UpperByte(leaf[0]);
  }

  lemma FreeNotIndexed(slots: seq<DirSlot>, at: Index, i: nat)
    requires DirOk(slots, at) && i < |slots| && IsFree(slots[i])
    ensures forall k | k in at :: at[k] != i
  {
    hide KeyAt;
  }

  lemma IndexedLive(slots: seq<DirSlot>, at: Index, k: seq<Byte>)
    requires DirOk(slots, at) && k in at
    ensures at[k] < |slots| && IsLive(slots[at[k]]) && KeyAt(slots[at[k]]) == k
  {
  }

  lemma Removed(slots: seq<DirSlot>, at: Index, k: seq<Byte>)
    requires DirOk(slots, at) && k in at
    ensures at[k] < |slots| && DirOk(slots[at[k] := slots[at[k]].(name := slots[at[k]].name[0 := GONE])], at - {k})
  {
    hide KeyAt, Readable;
    var i := at[k];
    var s := slots[i].(name := slots[i].name[0 := GONE]);
    forall j | 0 <= j < i ensures slots[j].name[0] != 0 { }
    forall q | q in at && at[q] == i ensures q == k { }
    SlotWritten(slots, at, i, s, at - {k});
  }

  // ----- whole runs -----------------------------------------------------------------------

  datatype DirOp =
    | Make(name: Text, attr: Byte)
    | Delete(name: Text)

  /** The op stores no name that cannot be found again. */
  predicate Storable(op: DirOp) {
    op.Make? ==> op.attr != LFN && (Encode(CutText(op.name)).Some? ==> Plain(CutText(op.name)))
  }

  /** What there is to see of a directory: its names and how many slots are free. */
  datatype Listing = Listing(keys: set<seq<Byte>>, free: nat)

  ghost function Holes(slots: seq<DirSlot>): set<nat> {
    set i: nat | i < |slots| && IsFree(slots[i])
  }

  ghost function ListingOf(d: Directory): Listing
    reads d
  {
    Listing(d.at.Keys, |Holes(d.slots)|)
  }

  ghost function Answer(l: Listing, op: DirOp): Errno {
    if op.Delete? then if Key(op.name) in l.keys then OK else ENOENT
    else if Key(op.name) in l.keys then EEXIST
    else if l.free == 0 then ENOSPC
    else if Encode(CutText(op.name)).None? then EINVAL
    else OK
  }

  ghost function AfterOp(l: Listing, op: DirOp): Listing {
    if Answer(l, op) != OK then l
    else if op.Delete? then Listing(l.keys - {Key(op.name)}, l.free + 1)
    else Listing(l.keys + {Key(op.name)}, l.free - 1)
  }

  ghost function AfterAll(l: Listing, ops: seq<DirOp>): Listing {
    if ops == [] then l else AfterOp(AfterAll(l, ops[..|ops| - 1]), ops[|ops| - 1])
  }

  /** There is no room exactly if the count of free slots is zero. */
  lemma RoomIffHoles(slots: seq<DirSlot>, at: Index, name: Text, attr: Byte)
    ensures RoomAnswer(slots, at, name) == Answer(Listing(at.Keys, |Holes(slots)|), Make(name, attr))
  {
    hide Key, Encode;
    if j: nat :| j < |slots| && IsFree(slots[j]) {
      assert j in Holes(slots);
    } else {
      assert Holes(slots) == {};
    }
  }

  /** Writing a free slot takes it, and deleting a live one gives it. */
  lemma HolesWritten(slots: seq<DirSlot>, i: nat, s: DirSlot)
    requires i < |slots| && IsFree(slots[i]) != IsFree(s)
    ensures |Holes(slots[i := s])| == |Holes(slots)| + if IsFree(s) then 1 else -1
  {
    var a, b := Holes(slots), Holes(slots[i := s]);
    if IsFree(s) {
      assert b == a + {i};
    } else {
      assert a == b + {i};
    }
  }

  /** A name that can be found again does not look deleted. */
  lemma StoredIsLive(leaf: Text, attr: Byte)
    requires |leaf| < MAX_NAME && Encode(leaf).Some? && Plain(leaf)
    ensures !IsFree(Slot(Encode(leaf).value, attr))
  {
    hide Encode, Plain;
    NotZero(leaf);
    EncodedLive(leaf, 0);
    PlainFirst(leaf);
  }

  lemma LiveIsTaken(slots: seq<DirSlot>, at: Index, k: seq<Byte>)
    requires DirOk(slots, at) && k in at
    ensures at[k] < |slots| && !IsFree(slots[at[k]])
    ensures IsFree(slots[at[k]].(name := slots[at[k]].name[0 := GONE]))
  {
    hide KeyAt;
  }

  method Step(d: Directory, op: DirOp, junk: seq<Byte>) returns (err: Errno)
    requires d.Valid() && Storable(op)
    modifies d
    ensures d.Valid() && err == Answer(old(ListingOf(d)), op) && ListingOf(d) == AfterOp(old(ListingOf(d)), op)
  {
    hide DirOk, Plain, Encode, Key, Match, Fresh, Indexable, IsFree, RoomAnswer, Holes;
    ghost var slots, at := d.slots, d.at;
    match op
    case Make(name, attr) =>
      RoomIffHoles(slots, at, name, attr);
      ghost var i;
      err, i := d.Create(name, attr, junk);
      if err == OK {
        StoredIsLive(CutText(name), attr);
        HolesWritten(slots, i, d.slots[i]);
      }
    case Delete(name) =>
      err := d.Remove(name, junk);
      if err == OK {
        LiveIsTaken(slots, at, Key(name));
        HolesWritten(slots, at[Key(name)], d.slots[at[Key(name)]]);
      }
      assert d.at.Keys == at.Keys - {Key(name)};
  }

  /** Over any run, every answer and the final listing are those of the reference: a
      name is there exactly when it was created and not deleted since, and a
      create finds no room exactly when every slot is taken. */
  method Run(d: Directory, ops: seq<DirOp>, junk: seq<Byte>) returns (errs: seq<Errno>)
    requires d.Valid() && forall i | 0 <= i < |ops| :: Storable(ops[i])
    modifies d
    ensures d.Valid() && |errs| == |ops|
    ensures ListingOf(d) == AfterAll(old(ListingOf(d)), ops)
    ensures forall i | 0 <= i < |ops| :: errs[i] == Answer(AfterAll(old(ListingOf(d)), ops[..i]), ops[i])
  {
    hide DirOk, Storable, Answer, AfterOp;
    ghost var l := ListingOf(d);
    errs := [];
    for i := 0 to |ops|
      invariant d.Valid() && |errs| == i && ListingOf(d) == AfterAll(l, ops[..i])
      invariant forall k | 0 <= k < i :: errs[k] == Answer(AfterAll(l, ops[..k]), ops[k])
    {
      var err := Step(d, ops[i], junk);
      assert ops[..i + 1][..i] == ops[..i];
      errs := errs + [err];
    }
    assert ops[..|ops|] == ops;
  }

  /** Without that care names collide: "A" is there, and "A " is stored as the
      same name. */
  lemma SpaceCollides()
    ensures Encode([0x41, SPACE]).Some? && !Plain([0x41, SPACE])
    ensures !Fresh(map[[0x41] := 0], [0x41, SPACE])
  {
    var leaf: Text := [0x41, SPACE];
    assert BaseOf(leaf) == leaf by { UntilUnique(leaf, DOT, leaf); }
    assert ExtOf(leaf) == [];
    FormatEncoded(leaf);
    var u := Upper(leaf);
    assert u == leaf && Upper([]) == [];
    UntilUnique(u, SPACE, [0x41]);
    UntilUnique([], SPACE, []);
    assert Key([0x41]) == [0x41];
  }
}

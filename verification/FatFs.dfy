/** The FAT16 file operations by name (fs/fat16_disk.c:1310-1620): the slot is found
    in its directory, and the entry behind it in the volume. A path's directory
    is taken as resolved. */
module FatFs {
  import opened Bytes
  import opened Outcomes
  import opened FatNames
  import opened FatDirs
  import FatChain
  import V = FatVolume
  import opened FatTree
  import opened FatTidy

  /** A new name can be found again, if it can be stored at all. */
  predicate Findable(name: Text) {
    Encode(CutText(name)).Some? ==> Plain(CutText(name))
  }

  /** The slot such a name is stored in. */
  lemma StoredSlot(leaf: Text, attr: Byte)
    requires Encode(leaf).Some? && Plain(leaf) && |leaf| < MAX_NAME && attr != LFN
    ensures var x := Slot(Encode(leaf).value, attr);
            IsLive(x) && KeyAt(x) == Key(leaf) && !DotKey(Key(leaf)) && !IsDots(x)
  {
    hide Format, Plain;
    FormatPlain(leaf);
    KeyTwice(leaf);
    EncodedLive(leaf, attr);
    PlainFirst(leaf);
    FirstNotDot(leaf);
  }

  lemma FirstNotDot(leaf: Text)
    requires Encode(leaf).Some? && |leaf| < MAX_NAME
    ensures Encode(leaf).value[0] != DOT && Key(leaf) != [] && Key(leaf)[0] != DOT
  {
    assert Encode(leaf).value[0] == Upper(BaseOf(leaf))[0] == UpperByte(leaf[0]);
    assert leaf[0] == BaseOf(leaf)[0];
  }

  const UNUSED: DirSlot := Slot([0, 0, 0, 0, 0, 0, 0, 0, 0, 0, 0], 0)

  /** `fat16_init_subdir`: the dots, and the rest of the cluster never used. */
  function NewSlots(n: nat): seq<DirSlot>
    requires n >= 2
  {
    [Slot(DOT_NAME, DIR_BIT), Slot(DOTDOT_NAME, DIR_BIT)] + seq(n - 2, _ => UNUSED)
  }

  const NEW_INDEX: Index := map[[DOT] := 0, [DOT, DOT] := 1]

  lemma DotNames()
    ensures KeyAt(Slot(DOT_NAME, DIR_BIT)) == [DOT] && KeyAt(Slot(DOTDOT_NAME, DIR_BIT)) == [DOT, DOT]
    ensures Readable(Slot(DOT_NAME, DIR_BIT)) && Readable(Slot(DOTDOT_NAME, DIR_BIT))
  {
    var spaces: seq<Byte> := [SPACE, SPACE, SPACE];
    UntilUnique(DOT_NAME[..8], SPACE, [DOT]);
    UntilUnique(DOTDOT_NAME[..8], SPACE, [DOT, DOT]);
    UntilUnique([DOT], 0, [DOT]);
    UntilUnique([DOT, DOT], 0, [DOT, DOT]);
    assert DOT_NAME[8..] == spaces && DOTDOT_NAME[8..] == spaces;
    UntilUnique(spaces, SPACE, []);
    UntilUnique([], 0, []);
    assert Key([DOT]) == [DOT] && Key([DOT, DOT]) == [DOT, DOT];
  }

  lemma NewSlotsOk(n: nat)
    requires n >= 2
    ensures OnlyDots(NewSlots(n), NEW_INDEX)
  {
    hide KeyAt, Readable;
    DotNames();
    var slots := NewSlots(n);
    forall i | 2 <= i < n ensures slots[i] == UNUSED {
    }
    forall i | 0 <= i < |slots| ensures SlotOk(slots[i], i, NEW_INDEX) {
    }
  }

  /** A volume with an empty root directory. */
  lemma EmptyRoot(n: nat)
    ensures Good(State(map[0 := seq(n, _ => UNUSED)], map[0 := map[]], map[], map[], map[])) &&
              TreeOf(State(map[0 := seq(n, _ => UNUSED)], map[0 := map[]], map[], map[], map[])) == map[]
  {
    var s := State(map[0 := seq(n, _ => UNUSED)], map[0 := map[]], map[], map[], map[]);
    forall i | 0 <= i < n ensures SlotAgrees(s.ents, V.Ref(0, i), s.dirs[0][i]) && SlotOk(s.dirs[0][i], i, s.at[0]) {
      assert s.dirs[0][i] == UNUSED;
    }
  }

  class Fs {
    const vol: V.Volume
    var dirs: map<nat, seq<DirSlot>>
    ghost var at: map<nat, Index>
    ghost var up: map<nat, V.Ref>

    ghost function St(): State
      reads this, vol
    {
      State(dirs, at, up, vol.ents, Contents(vol))
    }

    ghost predicate Valid()
      reads this, vol
    {
      vol.Valid() && vol.cb >= 512 && Good(St())
    }

    /** How many clusters the entry of a name has. */
    ghost function Len(k: NKey): nat
      reads this, vol
    {
      vol.ChainLen(RefAt(at, k))
    }

    /** The tree of names this volume holds. */
    ghost function Tree(): Tree
      reads this, vol
    {
      TreeOf(St())
    }

    /** Mount a well-formed volume with its directories. */
    constructor (vol: V.Volume, dirs: map<nat, seq<DirSlot>>, ghost at: map<nat, Index>, ghost up: map<nat, V.Ref>)
      requires vol.Valid() && vol.cb >= 512 && Good(State(dirs, at, up, vol.ents, Contents(vol)))
      ensures Valid() && this.vol == vol && this.dirs == dirs
    {
      this.vol, this.dirs, this.at, this.up := vol, dirs, at, up;
    }

    /** The directories after a change that `vol` has already seen. */
    method Install(dirs: map<nat, seq<DirSlot>>, ghost at: map<nat, Index>, ghost up: map<nat, V.Ref>)
      requires vol.Valid() && vol.cb >= 512 && Good(State(dirs, at, up, vol.ents, Contents(vol)))
      modifies this
      ensures Valid() && St() == State(dirs, at, up, vol.ents, Contents(vol))
    {
      hide ContentsOf, V.Volume.Valid, Good;
      this.dirs, this.at, this.up := dirs, at, up;
    }

    /** Find a name in a directory and tell a file from a directory. */
    method Locate(dir: nat, name: Text, junk: seq<Byte>) returns (err: Errno, i: nat)
      requires Valid() && dir in dirs
      ensures dir in at && err == FileAnswer(at[dir], Tree(), NKey(dir, Key(name)))
      ensures err == OK ==>
                V.Ref(dir, i) in vol.ents && !vol.ents[V.Ref(dir, i)].isDir && V.Ref(dir, i) in Contents(vol)
      ensures err == OK ==> Visible(St(), NKey(dir, Key(name))) && RefAt(at, NKey(dir, Key(name))) == V.Ref(dir, i)
      ensures err == OK ==>
                NKey(dir, Key(name)) in Tree() && Tree()[NKey(dir, Key(name))] == File(Contents(vol)[V.Ref(dir, i)])
    {
      hide ContentsOf, V.Volume.Valid, Good, DirOk, Key, TreeOf, KeyAt, IsLive, IsDots, DotKey, Readable;
      GoodAt(St(), dir);
      ghost var k := NKey(dir, Key(name));
      InTree(St(), k);
      err, i := FindIn(dirs[dir], at[dir], name, junk);
      if err != OK { return ENOENT, 0; }
      SlotOfKey(St(), k);
      FileEntry(St(), V.Ref(dir, i));
      if HasDirBit(dirs[dir][i]) { return EISDIR, i; }
    }

    method Read(dir: nat, name: Text, count: nat, off: int, junk: seq<Byte>) returns (err: Errno, bytes: seq<Byte>)
      requires Valid() && dir in dirs
      ensures dir in at && (FileAnswer(at[dir], Tree(), NKey(dir, Key(name))) != OK ==>
                err == FileAnswer(at[dir], Tree(), NKey(dir, Key(name))))
      ensures IsFile(Tree(), NKey(dir, Key(name))) ==> err == if off < 0 then EINVAL else OK
      ensures err == OK ==>
                IsFile(Tree(), NKey(dir, Key(name))) &&
                bytes == Slice(BytesAt(Tree(), NKey(dir, Key(name))), off, count)
    {
      hide ContentsOf, V.Volume.Valid, Good, Key, TreeOf, Slice;
      bytes := [];
      var i;
      InTree(St(), NKey(dir, Key(name)));
      err, i := Locate(dir, name, junk);
      if err != OK { return; }
      ContentAt(vol, V.Ref(dir, i));
      err, bytes := vol.ReadFile(V.Ref(dir, i), count, off);
    }

    /** The bytes go where the reference puts them, on any volume; no other name is
        touched, and on failure none is. */
    method Write(dir: nat, name: Text, buf: seq<Byte>, off: int, junk: seq<Byte>) returns (err: Errno)
      requires Valid() && dir in dirs
      modifies vol
      ensures Valid() && dir in at
      ensures !IsFile(old(Tree()), NKey(dir, Key(name))) ==>
                err == FileAnswer(at[dir], old(Tree()), NKey(dir, Key(name)))
      ensures IsFile(old(Tree()), NKey(dir, Key(name))) ==>
                err == WriteAnswer(|BytesAt(old(Tree()), NKey(dir, Key(name)))|, off, |buf|, vol.cb,
                                   old(Len(NKey(dir, Key(name)))) + old(vol.Free()))
      ensures err == OK ==>
                Tree() == old(Tree())[NKey(dir, Key(name)) := File(WrittenTo(ContentIn(old(Tree()), NKey(dir,
                    Key(name))), off, buf, vol.cb))]
      ensures err != OK ==> Tree() == old(Tree())
    {
      hide ContentsOf, V.Volume.Valid, Good, Key, TreeOf, WrittenTo, FileAnswer, V.FreeSet, V.Ceil;
      ghost var s := St();
      var i;
      err, i := Locate(dir, name, junk);
      InTree(s, NKey(dir, Key(name)));
      AnswerIs(at[dir], Tree(), NKey(dir, Key(name)));
      if err != OK { return; }
      var nwrote;
      err, nwrote := FatTidy.Write(vol, V.Ref(dir, i), buf, off);
      ghost var r := V.Ref(dir, i);
      if err == OK {
        assert St() == WithFile(s, r, vol.ents[r], Contents(vol)[r]);
        FileChanged(s, NKey(dir, Key(name)), vol.ents[r], Contents(vol)[r]);
      }
    }

    method Truncate(dir: nat, name: Text, len: nat, junk: seq<Byte>) returns (err: Errno)
      requires Valid() && dir in dirs
      modifies vol
      ensures Valid() && dir in at
      ensures !IsFile(old(Tree()), NKey(dir, Key(name))) ==>
                err == FileAnswer(at[dir], old(Tree()), NKey(dir, Key(name)))
      ensures IsFile(old(Tree()), NKey(dir, Key(name))) ==>
                err == ClustersAnswer(len, vol.cb, old(Len(NKey(dir, Key(name)))) + old(vol.Free()))
      ensures err == OK ==>
                Tree() == old(Tree())[NKey(dir, Key(name)) := File(ResizedTo(ContentIn(old(Tree()), NKey(dir,
                    Key(name))), len, vol.cb))]
      ensures err != OK ==> Tree() == old(Tree())
    {
      hide ContentsOf, V.Volume.Valid, Good, Key, TreeOf, ResizedTo, FileAnswer, V.FreeSet, V.Ceil;
      ghost var s := St();
      var i;
      err, i := Locate(dir, name, junk);
      InTree(s, NKey(dir, Key(name)));
      AnswerIs(at[dir], Tree(), NKey(dir, Key(name)));
      if err != OK { return; }
      ghost var r := V.Ref(dir, i);
      err := FatTidy.Resize(vol, V.Ref(dir, i), len);
      if err == OK {
        assert St() == WithFile(s, r, vol.ents[r], Contents(vol)[r]);
        FileChanged(s, NKey(dir, Key(name)), vol.ents[r], Contents(vol)[r]);
      }
    }

    /** Where a new name can go: the first free slot, if the name is new and can be
        stored. */
    method Room(dir: nat, name: Text, attr: Byte, junk: seq<Byte>) returns (err: Errno, i: nat, x: DirSlot)
      requires Valid() && dir in dirs && Findable(name) && attr != LFN
      ensures dir in at && err == RoomAnswer(dirs[dir], at[dir], name)
      ensures err == OK ==>
                x.attr == attr && forall de: V.Dirent | de.isDir == HasDirBit(x) ::
                CanPut(St(), dir, i, x, Key(name), de)
    {
      hide ContentsOf, V.Volume.Valid, Good, DirOk, Key, TreeOf, KeyAt, IsLive, IsDots, DotKey, Encode, Plain,
           HasDirBit;
      x := UNUSED;
      GoodAt(St(), dir);
      err, i := FindIn(dirs[dir], at[dir], name, junk);
      if err == OK { return EEXIST, 0, x; }
      err, i := FirstFree(dirs[dir]);
      if err != OK { return ENOSPC, 0, x; }
      var leaf := CutText(name);
      var code := Encode(leaf);
      if code.None? { return EINVAL, 0, x; }
      x := Slot(code.value, attr);
      KeyOfCut(name);
      StoredSlot(leaf, attr);
      Added(dirs[dir], at[dir], i, leaf, x);
      return OK, i, x;
    }

    method Create(dir: nat, name: Text, junk: seq<Byte>) returns (err: Errno)
      requires Valid() && dir in dirs && Findable(name)
      modifies this, vol
      ensures Valid() && dir in old(at) && err == RoomAnswer(old(dirs)[dir], old(at)[dir], name)
      ensures Tree() == if err == OK then old(Tree())[NKey(dir, Key(name)) := File(EMPTY)] else old(Tree())
    {
      hide ContentsOf, V.RawsOf, V.Volume.Valid, Good, DirOk, Key, TreeOf, CanPut, RoomAnswer, Findable, WithEntry;
      ghost var s := St();
      var i, x;
      err, i, x := Room(dir, name, ARCH_BIT, junk);
      if err != OK { return; }
      ghost var de := V.Dirent(0, 0, false);
      PutParts(s, dir, i, x, Key(name), de);
      FilePut(s, dir, i, x, Key(name), de, EMPTY);
      err := vol.Create(V.FreeSlot(V.Ref(dir, i)));
      ContentsUpdate(old(vol.Raws()), s.ents, V.Ref(dir, i), [], de);
      NoContent();
      dirs := dirs[dir := dirs[dir][i := x]];
      at := KeysWith(at, dir, Key(name), i);
      PutState(s, dir, i, x, Key(name), de);
      assert St() == WithEntry(s, dir, i, x, Key(name), de).(files := s.files[V.Ref(dir, i) := EMPTY]);
    }

    method Unlink(dir: nat, name: Text, junk: seq<Byte>) returns (err: Errno)
      requires Valid() && dir in dirs
      modifies this, vol
      ensures Valid() && dir in old(at) && err == FileAnswer(old(at)[dir], old(Tree()), NKey(dir, Key(name)))
      ensures dirs.Keys == old(dirs).Keys && (err != OK ==> dirs == old(dirs) && at == old(at)) && (err == OK ==>
                dir in at && Key(name) !in at[dir])
      ensures Tree() == if err == OK then old(Tree()) - {NKey(dir, Key(name))} else old(Tree())
      ensures err == OK ==> vol.Free() == old(vol.Free()) + old(Len(NKey(dir, Key(name))))
      ensures err != OK ==> vol.Free() == old(vol.Free())
      ensures err == OK ==> RoomAnswer(dirs[dir], at[dir], name) == if Encode(CutText(name)).None? then EINVAL else OK
      ensures err == OK ==>
                forall d | d in dirs && d != dir ::
                d in at && d in old(at) && dirs[d] == old(dirs)[d] && at[d] == old(at)[d]
    {
      hide ContentsOf, V.RawsOf, V.Volume.Valid, Good, DirOk, Key, TreeOf, FileAnswer, RoomAnswer, V.FreeSet, Deleted;
      ghost var s, k := St(), NKey(dir, Key(name));
      var i;
      err, i := Locate(dir, name, junk);
      if err != OK { return; }
      DropReady(s, k, i);
      FileDropped(s, k, i);
      err := vol.Unlink(V.Ref(dir, i));
      ContentsFewer(old(vol.Raws()), s.ents, V.Ref(dir, i));
      dirs := dirs[dir := dirs[dir][i := Deleted(dirs[dir][i])]];
      at := KeysWithout(at, dir, Key(name));
      assert St() == WithoutEntry(s, k, i);
      RoomLeft(s.dirs[dir], i, dirs[dir], at[dir], name);
      GoodKeys(s);
    }

    /** A new directory in a slot that was found for it: a cluster of its own, with
        its dots and nothing else. */
    method FillDir(dir: nat, key: seq<Byte>, i: nat, x: DirSlot) returns (err: Errno, ghost made: nat)
      requires Valid() && HasDirBit(x) && forall de: V.Dirent | de.isDir :: CanPut(St(), dir, i, x, key, de)
      modifies this, vol
      ensures Valid() && err == if old(vol.Free()) == 0 then ENOSPC else OK
      ensures err == OK ==> made !in old(dirs) && Tree() == old(Tree())[NKey(dir, key) := Dir(made)]
      ensures err != OK ==> Tree() == old(Tree())
    {
      hide ContentsOf, V.RawsOf, V.Volume.Valid, Good, TreeOf, CanPut, HasDirBit, V.FreeSet;
      ghost var s := St();
      PutParts(s, dir, i, x, key, V.Dirent(0, 0, true));
      NoRaw(vol, V.Ref(dir, i));
      made := 0;
      NoneFree(vol);
      err := vol.Mkdir(V.FreeSlot(V.Ref(dir, i)));
      if err != OK { return; }
      ContentsAside(old(vol.Raws()), s.ents, V.Ref(dir, i), vol.ents[V.Ref(dir, i)]);
      made := AddDir(s, dir, key, i, x);
    }

    /** The dots of the cluster that `vol` has given the new directory, and the slot
        that names it. */
    method AddDir(ghost s: State, dir: nat, key: seq<Byte>, i: nat, x: DirSlot) returns (ghost made: nat)
      requires vol.Valid() && vol.cb >= 512 && Good(s) && s == St().(ents := s.ents)
      requires var r := V.Ref(dir, i);
                r in vol.ents && vol.ents == s.ents[r := vol.ents[r]] && vol.ents[r].isDir && vol.ents[r].cluster != 0
                                       && CanPut(s, dir, i, x, key, vol.ents[r]) && forall g | g in s.ents ::
                                         s.ents[g].cluster != vol.ents[r].cluster
      modifies this
      ensures Valid() && made !in s.dirs && Tree() == TreeOf(s)[NKey(dir, key) := Dir(made)]
    {
      hide ContentsOf, V.Volume.Valid, Good, TreeOf, CanPut, OnlyDots, KeysWith, NewSlots, NEW_INDEX;
      var r := V.Ref(dir, i);
      var c := vol.ents[r].cluster;
      FreshDir(s, c);
      NewSlotsOk(vol.cb / 32);
      DirMade(s, dir, i, x, key, vol.ents[r], NewSlots(vol.cb / 32), NEW_INDEX);
      Install(dirs[dir := dirs[dir][i := x]][c := NewSlots(vol.cb / 32)], KeysWith(at, dir, key, i)[c := NEW_INDEX],
          up[c := r]);
      made := c;
    }

    method Mkdir(dir: nat, name: Text, junk: seq<Byte>) returns (err: Errno, ghost made: nat)
      requires Valid() && dir in dirs && Findable(name)
      modifies this, vol
      ensures Valid()
      ensures dir in old(at)
      ensures err == MkdirAnswer(RoomAnswer(old(dirs)[dir], old(at)[dir], name), old(vol.Free()))
      ensures err == OK ==> made !in old(dirs) && Tree() == old(Tree())[NKey(dir, Key(name)) := Dir(made)]
      ensures err != OK ==> Tree() == old(Tree())
    {
      hide ContentsOf, V.RawsOf, V.Volume.Valid, Good, Key, TreeOf, CanPut, RoomAnswer, Findable, V.FreeSet;
      NoneFree(vol);
      var e, i, x := Room(dir, name, DIR_BIT, junk);
      made := 0;
      if e == EEXIST { return EEXIST, 0; }
      if e == OK {
        err, made := FillDir(dir, Key(name), i, x);
      } else {
        err := vol.Mkdir(V.NoSlot(e));
      }
    }

    /** Nothing but dots, deleted slots and long names before the first slot never
        used, as `fat16_dir_is_empty` scans them. */
    method IsEmptyDir(c: nat) returns (empty: bool)
      requires Valid() && c in dirs
      ensures empty <==> forall r | r in vol.ents :: r.dir != c
      ensures empty <==> forall k | k in Tree() :: k.dir != c
    {
      hide ContentsOf, V.Volume.Valid, DirOk, TreeOf, Good, DirGood, Skipped;
      GoodAt(St(), c);
      var slots := dirs[c];
      var i := 0;
      while i < |slots| && slots[i].name[0] != 0
        invariant i <= |slots| && forall j | 0 <= j < i :: V.Ref(c, j) !in vol.ents
      {
        SlotEmpty(St(), c, i);
        if !Skipped(slots[i]) {
          EntryShows(St(), V.Ref(c, i));
          return false;
        }
        i := i + 1;
      }
      if i < |slots| { RestUnused(St(), c, i); }
      NothingShows(St(), c);
      return true;
    }

    method Rmdir(dir: nat, name: Text, junk: seq<Byte>) returns (err: Errno)
      requires Valid() && dir in dirs && !DotKey(Key(name))
      modifies this, vol
      ensures Valid()
      ensures dir in old(at) && err == RmdirAnswer(old(at)[dir], old(Tree()), NKey(dir, Key(name)))
      ensures Tree() == if err == OK then old(Tree()) - {NKey(dir, Key(name))} else old(Tree())
    {
      hide ContentsOf, V.RawsOf, V.Volume.Valid, Good, DirOk, Key, TreeOf, KeyAt, IsLive, IsDots, DotKey, Readable,
           HasDirBit, DirGood, CanDrop;
      ghost var s, k := St(), NKey(dir, Key(name));
      GoodAt(s, dir);
      InTree(s, k);
      var i;
      err, i := FindIn(dirs[dir], at[dir], name, junk);
      if err != OK { return ENOENT; }
      SlotOfKey(s, k);
      var r := V.Ref(dir, i);
      FileEntry(s, r);
      if !HasDirBit(dirs[dir][i]) { return ENOTDIR; }
      var c := vol.ents[r].cluster;
      SubdirKnown(s, r);
      var empty := IsEmptyDir(c);
      if !empty { return ENOTEMPTY; }
      DropReady(s, k, i);
      DropDir(k, dir, i, c);
      return OK;
    }

    /** Free an empty directory and delete its slot. */
    method DropDir(ghost k: NKey, dir: nat, i: nat, c: nat)
      requires Valid() && CanDrop(St(), k, i) && k.dir == dir && dir in dirs && i < |dirs[dir]|
      requires V.Ref(dir, i) in vol.ents && vol.ents[V.Ref(dir, i)].isDir && vol.ents[V.Ref(dir, i)].cluster == c
      requires forall r | r in vol.ents :: r.dir != c
      modifies this, vol
      ensures Valid() && Tree() == old(Tree()) - {k}
    {
      hide ContentsOf, V.RawsOf, V.Volume.Valid, Good, TreeOf, CanDrop, Deleted, KeysWithout;
      ghost var s := St();
      DropParts(s, k, i);
      var r := V.Ref(dir, i);
      NoRawDir(vol, r);
      var err := vol.Rmdir(r, true);
      DirGone(s, k, i, c);
      ContentsLess(vol.Raws(), s.ents, r);
      Install(dirs[dir := dirs[dir][i := Deleted(dirs[dir][i])]] - {c}, KeysWithout(at, dir, k.key) - {c}, up - {c});
    }

    /** The copy's entry and its clusters. */
    method CopyEntry(r: V.Ref, r': V.Ref, found: bool) returns (err: Errno)
      requires vol.Valid() && r in Contents(vol) && r in vol.ents && !vol.ents[r].isDir && r' !in vol.ents && found
      modifies vol
      ensures vol.Valid() && err == ClustersAnswer(|old(Contents(vol))[r].bytes|, vol.cb, old(vol.Free()))
      ensures r' in vol.ents && vol.ents == old(vol.ents)[r' := vol.ents[r']] && !vol.ents[r'].isDir
      ensures Contents(vol) == old(Contents(vol))[r' := if err == OK then Copied(old(Contents(vol))[r]) else EMPTY]
    {
      hide ContentsOf, V.RawsOf, V.FilesOf, V.Volume.Valid, V.GrownRaw, V.WrittenRaw, V.FreeSet;
      NoClusters(vol);
      ContentAt(vol, r);
      err := vol.Link(r, V.FreeSlot(r'), found);
      CopyContent(vol, old(vol.Raws()), old(vol.ents), r', if err == OK then old(vol.Files())[r] else [], err == OK);
    }

    /** The copy for a slot that was found. The source looks the new name up again
        before it writes. */
    method FillCopy(r: V.Ref, newDir: nat, newName: Text, j: nat, x: DirSlot, junk: seq<Byte>) returns (err: Errno)
      requires Valid() && r in Contents(vol) && r in vol.ents && !vol.ents[r].isDir
      requires !HasDirBit(x) && forall de: V.Dirent | !de.isDir :: CanPut(St(), newDir, j, x, Key(newName), de)
      modifies this, vol
      ensures Valid() && dirs.Keys == old(dirs).Keys
      ensures err == ClustersAnswer(|old(Contents(vol))[r].bytes|, vol.cb, old(vol.Free()))
      ensures Tree() == old(Tree())[NKey(newDir, Key(newName)) := File(if err == OK then
                Copied(old(Contents(vol))[r]) else EMPTY)]
    {
      hide ContentsOf, V.RawsOf, V.Volume.Valid, Good, Key, TreeOf, V.GrownRaw, V.WrittenRaw, DirOk, KeyAt, IsLive,
           IsDots, DotKey, CanPut, KeysWith, V.FreeSet, ClustersAnswer;
      ghost var s := St();
      var r' := V.Ref(newDir, j);
      PutParts(s, newDir, j, x, Key(newName), V.Dirent(0, 0, false));
      var dirs' := dirs[newDir := dirs[newDir][j := x]];
      ghost var at' := KeysWith(at, newDir, Key(newName), j);
      PutFound(s, newDir, j, x, Key(newName));
      var e, again := FindIn(dirs'[newDir], at'[newDir], newName, junk);
      err := CopyEntry(r, r', e == OK);
      ghost var b := if err == OK then Copied(s.files[r]) else EMPTY;
      FileMade(s, newDir, j, x, Key(newName), vol.ents[r'], b);
      Install(dirs', at', up);
    }

    /** Link copies: the new name gets the bytes, or, when there is no space for
        them, an empty file. */
    method Link(dir: nat, name: Text, newDir: nat, newName: Text, junk: seq<Byte>) returns (err: Errno)
      requires Valid() && dir in dirs && newDir in dirs && Findable(newName)
      modifies this, vol
      ensures Valid() && dirs.Keys == old(dirs).Keys
      ensures dir in old(at) && newDir in old(at)
      ensures !IsFile(old(Tree()), NKey(dir, Key(name))) ==> err == if Key(name) in old(at)[dir] then EPERM else ENOENT
      ensures IsFile(old(Tree()), NKey(dir, Key(name))) &&
                RoomAnswer(old(dirs)[newDir], old(at)[newDir], newName) != OK ==>
                err == RoomAnswer(old(dirs)[newDir], old(at)[newDir], newName)
      ensures !Copies(old(Tree()), old(dirs), old(at), NKey(dir, Key(name)), newDir, newName) ==>
                Tree() == old(Tree()) && err != OK
      ensures Copies(old(Tree()), old(dirs), old(at), NKey(dir, Key(name)), newDir, newName) ==>
                && err == ClustersAnswer(|BytesAt(old(Tree()), NKey(dir, Key(name)))|, vol.cb, old(vol.Free()))
                && Tree() == old(Tree())[NKey(newDir,
                    Key(newName)) := File(if err == OK then Copied(ContentIn(old(Tree()), NKey(dir,
                    Key(name)))) else EMPTY)]
    {
      hide ContentsOf, V.RawsOf, V.Volume.Valid, Good, Key, TreeOf, CanPut, RoomAnswer, Findable, FileAnswer,
           WithEntry, V.GrownRaw, V.WrittenRaw, V.FreeSet, ClustersAnswer;
      ghost var s := St();
      InTree(s, NKey(dir, Key(name)));
      var i;
      err, i := Locate(dir, name, junk);
      AnswerIs(at[dir], Tree(), NKey(dir, Key(name)));
      AnswerFound(at[dir], Tree(), NKey(dir, Key(name)));
      if err != OK {
        GoodAt(s, newDir);
        return if err == EISDIR then EPERM else ENOENT;
      }
      var e, j, x := Room(newDir, newName, ARCH_BIT, junk);
      if e != OK { return e; }
      err := FillCopy(V.Ref(dir, i), newDir, newName, j, x, junk);
    }

    /** `vfs_rename` of a file: the new name is cleared, the bytes are copied, and
        the old name goes. Names are compared as lookups compare them, so a name
        and its other case are one. */
    method Rename(dir: nat, name: Text, newDir: nat, newName: Text, junk: seq<Byte>) returns (err: Errno)
      requires Valid() && dir in dirs && newDir in dirs && Findable(newName)
      requires Key(newName) in at[newDir] ==> IsFile(Tree(), NKey(newDir, Key(newName)))
      modifies this, vol
      ensures Valid() && dir in old(at) && newDir in old(at)
      ensures !IsFile(old(Tree()), NKey(dir, Key(name))) ==>
                Tree() == old(Tree()) && err == FileAnswer(old(at)[dir], old(Tree()), NKey(dir, Key(name)))
      ensures IsFile(old(Tree()), NKey(dir, Key(name))) ==>
                var k, k' := NKey(dir, Key(name)), NKey(newDir, Key(newName));
                var room := RenameRoom(old(dirs)[newDir], old(at)[newDir], newName);
                && err == RenameAnswer(k, k', room, |BytesAt(old(Tree()), k)|, vol.cb,
                                       old(vol.Free()) + if k' in old(Tree()) then old(Len(k')) else 0)
                && RenameOutcome(old(Tree()), Tree(), k, k', room, err)
    {
      hide ContentsOf, V.RawsOf, V.Volume.Valid, Good, Key, TreeOf, RoomAnswer, Findable, FileAnswer, V.FreeSet,
           ClustersAnswer;
      ghost var t, k, k' := Tree(), NKey(dir, Key(name)), NKey(newDir, Key(newName));
      ghost var s := St();
      GoodKeys(s);
      var i, e;
      err, i := Locate(dir, name, junk);
      AnswerIs(at[dir], t, k);
      if err != OK {
        FileHasKey(St(), k);
        return;
      }
      e := Unlink(newDir, newName, junk);
      ClearedKey(s, t, k', e);
      RoomCleared(s.dirs[newDir], s.at[newDir], t, k', newName, e);
      err := MoveFile(dir, name, newDir, newName, junk);
    }

    /** Copy to a name that is not there, and drop the old one. */
    method MoveFile(dir: nat, name: Text, newDir: nat, newName: Text, junk: seq<Byte>) returns (err: Errno)
      requires Valid() && dir in dirs && newDir in dirs && Findable(newName)
      requires NKey(newDir, Key(newName)) !in Tree()
      modifies this, vol
      ensures Valid() && newDir in old(at)
      ensures NKey(dir, Key(name)) !in old(Tree()) && dir in old(at) && Key(name) !in old(at)[dir] ==>
                err == ENOENT && Tree() == old(Tree())
      ensures IsFile(old(Tree()), NKey(dir, Key(name))) ==>
                var k, k' := NKey(dir, Key(name)), NKey(newDir, Key(newName));
                var room := RoomAnswer(old(dirs)[newDir], old(at)[newDir], newName);
                && err == (if room != OK then
                  room else ClustersAnswer(|BytesAt(old(Tree()), k)|, vol.cb, old(vol.Free())))
                && Tree() == (if err == OK then old(Tree())[k' := File(Copied(ContentIn(old(Tree()), k)))] - {k}
                              else if room == OK then old(Tree())[k' := File(EMPTY)] else old(Tree()))
    {
      hide ContentsOf, V.RawsOf, V.Volume.Valid, Good, Key, TreeOf, RoomAnswer, Findable, FileAnswer, V.FreeSet,
           ClustersAnswer;
      ghost var k := NKey(dir, Key(name));
      err := Link(dir, name, newDir, newName, junk);
      if err != OK { return; }
      FileHasKey(St(), k);
      AnswerIs(at[dir], Tree(), k);
      err := Unlink(dir, name, junk);
    }
  }

  /** What a rename of the file named `k` to `k'` comes to. With two names, the bytes
      are under the new one and the old one is gone, or the old one still has
      them; a file that had the new name is gone either way. With one name, the
      file is gone. */
  ghost predicate RenameOutcome(t: Tree, t': Tree, k: NKey, k': NKey, room: Errno, err: Errno)
    requires IsFile(t, k)
  {
    t' == if k == k' then t - {k}
          else if err == OK then (t - {k'})[k' := File(Copied(t[k].content))] - {k}
          else if room == OK then (t - {k'})[k' := File(EMPTY)]
          else t - {k'}
  }

  /** The answer when `len` bytes are to have clusters, of which there are `have`. */
  ghost function ClustersAnswer(len: nat, cb: nat, have: nat): Errno {
    if cb > 0 && V.Ceil(len, cb) > have then ENOSPC else OK
  }

  ghost function WriteAnswer(size: nat, off: int, len: nat, cb: nat, have: nat): Errno {
    if off < 0 then EINVAL
    else if off + len > V.UINT32_MAX then EFBIG
    else if off + len > size then ClustersAnswer(off + len, cb, have)
    else OK
  }

  /** A new directory takes a cluster before it looks for a slot. */
  ghost function MkdirAnswer(room: Errno, free: nat): Errno {
    if room == EEXIST then EEXIST else if free == 0 then ENOSPC else room
  }

  /** A name that is there leaves its slot to the new one. */
  ghost function RenameRoom(slots: seq<DirSlot>, at: Index, name: Text): Errno {
    if Key(name) !in at then RoomAnswer(slots, at, name)
    else if Encode(CutText(name)).None? then EINVAL
    else OK
  }

  ghost function RenameAnswer(k: NKey, k': NKey, room: Errno, len: nat, cb: nat, have: nat): Errno {
    if k == k' then ENOENT else if room != OK then room else ClustersAnswer(len, cb, have)
  }

  lemma RoomLeft(slots: seq<DirSlot>, i: nat, slots': seq<DirSlot>, at: Index, name: Text)
    requires i < |slots| && slots' == slots[i := Deleted(slots[i])] && Key(name) !in at
    ensures RoomAnswer(slots', at, name) == if Encode(CutText(name)).None? then EINVAL else OK
  {
    hide Key, Encode;
    assert IsFree(slots'[i]);
  }

  lemma RoomCleared(slots: seq<DirSlot>, at: Index, t: Tree, k': NKey, name: Text, e: Errno)
    requires k'.key == Key(name) && (k'.key in at ==> IsFile(t, k')) && e == FileAnswer(at, t, k')
    ensures e == OK <==> Key(name) in at
    ensures RenameRoom(slots, at, name) == if e != OK then
              RoomAnswer(slots, at, name) else if Encode(CutText(name)).None? then EINVAL else OK
  {
    hide Key, Encode, RoomAnswer;
  }

  lemma GoodKeys(s: State)
    requires Good(s)
    ensures s.at.Keys == s.dirs.Keys
  {
    hide DirGood, EntsGood, UpGood;
  }

  lemma NoneFree(v: V.Volume)
    requires v.Valid()
    ensures |v.fats| > 0 && v.n <= |v.fats[0]| && (v.Free() == 0 <==>
              forall x | 2 <= x < v.n :: v.fats[0][x] != FatChain.FREE)
  {
    hide V.AllOk, V.FreeSet;
    V.FreeNone(v.fats[0], v.n);
  }

  lemma NoClusters(v: V.Volume)
    requires v.Valid()
    ensures v.cb > 0 && V.Ceil(0, v.cb) == 0
  {
    hide V.AllOk;
  }

  lemma FileHasKey(s: State, k: NKey)
    requires Good(s) && k.dir in s.dirs
    ensures k.dir in s.at && (IsFile(TreeOf(s), k) ==> k.key in s.at[k.dir])
  {
    hide DirGood, TreeOf;
    InTree(s, k);
  }

  /** Unlinking a name that is free or a file's clears it. */
  lemma ClearedKey(s: State, t: Tree, k: NKey, e: Errno)
    requires Good(s) && k.dir in s.dirs && t == TreeOf(s) && k.dir in s.at && e == FileAnswer(s.at[k.dir], t, k)
    requires k.key in s.at[k.dir] ==> IsFile(t, k)
    ensures e != OK ==> t - {k} == t
  {
    hide Good, TreeOf;
    InTree(s, k);
  }

  /** What removing a directory answers. */
  ghost function RmdirAnswer(at: Index, t: Tree, k: NKey): Errno {
    if k.key !in at then ENOENT
    else if IsFile(t, k) then ENOTDIR
    else if k in t && t[k].Dir? && exists q :: q in t && q.dir == t[k].id then ENOTEMPTY
    else OK
  }

  /** There is a file to copy and room for the copy's name. */
  ghost predicate Copies(t: Tree, dirs: map<nat, seq<DirSlot>>, at: map<nat, Index>, k: NKey, newDir: nat,
                         newName: Text) {
    IsFile(t, k) && newDir in dirs && newDir in at && RoomAnswer(dirs[newDir], at[newDir], newName) == OK
  }

  lemma AnswerFound(at: Index, t: Tree, k: NKey)
    ensures FileAnswer(at, t, k) == ENOENT <==> k.key !in at
  {
  }

  lemma SubdirKnown(s: State, r: V.Ref)
    requires Good(s) && r in s.ents && s.ents[r].isDir
    ensures s.ents[r].cluster in s.dirs && s.ents[r].cluster != 0
  {
    UpHas(s, r);
  }

  lemma DirGone(s: State, k: NKey, i: nat, c: nat)
    requires CanDrop(s, k, i) && V.Ref(k.dir, i) in s.ents && s.ents[V.Ref(k.dir, i)].isDir &&
              s.ents[V.Ref(k.dir, i)].cluster == c
    requires k.dir in s.dirs && i < |s.dirs[k.dir]| && V.Ref(k.dir, i) !in s.files && forall r | r in s.ents ::
              r.dir != c
    ensures var s' := State(s.dirs[k.dir := s.dirs[k.dir][i := Deleted(s.dirs[k.dir][i])]] - {c},
              KeysWithout(s.at, k.dir, k.key) - {c}, s.up - {c},
                            s.ents - {V.Ref(k.dir, i)}, s.files);
            Good(s') && TreeOf(s') == TreeOf(s) - {k}
  {
    hide CanDrop, Good, TreeOf, Deleted, KeysWithout;
    DirDropped(s, k, i, c);
    assert s.files - {V.Ref(k.dir, i)} == s.files;
    assert WithoutDir(WithoutEntry(s, k, i), c) ==
             State(s.dirs[k.dir := s.dirs[k.dir][i := Deleted(s.dirs[k.dir][i])]] - {c}, KeysWithout(s.at, k.dir,
                 k.key) - {c}, s.up - {c},
                   s.ents - {V.Ref(k.dir, i)}, s.files);
  }

  lemma NoRawDir(v: V.Volume, r: V.Ref)
    requires v.Valid() && r in v.ents && v.ents[r].isDir
    ensures r !in v.Raws() && r !in Contents(v)
  {
    V.FileIn(v.data, v.cb, v.ents, v.chains, r);
  }

  /** A copy has the bytes, and zeros behind them. */
  function Copied(c: Content): Content {
    Content(c.bytes, [])
  }

  /** The file a link makes. */
  lemma CopyContent(v: V.Volume, raws: map<V.Ref, seq<Byte>>, ents: map<V.Ref, V.Dirent>, r: V.Ref, b: seq<Byte>,
                    ok: bool)
    requires v.Valid() && r in v.ents && v.ents == ents[r := v.ents[r]] && !v.ents[r].isDir && r in v.Files() &&
              v.Files()[r] == b
    requires if ok then v.Raws() == raws[r := V.WrittenRaw([], 0, v.cb, 0, b)]
             else b == [] && (v.Raws() == raws[r := []] || V.GrownRaw(raws[r := []], v.Raws(), r))
    ensures Contents(v) == ContentsOf(raws, ents)[r := Content(b, [])]
  {
    hide V.FilesOf, V.RawsOf, V.RawOf, V.AllOk, V.GrownRaw, V.WrittenRaw, ContentsOf, ContentOf, WrittenTo;
    ContentAt(v, r);
    NoContent();
    if ok {
      ContentWritten([], 0, v.cb, 0, b);
      WriteTidy(EMPTY, 0, b, v.cb);
      WrittenWhole(b);
      ContentsUpdate(raws, ents, r, V.WrittenRaw([], 0, v.cb, 0, b), v.ents[r]);
    } else {
      ContentsUpdate(raws, ents, r, [], v.ents[r]);
      if V.GrownRaw(raws[r := []], v.Raws(), r) { ContentsGrown(raws[r := []], v.Raws(), v.ents, r); }
    }
  }

  lemma WrittenWhole(b: seq<Byte>)
    ensures Written([], 0, b) == b
  {
  }

  lemma NoContent()
    ensures ContentOf([], 0) == EMPTY
  {
  }

  lemma NoRaw(v: V.Volume, r: V.Ref)
    requires v.Valid() && r !in v.ents
    ensures r !in v.Raws()
  {
    V.FileIn(v.data, v.cb, v.ents, v.chains, r);
  }

  /** No directory has the cluster a new one gets. */
  lemma FreshDir(s: State, c: nat)
    requires Good(s) && c != 0 && forall g | g in s.ents :: s.ents[g].cluster != c
    ensures c !in s.dirs
  {
    hide DirGood, EntsGood;
    assert c in s.dirs ==> c in s.up;
  }

  lemma DirState(s: State, c: nat, slots: seq<DirSlot>, at: Index, r: V.Ref)
    ensures WithDir(s, c, slots, at, r) == State(s.dirs[c := slots], s.at[c := at], s.up[c := r], s.ents, s.files)
  {
  }

  lemma ContentsAside(raws: map<V.Ref, seq<Byte>>, ents: map<V.Ref, V.Dirent>, r: V.Ref, de: V.Dirent)
    requires r !in raws
    ensures ContentsOf(raws, ents[r := de]) == ContentsOf(raws, ents)
  {
    hide ContentOf;
  }

  predicate Skipped(x: DirSlot) {
    x.name[0] == GONE || x.attr == LFN || Format(x.name) == Some([DOT]) || Format(x.name) == Some([DOT, DOT])
  }

  /** Whether a slot is an entry, by what the scan looks at. */
  lemma SlotEmpty(s: State, c: nat, i: nat)
    requires c in s.dirs && c in s.at && DirGood(s, c) && i < |s.dirs[c]|
    ensures V.Ref(c, i) in s.ents <==> s.dirs[c][i].name[0] != 0 && !Skipped(s.dirs[c][i])
  {
    hide DirOk, Format;
    var x := s.dirs[c][i];
    assert SlotAgrees(s.ents, V.Ref(c, i), x);
    if IsLive(x) {
      ReadableAt(s.dirs[c], s.at[c], i);
      DotKeys(x);
    }
  }

  lemma NothingShows(s: State, c: nat)
    requires Good(s) && c in s.dirs && forall j | 0 <= j < |s.dirs[c]| :: V.Ref(c, j) !in s.ents
    ensures forall r | r in s.ents :: r.dir != c
    ensures forall k | k in TreeOf(s) :: k.dir != c
  {
    hide DirGood, UpGood, TreeOf;
    forall r | r in s.ents ensures r.dir != c {
      assert r == V.Ref(r.dir, r.index);
    }
    forall k | k in TreeOf(s) ensures k.dir != c {
      InTree(s, k);
    }
  }

  lemma FileMade(s: State, d: nat, i: nat, x: DirSlot, k: seq<Byte>, de: V.Dirent, b: Content)
    requires CanPut(s, d, i, x, k, de) && !de.isDir
    ensures d in s.dirs && i < |s.dirs[d]|
    ensures var s' := State(s.dirs[d := s.dirs[d][i := x]], KeysWith(s.at, d, k, i), s.up, s.ents[V.Ref(d, i) := de],
              s.files[V.Ref(d, i) := b]);
            Good(s') && TreeOf(s') == TreeOf(s)[NKey(d, k) := File(b)]
  {
    hide CanPut, Good, TreeOf, WithEntry;
    PutParts(s, d, i, x, k, de);
    FilePut(s, d, i, x, k, de, b);
    PutState(s, d, i, x, k, de);
  }

  /** The directory a name was put in has the name. */
  lemma PutFound(s: State, d: nat, i: nat, x: DirSlot, k: seq<Byte>)
    requires exists de :: CanPut(s, d, i, x, k, de)
    ensures d in s.dirs && i < |s.dirs[d]|
    ensures d in KeysWith(s.at, d, k, i) && DirOk(s.dirs[d][i := x], KeysWith(s.at, d, k, i)[d]) &&
              k in KeysWith(s.at, d, k, i)[d]
  {
    hide DirOk, Good;
  }

  lemma DirMade(s: State, d: nat, i: nat, x: DirSlot, k: seq<Byte>, de: V.Dirent, slots: seq<DirSlot>, at: Index)
    requires CanPut(s, d, i, x, k, de) && de.isDir && de.cluster != 0 && de.cluster !in s.dirs && OnlyDots(slots, at)
    ensures d in s.dirs && i < |s.dirs[d]|
    ensures var s' := State(s.dirs[d := s.dirs[d][i := x]][de.cluster := slots],
              KeysWith(s.at, d, k, i)[de.cluster := at], s.up[de.cluster := V.Ref(d, i)],
                            s.ents[V.Ref(d, i) := de], s.files);
            Good(s') && TreeOf(s') == TreeOf(s)[NKey(d, k) := Dir(de.cluster)]
  {
    hide CanPut, Good, TreeOf, OnlyDots, WithEntry, WithDir;
    PutParts(s, d, i, x, k, de);
    DirPut(s, d, i, x, k, de, slots, at);
    PutState(s, d, i, x, k, de);
    DirState(WithEntry(s, d, i, x, k, de), de.cluster, slots, at, V.Ref(d, i));
  }

  lemma ReadableAt(slots: seq<DirSlot>, at: Index, i: nat)
    requires DirOk(slots, at) && i < |slots| && IsLive(slots[i])
    ensures Readable(slots[i])
  {
    assert SlotOk(slots[i], i, at);
  }

  /** Formatted names are dots exactly if their keys are. */
  lemma DotKeys(x: DirSlot)
    requires Readable(x)
    ensures DotKey(KeyAt(x)) <==> Format(x.name) == Some([DOT]) || Format(x.name) == Some([DOT, DOT])
  {
    hide Format;
    var f := Format(x.name).value;
    FormatShort(x.name);
    KeyOfShort(f);
    UpperDots(f);
  }

  lemma FormatShort(n: Name11)
    ensures Format(n).Some? ==> |Format(n).value| < MAX_NAME
  {
  }

  lemma UpperDots(f: seq<Byte>)
    ensures Upper(f) == [DOT] <==> f == [DOT]
    ensures Upper(f) == [DOT, DOT] <==> f == [DOT, DOT]
  {
    var u := Upper(f);
    if |f| == 1 { assert u[0] == UpperByte(f[0]); }
    if |f| == 2 { assert u[0] == UpperByte(f[0]) && u[1] == UpperByte(f[1]); }
  }

  lemma RestUnused(s: State, c: nat, i: nat)
    requires c in s.dirs && c in s.at && DirGood(s, c) && i < |s.dirs[c]| && s.dirs[c][i].name[0] == 0
    ensures forall j | i <= j < |s.dirs[c]| :: V.Ref(c, j) !in s.ents
  {
    hide KeyAt, Readable;
    forall j | i <= j < |s.dirs[c]| ensures V.Ref(c, j) !in s.ents {
      assert SlotAgrees(s.ents, V.Ref(c, j), s.dirs[c][j]);
    }
  }

  /** Every entry has a name. */
  lemma EntryShows(s: State, r: V.Ref)
    requires Good(s) && r in s.ents
    ensures exists k :: k in TreeOf(s) && k.dir == r.dir
  {
    hide KeyAt, Readable, UpGood, TreeOf, IsDots, HasDirBit, DotKey;
    FileEntry(s, r);
    GoodAt(s, r.dir);
    var x := s.dirs[r.dir][r.index];
    assert SlotAgrees(s.ents, r, x) by { assert SlotAgrees(s.ents, V.Ref(r.dir, r.index), x); }
    assert SlotOk(x, r.index, s.at[r.dir]);
    InTree(s, NKey(r.dir, KeyAt(x)));
  }

  lemma PutState(s: State, d: nat, i: nat, x: DirSlot, k: seq<Byte>, de: V.Dirent)
    requires d in s.dirs && d in s.at && i < |s.dirs[d]|
    ensures WithEntry(s, d, i, x, k, de) ==
              State(s.dirs[d := s.dirs[d][i := x]], KeysWith(s.at, d, k, i), s.up, s.ents[V.Ref(d, i) := de], s.files)
  {
  }

  lemma ContentsLess(raws: map<V.Ref, seq<Byte>>, ents: map<V.Ref, V.Dirent>, r: V.Ref)
    requires r !in raws
    ensures ContentsOf(raws, ents - {r}) == ContentsOf(raws, ents)
  {
    hide ContentOf;
  }

  lemma ContentsFewer(raws: map<V.Ref, seq<Byte>>, ents: map<V.Ref, V.Dirent>, r: V.Ref)
    ensures ContentsOf(raws - {r}, ents - {r}) == ContentsOf(raws, ents) - {r}
  {
    hide ContentOf;
  }

  /** A name that is there can be taken away. */
  lemma DropReady(s: State, k: NKey, i: nat)
    requires Good(s) && Visible(s, k) && RefAt(s.at, k) == V.Ref(k.dir, i)
    ensures CanDrop(s, k, i)
  {
    hide KeyAt, EntsGood, UpGood, IsLive, IsDots, HasDirBit, DotKey;
    SlotOfKey(s, k);
    GoodAt(s, k.dir);
    Removed(s.dirs[k.dir], s.at[k.dir], k.key);
  }

  /** The answer of an operation on a file: the name must be there, and be a file's. */
  ghost function FileAnswer(at: Index, t: Tree, k: NKey): Errno {
    if k.key !in at then ENOENT else if IsFile(t, k) then OK else EISDIR
  }

  ghost predicate IsFile(t: Tree, k: NKey) {
    k in t && t[k].File?
  }

  ghost function ContentIn(t: Tree, k: NKey): Content {
    if IsFile(t, k) then t[k].content else EMPTY
  }

  ghost function BytesAt(t: Tree, k: NKey): seq<Byte> {
    ContentIn(t, k).bytes
  }

  lemma AnswerIs(at: Index, t: Tree, k: NKey)
    ensures FileAnswer(at, t, k) == OK ==> IsFile(t, k)
    ensures FileAnswer(at, t, k) in {OK, ENOENT, EISDIR}
    ensures IsFile(t, k) && k.key in at ==> FileAnswer(at, t, k) == OK
    ensures !IsFile(t, k) ==> FileAnswer(at, t, k) != OK
  {
  }
}

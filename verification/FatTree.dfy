/** Names and files of a FAT16 volume together: directories of slots on one side,
    entries with their chains on the other, and the tree of names they stand
    for. */
module FatTree {
  import opened Bytes
  import opened FatNames
  import opened FatDirs
  import opened FatVolume
  import opened FatTidy

  const DIR_BIT: Byte := 0x10
  const ARCH_BIT: Byte := 0x20

  const DOT_NAME: Name11 := [DOT, SPACE, SPACE, SPACE, SPACE, SPACE, SPACE, SPACE, SPACE, SPACE, SPACE]
  const DOTDOT_NAME: Name11 := [DOT, DOT, SPACE, SPACE, SPACE, SPACE, SPACE, SPACE, SPACE, SPACE, SPACE]

  predicate HasDirBit(s: DirSlot) {
    s.attr / 16 % 2 == 1
  }

  /** The "." and ".." a subdirectory starts with. They own nothing. */
  predicate IsDots(s: DirSlot) {
    s.name == DOT_NAME || s.name == DOTDOT_NAME
  }

  predicate DotKey(k: seq<Byte>) {
    k == [DOT] || k == [DOT, DOT]
  }

  /** A directory is known by its first cluster, and the root by 0. */
  datatype State = State(dirs: map<nat, seq<DirSlot>>, at: map<nat, Index>, up: map<nat, Ref>, ents: map<Ref, Dirent>,
                         files: map<Ref, Content>)

  /** A live slot other than the dots is an entry of the volume, of the kind its
      attributes say. */
  ghost predicate SlotAgrees(ents: map<Ref, Dirent>, r: Ref, s: DirSlot) {
    && (r in ents <==> IsLive(s) && !IsDots(s))
    && (r in ents ==> ents[r].isDir == HasDirBit(s))
    && (IsLive(s) && DotKey(KeyAt(s)) <==> IsLive(s) && IsDots(s))
    && (IsDots(s) ==> HasDirBit(s))
  }

  ghost predicate DirGood(s: State, d: nat)
    requires d in s.dirs && d in s.at
  {
    DirOk(s.dirs[d], s.at[d]) && forall i | 0 <= i < |s.dirs[d]| :: SlotAgrees(s.ents, Ref(d, i), s.dirs[d][i])
  }

  ghost predicate EntsGood(s: State) {
    && (forall r | r in s.ents :: r.dir in s.dirs && r.index < |s.dirs[r.dir]|)
    && (forall r :: r in s.files <==> r in s.ents && !s.ents[r].isDir)
  }

  /** Each directory but the root has one entry, which names its cluster. */
  ghost predicate UpGood(s: State) {
    && s.up.Keys == s.dirs.Keys - {0}
    && (forall r | r in s.ents && s.ents[r].isDir :: s.ents[r].cluster in s.up && s.up[s.ents[r].cluster] == r)
    && (forall c | c in s.up :: s.up[c] in s.ents && s.ents[s.up[c]].isDir && s.ents[s.up[c]].cluster == c)
  }

  ghost predicate Good(s: State) {
    && 0 in s.dirs && s.at.Keys == s.dirs.Keys
    && (forall d | d in s.dirs :: DirGood(s, d))
    && EntsGood(s) && UpGood(s)
  }

  // ----- the tree -----------------------------------------------------------------------

  /** A name is a directory and what lookups see of the last component. */
  datatype NKey = NKey(dir: nat, key: seq<Byte>)
  datatype Node = Dir(id: nat) | File(content: Content)
  type Tree = map<NKey, Node>

  ghost function RefAt(at: map<nat, Index>, k: NKey): Ref {
    if k.dir in at && k.key in at[k.dir] then Ref(k.dir, at[k.dir][k.key]) else Ref(k.dir, 0)
  }

  ghost predicate Visible(s: State, k: NKey) {
    k.dir in s.at && k.key in s.at[k.dir] && RefAt(s.at, k) in s.ents
  }

  ghost function KeysOf(s: State): set<NKey> {
    set d, k | d in s.at && k in s.at[d] && Visible(s, NKey(d, k)) :: NKey(d, k)
  }

  ghost function NodeOf(s: State, r: Ref): Node {
    if r in s.files then File(s.files[r]) else if r in s.ents then Dir(s.ents[r].cluster) else Dir(0)
  }

  ghost function TreeOf(s: State): Tree {
    map k | k in KeysOf(s) :: NodeOf(s, RefAt(s.at, k))
  }

  lemma InTree(s: State, k: NKey)
    ensures k in TreeOf(s) <==> Visible(s, k)
    ensures k in TreeOf(s) ==> TreeOf(s)[k] == NodeOf(s, RefAt(s.at, k))
  {
    if Visible(s, k) { assert k == NKey(k.dir, k.key); }
  }

  /** Two trees are equal when they have the same names and the same nodes. */
  lemma TreeEq(s: State, t: Tree)
    requires forall k :: Visible(s, k) <==> k in t
    requires forall k | Visible(s, k) && k in t :: NodeOf(s, RefAt(s.at, k)) == t[k]
    ensures TreeOf(s) == t
  {
    forall k ensures k in TreeOf(s) <==> k in t { InTree(s, k); }
    forall k | k in t ensures TreeOf(s)[k] == t[k] { InTree(s, k); }
  }

  /** A name leads to a slot that has it. */
  lemma SlotOfKey(s: State, k: NKey)
    requires Good(s) && k.dir in s.at && k.key in s.at[k.dir]
    ensures k.dir in s.dirs && s.at[k.dir][k.key] < |s.dirs[k.dir]|
    ensures var x := s.dirs[k.dir][s.at[k.dir][k.key]];
            IsLive(x) && KeyAt(x) == k.key && SlotAgrees(s.ents, RefAt(s.at, k), x) && Readable(x)
    ensures Visible(s, k) <==> !DotKey(k.key)
  {
    hide KeyAt, IsLive, IsDots, HasDirBit, DotKey, EntsGood, UpGood;
    var d := k.dir;
    assert DirGood(s, d);
    IndexedLive(s.dirs[d], s.at[d], k.key);
    assert SlotOk(s.dirs[d][s.at[d][k.key]], s.at[d][k.key], s.at[d]);
  }

  lemma OneKey(s: State, k: NKey, k': NKey)
    requires Good(s) && Visible(s, k) && Visible(s, k') && RefAt(s.at, k) == RefAt(s.at, k')
    ensures k == k'
  {
    hide KeyAt, IsLive, SlotAgrees, Good;
    SlotOfKey(s, k);
    SlotOfKey(s, k');
  }

  // ----- what changes do to the tree --------------------------------------------------------

  lemma GoodAt(s: State, d: nat)
    requires Good(s) && d in s.dirs
    ensures d in s.at && DirGood(s, d)
  {
  }

  ghost function WithFile(s: State, r: Ref, de: Dirent, b: Content): State {
    s.(ents := s.ents[r := de], files := s.files[r := b])
  }

  /** New bytes for a file. */
  lemma FileChanged(s: State, k: NKey, de: Dirent, b: Content)
    requires Good(s) && Visible(s, k) && RefAt(s.at, k) in s.files && !de.isDir
    ensures Good(WithFile(s, RefAt(s.at, k), de, b))
    ensures TreeOf(WithFile(s, RefAt(s.at, k), de, b)) == TreeOf(s)[k := File(b)]
  {
    hide SlotAgrees, TreeOf, DirOk, EntsGood, UpGood;
    var r := RefAt(s.at, k);
    var s' := WithFile(s, r, de, b);
    FileEntry(s, r);
    UpSame(s, s', r);
    EntsPut(s, s', r);
    forall d | d in s'.dirs ensures DirGood(s', d) {
      GoodAt(s, d);
      forall i | 0 <= i < |s.dirs[d]| ensures SlotAgrees(s'.ents, Ref(d, i), s.dirs[d][i]) {
        SameKind(s.ents, s'.ents, Ref(d, i), s.dirs[d][i]);
      }
    }
    ChangedTree(s, k, de, b);
  }

  /** A file's entry is no directory's business. */
  lemma UpSame(s: State, s': State, r: Ref)
    requires UpGood(s) && s'.dirs.Keys == s.dirs.Keys && s'.up == s.up
    requires r in s.ents ==> !s.ents[r].isDir
    requires r in s'.ents ==> !s'.ents[r].isDir
    requires forall q | q != r :: (q in s'.ents <==> q in s.ents) && (q in s.ents ==> s'.ents[q] == s.ents[q])
    ensures UpGood(s')
  {
  }

  lemma EntsPut(s: State, s': State, r: Ref)
    requires EntsGood(s) && r in s'.ents && r.dir in s'.dirs && r.index < |s'.dirs[r.dir]|
    requires forall q | q != r :: (q in s'.ents <==> q in s.ents) && (q in s.ents ==> s'.ents[q] == s.ents[q])
    requires r in s'.files <==> !s'.ents[r].isDir
    requires forall q | q != r :: q in s'.files <==> q in s.files
    requires forall d | d in s.dirs :: d in s'.dirs && |s'.dirs[d]| == |s.dirs[d]|
    ensures EntsGood(s')
  {
  }

  lemma SameKind(ents: map<Ref, Dirent>, ents': map<Ref, Dirent>, r: Ref, x: DirSlot)
    requires SlotAgrees(ents, r, x) && (r in ents <==> r in ents') && (r in ents ==> ents'[r].isDir == ents[r].isDir)
    ensures SlotAgrees(ents', r, x)
  {
  }

  lemma FileEntry(s: State, r: Ref)
    requires Good(s)
    ensures r in s.files <==> r in s.ents && !s.ents[r].isDir
    ensures r in s.ents ==> r.dir in s.dirs && r.index < |s.dirs[r.dir]|
  {
  }

  lemma ChangedTree(s: State, k: NKey, de: Dirent, b: Content)
    requires Good(s) && Visible(s, k) && RefAt(s.at, k) in s.ents
    ensures TreeOf(WithFile(s, RefAt(s.at, k), de, b)) == TreeOf(s)[k := File(b)]
  {
    hide Good, TreeOf;
    var r := RefAt(s.at, k);
    var s', t := WithFile(s, r, de, b), TreeOf(s)[k := File(b)];
    forall q ensures Visible(s', q) <==> q in t {
      InTree(s, q);
    }
    forall q | Visible(s', q) && q in t ensures NodeOf(s', RefAt(s'.at, q)) == t[q] {
      InTree(s, q);
      if RefAt(s.at, q) == r { OneKey(s, q, k); }
    }
    TreeEq(s', t);
  }

  function Indexed(a: Index, k: seq<Byte>, i: nat): Index {
    a[k := i]
  }

  ghost function SlotsWith(dirs: map<nat, seq<DirSlot>>, d: nat, i: nat, x: DirSlot): map<nat, seq<DirSlot>> {
    if d in dirs && i < |dirs[d]| then dirs[d := dirs[d][i := x]] else dirs
  }

  ghost function KeysWith(at: map<nat, Index>, d: nat, k: seq<Byte>, i: nat): map<nat, Index> {
    if d in at then at[d := Indexed(at[d], k, i)] else at
  }

  ghost function WithEntry(s: State, d: nat, i: nat, x: DirSlot, k: seq<Byte>, de: Dirent): State {
    s.(dirs := SlotsWith(s.dirs, d, i, x), at := KeysWith(s.at, d, k, i), ents := s.ents[Ref(d, i) := de])
  }

  /** Slot `i` of directory `d` can take `x`, under the new name `k`. */
  ghost predicate CanPut(s: State, d: nat, i: nat, x: DirSlot, k: seq<Byte>, de: Dirent) {
    && Good(s) && d in s.dirs && i < |s.dirs[d]| && d in s.at && IsFree(s.dirs[d][i]) && k !in s.at[d]
    && DirOk(s.dirs[d][i := x], Indexed(s.at[d], k, i))
    && IsLive(x) && !IsDots(x) && KeyAt(x) == k && !DotKey(k) && HasDirBit(x) == de.isDir
  }

  lemma FreeIsNoEntry(s: State, d: nat, i: nat)
    requires Good(s) && d in s.dirs && i < |s.dirs[d]| && IsFree(s.dirs[d][i])
    ensures Ref(d, i) !in s.ents && d in s.at && forall k | k in s.at[d] :: s.at[d][k] != i
  {
    hide KeyAt, EntsGood, UpGood;
    GoodAt(s, d);
    assert SlotAgrees(s.ents, Ref(d, i), s.dirs[d][i]);
    FreeNotIndexed(s.dirs[d], s.at[d], i);
  }

  lemma PutDirs(s: State, d: nat, i: nat, x: DirSlot, k: seq<Byte>, de: Dirent, e: nat)
    requires CanPut(s, d, i, x, k, de) && e in s.dirs
    ensures var s' := WithEntry(s, d, i, x, k, de); e in s'.dirs && e in s'.at && DirGood(s', e)
  {
    hide DirOk, KeyAt, IsLive, IsDots, HasDirBit, DotKey, EntsGood, UpGood;
    FreeIsNoEntry(s, d, i);
    GoodAt(s, e);
    var s' := WithEntry(s, d, i, x, k, de);
    forall j | 0 <= j < |s'.dirs[e]| ensures SlotAgrees(s'.ents, Ref(e, j), s'.dirs[e][j]) {
      if (e, j) != (d, i) { SameKind(s.ents, s'.ents, Ref(e, j), s.dirs[e][j]); }
    }
  }

  lemma PutTree(s: State, d: nat, i: nat, x: DirSlot, k: seq<Byte>, de: Dirent, files: map<Ref, Content>)
    requires CanPut(s, d, i, x, k, de)
    requires forall r | r in s.ents :: r in files <==> r in s.files
    requires forall r | r in s.ents && r in files && r in s.files :: files[r] == s.files[r]
    ensures var s' := WithEntry(s, d, i, x, k, de).(files := files);
            TreeOf(s') == TreeOf(s)[NKey(d, k) := NodeOf(s', Ref(d, i))]
  {
    hide Good, TreeOf, DirOk, KeyAt, IsLive, IsDots, HasDirBit, DotKey;
    FreeIsNoEntry(s, d, i);
    var s' := WithEntry(s, d, i, x, k, de).(files := files);
    var t := TreeOf(s)[NKey(d, k) := NodeOf(s', Ref(d, i))];
    forall q ensures Visible(s', q) <==> q in t {
      InTree(s, q);
    }
    forall q | Visible(s', q) && q in t ensures NodeOf(s', RefAt(s'.at, q)) == t[q] {
      InTree(s, q);
    }
    TreeEq(s', t);
  }

  /** A new file in a free slot. */
  lemma FilePut(s: State, d: nat, i: nat, x: DirSlot, k: seq<Byte>, de: Dirent, b: Content)
    requires CanPut(s, d, i, x, k, de) && !de.isDir
    ensures var s' := WithEntry(s, d, i, x, k, de).(files := s.files[Ref(d, i) := b]);
            Good(s') && TreeOf(s') == TreeOf(s)[NKey(d, k) := File(b)]
  {
    hide CanPut, Good, TreeOf, WithEntry;
    PutParts(s, d, i, x, k, de);
    SameFiles(s);
    PutGood(s, d, i, x, k, de, s.files[Ref(d, i) := b]);
    PutTree(s, d, i, x, k, de, s.files[Ref(d, i) := b]);
  }

  lemma PutGood(s: State, d: nat, i: nat, x: DirSlot, k: seq<Byte>, de: Dirent, files: map<Ref, Content>)
    requires CanPut(s, d, i, x, k, de) && !de.isDir
    requires forall q | q != Ref(d, i) :: q in files <==> q in s.files
    requires Ref(d, i) in files
    ensures Good(WithEntry(s, d, i, x, k, de).(files := files))
  {
    hide CanPut, Good, DirGood, EntsGood, UpGood;
    PutParts(s, d, i, x, k, de);
    var s0 := WithEntry(s, d, i, x, k, de);
    var s' := s0.(files := files);
    UpSame(s, s', Ref(d, i));
    EntsPut(s, s', Ref(d, i));
    forall e | e in s'.dirs ensures e in s'.at && DirGood(s', e) {
      PutDirs(s, d, i, x, k, de, e);
      SameDirs(s0, s', e);
    }
    GoodIntro(s');
  }

  lemma PutParts(s: State, d: nat, i: nat, x: DirSlot, k: seq<Byte>, de: Dirent)
    requires CanPut(s, d, i, x, k, de)
    ensures Good(s) && d in s.dirs && d in s.at && i < |s.dirs[d]| && Ref(d, i) !in s.ents && 0 in s.dirs &&
              s.at.Keys == s.dirs.Keys
    ensures EntsGood(s) && UpGood(s)
  {
    FreeIsNoEntry(s, d, i);
  }

  lemma GoodIntro(s: State)
    requires 0 in s.dirs && s.at.Keys == s.dirs.Keys && (forall d | d in s.dirs :: d in s.at && DirGood(s, d)) &&
              EntsGood(s) && UpGood(s)
    ensures Good(s)
  {
  }

  lemma SameFiles(s: State)
    requires Good(s)
    ensures forall r | r in s.files :: r in s.ents
  {
  }

  lemma SameDirs(s: State, s': State, d: nat)
    requires d in s.dirs && d in s.at && d in s'.dirs && d in s'.at && DirGood(s, d)
    requires s'.dirs[d] == s.dirs[d] && s'.at[d] == s.at[d]
    requires forall r: Ref | r.dir == d :: (r in s'.ents <==> r in s.ents) && (r in s.ents ==> s'.ents[r] == s.ents[r])
    ensures DirGood(s', d)
  {
    hide DirOk, KeyAt, IsLive, IsDots, HasDirBit, DotKey;
    forall i | 0 <= i < |s.dirs[d]| ensures SlotAgrees(s'.ents, Ref(d, i), s.dirs[d][i]) {
      SameKind(s.ents, s'.ents, Ref(d, i), s.dirs[d][i]);
    }
  }

  // ----- a new directory -------------------------------------------------------------------

  /** The slots of a directory that holds nothing but its dots. */
  ghost predicate OnlyDots(slots: seq<DirSlot>, at: Index) {
    && DirOk(slots, at)
    && forall i | 0 <= i < |slots| ::
         && (IsLive(slots[i]) ==> IsDots(slots[i]) && DotKey(KeyAt(slots[i])))
         && (IsDots(slots[i]) ==> HasDirBit(slots[i]))
  }

  ghost function WithDir(s: State, c: nat, slots: seq<DirSlot>, at: Index, r: Ref): State {
    s.(dirs := s.dirs[c := slots], at := s.at[c := at], up := s.up[c := r])
  }

  lemma DirPut(s: State, d: nat, i: nat, x: DirSlot, k: seq<Byte>, de: Dirent, slots: seq<DirSlot>, at: Index)
    requires CanPut(s, d, i, x, k, de) && de.isDir && de.cluster != 0 && de.cluster !in s.dirs && OnlyDots(slots, at)
    ensures var s' := WithDir(WithEntry(s, d, i, x, k, de), de.cluster, slots, at, Ref(d, i));
            Good(s') && TreeOf(s') == TreeOf(s)[NKey(d, k) := Dir(de.cluster)]
  {
    hide CanPut, Good, TreeOf, WithEntry, WithDir, OnlyDots;
    DirPutGood(s, d, i, x, k, de, slots, at);
    DirPutTree(s, d, i, x, k, de, slots, at);
  }

  lemma DirPutGood(s: State, d: nat, i: nat, x: DirSlot, k: seq<Byte>, de: Dirent, slots: seq<DirSlot>, at: Index)
    requires CanPut(s, d, i, x, k, de) && de.isDir && de.cluster != 0 && de.cluster !in s.dirs && OnlyDots(slots, at)
    ensures Good(WithDir(WithEntry(s, d, i, x, k, de), de.cluster, slots, at, Ref(d, i)))
  {
    hide CanPut, Good, DirGood, EntsGood, UpGood, OnlyDots;
    PutParts(s, d, i, x, k, de);
    var s0, c := WithEntry(s, d, i, x, k, de), de.cluster;
    var s' := WithDir(s0, c, slots, at, Ref(d, i));
    UpPut(s, s', c, Ref(d, i));
    FileEntry(s, Ref(d, i));
    EntsPut(s, s', Ref(d, i));
    forall e | e in s'.dirs ensures e in s'.at && DirGood(s', e) {
      if e == c {
        NoEntriesIn(s, c);
        DotsGood(s', c);
      } else {
        PutDirs(s, d, i, x, k, de, e);
        SameDirs(s0, s', e);
      }
    }
    GoodIntro(s');
  }

  lemma UpPut(s: State, s': State, c: nat, r: Ref)
    requires UpGood(s) && c !in s.dirs && c != 0 && s'.dirs.Keys == s.dirs.Keys + {c} && s'.up == s.up[c := r]
    requires r !in s.ents && r in s'.ents && s'.ents[r].isDir && s'.ents[r].cluster == c
    requires forall q | q != r :: (q in s'.ents <==> q in s.ents) && (q in s.ents ==> s'.ents[q] == s.ents[q])
    ensures UpGood(s')
  {
  }

  lemma NoEntriesIn(s: State, c: nat)
    requires EntsGood(s) && c !in s.dirs
    ensures forall r | r in s.ents :: r.dir != c
  {
  }

  lemma DotsGood(s: State, c: nat)
    requires c in s.dirs && c in s.at && OnlyDots(s.dirs[c], s.at[c]) && forall r | r in s.ents :: r.dir != c
    ensures DirGood(s, c)
  {
    hide DirOk, KeyAt, IsLive, HasDirBit;
    forall i | 0 <= i < |s.dirs[c]| ensures SlotAgrees(s.ents, Ref(c, i), s.dirs[c][i]) {
    }
  }

  lemma DirPutTree(s: State, d: nat, i: nat, x: DirSlot, k: seq<Byte>, de: Dirent, slots: seq<DirSlot>, at: Index)
    requires CanPut(s, d, i, x, k, de) && de.isDir && de.cluster != 0 && de.cluster !in s.dirs
    ensures TreeOf(WithDir(WithEntry(s, d, i, x, k, de), de.cluster, slots, at, Ref(d, i))) ==
              TreeOf(s)[NKey(d, k) := Dir(de.cluster)]
  {
    hide CanPut, Good, TreeOf, EntsGood, UpGood;
    PutParts(s, d, i, x, k, de);
    PutTree(s, d, i, x, k, de, s.files);
    FileEntry(s, Ref(d, i));
    NoEntriesIn(s, de.cluster);
    var s0 := WithEntry(s, d, i, x, k, de);
    var s', t := WithDir(s0, de.cluster, slots, at, Ref(d, i)), TreeOf(s)[NKey(d, k) := Dir(de.cluster)];
    forall q ensures Visible(s', q) <==> q in t {
      InTree(s0, q);
    }
    forall q | Visible(s', q) && q in t ensures NodeOf(s', RefAt(s'.at, q)) == t[q] {
      InTree(s0, q);
    }
    TreeEq(s', t);
  }

  // ----- a name goes -----------------------------------------------------------------------

  /** The slot as a deletion leaves it. */
  function Deleted(x: DirSlot): DirSlot {
    x.(name := x.name[0 := GONE])
  }

  ghost function KeysWithout(at: map<nat, Index>, d: nat, k: seq<Byte>): map<nat, Index> {
    if d in at then at[d := at[d] - {k}] else at
  }

  ghost function WithoutEntry(s: State, k: NKey, i: nat): State {
    s.(dirs := if k.dir in s.dirs && i < |s.dirs[k.dir]| then SlotsWith(s.dirs, k.dir, i,
        Deleted(s.dirs[k.dir][i])) else s.dirs,
       at := KeysWithout(s.at, k.dir, k.key),
       ents := s.ents - {Ref(k.dir, i)}, files := s.files - {Ref(k.dir, i)})
  }

  lemma DeletedAgrees(ents: map<Ref, Dirent>, r: Ref, x: DirSlot)
    requires r !in ents
    ensures SlotAgrees(ents, r, Deleted(x))
  {
  }

  ghost predicate CanDrop(s: State, k: NKey, i: nat) {
    && Good(s) && Visible(s, k) && RefAt(s.at, k) == Ref(k.dir, i) && k.dir in s.dirs && i < |s.dirs[k.dir]|
    && DirOk(s.dirs[k.dir][i := Deleted(s.dirs[k.dir][i])], s.at[k.dir] - {k.key})
  }

  lemma DropDirs(s: State, k: NKey, i: nat, e: nat)
    requires CanDrop(s, k, i) && e in s.dirs
    ensures var s' := WithoutEntry(s, k, i); e in s'.dirs && e in s'.at && DirGood(s', e)
  {
    hide DirOk, KeyAt, IsLive, IsDots, HasDirBit, DotKey, EntsGood, UpGood, Deleted;
    GoodAt(s, e);
    var s', r := WithoutEntry(s, k, i), Ref(k.dir, i);
    forall j | 0 <= j < |s'.dirs[e]| ensures SlotAgrees(s'.ents, Ref(e, j), s'.dirs[e][j]) {
      if Ref(e, j) == r {
        DeletedAgrees(s'.ents, r, s.dirs[e][j]);
      } else {
        SameKind(s.ents, s'.ents, Ref(e, j), s.dirs[e][j]);
      }
    }
  }

  lemma DropTree(s: State, k: NKey, i: nat)
    requires CanDrop(s, k, i)
    ensures TreeOf(WithoutEntry(s, k, i)) == TreeOf(s) - {k}
  {
    hide Good, TreeOf, DirOk, Deleted, SlotsWith;
    var s', t := WithoutEntry(s, k, i), TreeOf(s) - {k};
    forall q ensures Visible(s', q) <==> q in t {
      InTree(s, q);
      if Visible(s, q) && RefAt(s.at, q) == RefAt(s.at, k) { OneKey(s, q, k); }
    }
    forall q | Visible(s', q) && q in t ensures NodeOf(s', RefAt(s'.at, q)) == t[q] {
      InTree(s, q);
    }
    TreeEq(s', t);
  }

  lemma DropParts(s: State, k: NKey, i: nat)
    requires CanDrop(s, k, i)
    ensures Good(s) && EntsGood(s) && UpGood(s) && 0 in s.dirs && s.at.Keys == s.dirs.Keys && k.dir in s.dirs &&
              Ref(k.dir, i) in s.ents
  {
  }

  lemma EntsDrop(s: State, s': State, r: Ref)
    requires EntsGood(s) && s'.ents == s.ents - {r} && s'.files == s.files - {r}
    requires forall q | q in s'.ents :: q.dir in s'.dirs && (q.dir in s.dirs ==> |s'.dirs[q.dir]| == |s.dirs[q.dir]|)
    ensures EntsGood(s')
  {
  }

  /** A file's name goes. */
  lemma FileDropped(s: State, k: NKey, i: nat)
    requires CanDrop(s, k, i) && Ref(k.dir, i) in s.files
    ensures Good(WithoutEntry(s, k, i)) && TreeOf(WithoutEntry(s, k, i)) == TreeOf(s) - {k}
  {
    hide CanDrop, Good, DirGood, TreeOf, EntsGood, UpGood, Deleted;
    DropParts(s, k, i);
    DropTree(s, k, i);
    var s', r := WithoutEntry(s, k, i), Ref(k.dir, i);
    FileEntry(s, r);
    UpSame(s, s', r);
    forall q | q in s'.ents ensures q.dir in s'.dirs && |s'.dirs[q.dir]| == |s.dirs[q.dir]| {
      FileEntry(s, q);
    }
    EntsDrop(s, s', r);
    forall e | e in s'.dirs ensures e in s'.at && DirGood(s', e) {
      DropDirs(s, k, i, e);
    }
    GoodIntro(s');
  }

  ghost function WithoutDir(s: State, c: nat): State {
    s.(dirs := s.dirs - {c}, at := s.at - {c}, up := s.up - {c})
  }

  /** An empty directory goes. */
  lemma DirDropped(s: State, k: NKey, i: nat, c: nat)
    requires CanDrop(s, k, i) && Ref(k.dir, i) in s.ents && s.ents[Ref(k.dir, i)].isDir &&
              s.ents[Ref(k.dir, i)].cluster == c
    requires forall r | r in s.ents :: r.dir != c
    ensures var s' := WithoutDir(WithoutEntry(s, k, i), c); Good(s') && TreeOf(s') == TreeOf(s) - {k}
  {
    hide CanDrop, Good, DirGood, TreeOf, EntsGood, UpGood, Deleted;
    DropParts(s, k, i);
    DropTree(s, k, i);
    var s0, r := WithoutEntry(s, k, i), Ref(k.dir, i);
    var s' := WithoutDir(s0, c);
    FileEntry(s, r);
    UpHas(s, r);
    UpDrop(s, s', c, r);
    forall q | q in s'.ents ensures q.dir in s'.dirs && q.dir in s.dirs && |s'.dirs[q.dir]| == |s.dirs[q.dir]| {
      FileEntry(s, q);
    }
    EntsDrop(s, s', r);
    forall e | e in s'.dirs ensures e in s'.at && DirGood(s', e) {
      DropDirs(s, k, i, e);
      SameDirs(s0, s', e);
    }
    GoodIntro(s');
    CutDirTree(s0, c);
  }

  lemma UpHas(s: State, r: Ref)
    requires UpGood(s) && r in s.ents && s.ents[r].isDir
    ensures s.ents[r].cluster in s.up && s.up[s.ents[r].cluster] == r && s.ents[r].cluster != 0 &&
              s.ents[r].cluster in s.dirs
  {
  }

  lemma UpDrop(s: State, s': State, c: nat, r: Ref)
    requires UpGood(s) && r in s.ents && s.ents[r].isDir && s.ents[r].cluster == c
    requires s'.dirs.Keys == s.dirs.Keys - {c} && s'.up == s.up - {c} && s'.ents == s.ents - {r}
    ensures UpGood(s')
  {
  }

  lemma CutDirTree(s: State, c: nat)
    requires forall r | r in s.ents :: r.dir != c
    ensures TreeOf(WithoutDir(s, c)) == TreeOf(s)
  {
    hide TreeOf;
    var s' := WithoutDir(s, c);
    forall q ensures Visible(s', q) <==> q in TreeOf(s) {
      InTree(s, q);
    }
    forall q | Visible(s', q) && q in TreeOf(s) ensures NodeOf(s', RefAt(s'.at, q)) == TreeOf(s)[q] {
      InTree(s, q);
    }
    TreeEq(s', TreeOf(s));
  }
}

/** The FAT16 engine (fs/fat16_disk.c): mirrored allocation tables, cluster
    chains under directory entries, and file I/O along them. */
module FatVolume {
  import opened Bytes
  import opened Outcomes
  import opened FatChain
  import opened FatBytes

  const UINT32_MAX := 0xFFFF_FFFF
  const MAX_CLUSTER := 65536 // 128 sectors, as far as `fat16_load_bpb` goes

  /** Where a directory entry lives, and the part of it that matters here. */
  datatype Ref = Ref(dir: nat, index: nat)
  datatype Dirent = Dirent(cluster: U16, size: nat, isDir: bool)

  /** Which place in which entry's chain a cluster takes. */
  datatype Place = Place(ref: Ref, at: nat)
  type Places = map<U16, Place>

  /** As `o` is a map, a cluster has one place: so the chain has no cycle, and
      two entries' chains have no cluster in common. */
  ghost predicate OwnsChain(o: Places, r: Ref, xs: seq<U16>) {
    forall i | 0 <= i < |xs| :: xs[i] in o && o[xs[i]] == Place(r, i)
  }

  ghost predicate EntryOk(fat: Table, n: nat, cb: nat, o: Places, r: Ref, de: Dirent, xs: seq<U16>) {
    && OwnsChain(o, r, xs) && IsChain(fat, n, xs)
    && (if de.cluster < 2 then xs == [] else xs != [] && xs[0] == de.cluster)
    && de.size <= |xs| * cb
  }

  /** Allocated clusters outside `mine` keep their link, their bytes and their
      place. */
  ghost predicate KeepsRest(fat: Table, data: Clusters, o: Places, fat': Table, data': Clusters, o': Places, n: nat,
                            mine: seq<U16>) {
    && |fat'| == |fat| && |data'| == |data| && n <= |fat| && n <= |data|
    && forall c: U16 | 2 <= c < n && fat[c] != FREE && c !in mine ::
         && fat'[c] == fat[c] && data'[c] == data[c]
         && (c in o ==> c in o' && o'[c] == o[c])
  }

  lemma KeepsRestTrans(fat: Table, data: Clusters, o: Places, fat1: Table, data1: Clusters, o1: Places,
                       fat2: Table, data2: Clusters, o2: Places, n: nat, mine: seq<U16>, mine1: seq<U16>)
    requires KeepsRest(fat, data, o, fat1, data1, o1, n, mine)
    requires KeepsRest(fat1, data1, o1, fat2, data2, o2, n, mine1)
    requires forall c: U16 | 2 <= c < n && fat[c] != FREE && c in mine1 :: c in mine
    ensures KeepsRest(fat, data, o, fat2, data2, o2, n, mine)
  {
  }

  /** Another entry's chain, and the bytes in it, survive. */
  lemma OtherEntryKept(fat: Table, data: Clusters, o: Places, fat': Table, data': Clusters, o': Places, n: nat, cb: nat,
                       r: Ref, mine: seq<U16>, g: Ref, de: Dirent, xs: seq<U16>)
    requires KeepsRest(fat, data, o, fat', data', o', n, mine) && OwnsChain(o, r, mine) && g != r
    requires EntryOk(fat, n, cb, o, g, de, xs)
    ensures EntryOk(fat', n, cb, o', g, de, xs)
    ensures forall i | 0 <= i < |xs| :: data'[xs[i]] == data[xs[i]]
  {
    ChainNotFree(fat, n, xs);
    forall i | 0 <= i < |xs|
      ensures fat'[xs[i]] == fat[xs[i]] && data'[xs[i]] == data[xs[i]] && xs[i] in o' && o'[xs[i]] == o[xs[i]]
    {
      forall j | 0 <= j < |mine| ensures mine[j] != xs[i] {
        assert o[mine[j]] == Place(r, j) && o[xs[i]] == Place(g, i);
      }
    }
    ChainKept(fat, fat', n, xs);
  }

  /** Entry `r`'s chain `xs` has become `ys` by appending cleared clusters that
      were free, and nothing else changed. */
  ghost predicate Grown(fat: Table, data: Clusters, o: Places, fat': Table, data': Clusters, o': Places,
                        n: nat, cb: nat, r: Ref, xs: seq<U16>, ys: seq<U16>)
  {
    && IsChain(fat', n, ys) && OwnsChain(o', r, ys) && xs <= ys
    && KeepsRest(fat, data, o, fat', data', o', n, xs)
    && (forall i | 0 <= i < |xs| :: xs[i] < n && data'[xs[i]] == data[xs[i]])
    && (forall i | |xs| <= i < |ys| :: data'[ys[i]] == Zeros(cb) && fat[ys[i]] == FREE)
  }

  lemma GrownSelf(fat: Table, data: Clusters, o: Places, n: nat, cb: nat, r: Ref, xs: seq<U16>)
    requires IsChain(fat, n, xs) && OwnsChain(o, r, xs) && n <= |data|
    ensures Grown(fat, data, o, fat, data, o, n, cb, r, xs, xs)
  {
  }

  /** Linking one more cleared cluster behind the last one. */
  lemma GrownStep(fat: Table, data: Clusters, o: Places, fat1: Table, data1: Clusters, o1: Places,
                  n: nat, cb: nat, r: Ref, xs: seq<U16>, ys: seq<U16>, c: U16)
    requires Grown(fat, data, o, fat1, data1, o1, n, cb, r, xs, ys) && ys != []
    requires 2 <= c < n && fat1[c] == FREE
    ensures c !in ys
    ensures Grown(fat, data, o, fat1[c := END][ys[|ys| - 1] := c], data1[c := Zeros(cb)], o1[c := Place(r, |ys|)], n,
              cb, r, xs, ys + [c])
  {
    hide Zeros;
    var last := ys[|ys| - 1];
    ChainNotFree(fat1, n, ys);
    assert c !in ys;
    var fat2: Table := fat1[c := END];
    ChainKept(fat1, fat2, n, ys);
    assert Distinct(ys) by { OwnedDistinct(o1, r, ys); }
    ChainExtend(fat2, n, ys, c);
    assert fat[c] == FREE || c in xs;
    assert last in xs || fat[last] == FREE;
  }

  lemma GrownFirst(fat: Table, data: Clusters, o: Places, n: nat, cb: nat, r: Ref, c: U16)
    requires 2 <= c < n <= |fat| && n <= |data| && n <= BAD && fat[c] == FREE
    ensures Grown(fat, data, o, fat[c := END], data[c := Zeros(cb)], o[c := Place(r, 0)], n, cb, r, [], [c])
  {
  }

  lemma GrownTrans(fat: Table, data: Clusters, o: Places, fat1: Table, data1: Clusters, o1: Places,
                   fat2: Table, data2: Clusters, o2: Places, n: nat, cb: nat, r: Ref, xs: seq<U16>, zs: seq<U16>,
                     ys: seq<U16>)
    requires Grown(fat, data, o, fat1, data1, o1, n, cb, r, xs, zs)
    requires Grown(fat1, data1, o1, fat2, data2, o2, n, cb, r, zs, ys)
    ensures Grown(fat, data, o, fat2, data2, o2, n, cb, r, xs, ys)
  {
    hide Zeros;
    ChainNotFree(fat1, n, zs);
    assert forall i | 0 <= i < |xs| :: xs[i] == zs[i];
    KeepsRestTrans(fat, data, o, fat1, data1, o1, fat2, data2, o2, n, xs, zs);
    forall i | |xs| <= i < |ys|
      ensures data2[ys[i]] == Zeros(cb) && fat[ys[i]] == FREE
    {
    }
  }

  /** A failed growth of an entry that had no chain yet leaves it without one. */
  lemma GrownAside(fat: Table, data: Clusters, o: Places, fat': Table, data': Clusters, o': Places,
                   n: nat, cb: nat, r: Ref, ys: seq<U16>)
    requires Grown(fat, data, o, fat', data', o', n, cb, r, [], ys)
    ensures KeepsRest(fat, data, o, fat', data', o', n, [])
    ensures IsChain(fat', n, []) && OwnsChain(o', r, [])
  {
  }

  lemma GrownHolds(fat: Table, data: Clusters, o: Places, fat': Table, data': Clusters, o': Places,
                   n: nat, cb: nat, r: Ref, xs: seq<U16>, ys: seq<U16>)
    requires Grown(fat, data, o, fat', data', o', n, cb, r, xs, ys)
    ensures IsChain(fat', n, ys) && OwnsChain(o', r, ys) && xs <= ys
    ensures KeepsRest(fat, data, o, fat', data', o', n, xs)
  {
  }

  lemma AsideIsResized(fat: Table, data: Clusters, o: Places, fat': Table, data': Clusters, o': Places, n: nat,
                       cb: nat, r: Ref)
    requires KeepsRest(fat, data, o, fat', data', o', n, []) && n <= BAD
    ensures Resized(fat, data, o, fat', data', o', n, cb, r, [], [])
  {
  }

  lemma GrownOnTable(fat: Table, data: Clusters, o: Places, fat1: Table, data1: Clusters, o1: Places,
                     n: nat, cb: nat, r: Ref, xs: seq<U16>, ys: seq<U16>)
    requires Grown(fat, data, o, fat1, data1, o1, n, cb, r, xs, ys)
    ensures forall i | 0 <= i < |ys| :: 2 <= ys[i] < n
  {
  }

  lemma LastNotFree(fat: Table, data: Clusters, o: Places, fat1: Table, data1: Clusters, o1: Places,
                    n: nat, cb: nat, r: Ref, xs: seq<U16>, ys: seq<U16>)
    requires Grown(fat, data, o, fat1, data1, o1, n, cb, r, xs, ys) && ys != []
    ensures ys[|ys| - 1] < |fat1| && fat1[ys[|ys| - 1]] != FREE
  {
    hide Grown;
    GrownHolds(fat, data, o, fat1, data1, o1, n, cb, r, xs, ys);
    ChainNotFree(fat1, n, ys);
  }

  /** Entry `r`'s chain `xs` has become `ys`: the common part keeps its order
      and its bytes, clusters that were appended were free and are cleared,
      clusters that were cut off are free, and no other entry is affected. */
  ghost predicate Resized(fat: Table, data: Clusters, o: Places, fat': Table, data': Clusters, o': Places,
                          n: nat, cb: nat, r: Ref, xs: seq<U16>, ys: seq<U16>)
  {
    && IsChain(fat', n, ys) && OwnsChain(o', r, ys)
    && KeepsRest(fat, data, o, fat', data', o', n, xs)
    && (forall i | 0 <= i < |xs| && i < |ys| :: ys[i] == xs[i] && data'[xs[i]] == data[xs[i]])
    && (forall i | |xs| <= i < |ys| :: data'[ys[i]] == Zeros(cb) && fat[ys[i]] == FREE)
    && (forall i | |ys| <= i < |xs| :: xs[i] < |fat'| && fat'[xs[i]] == FREE)
  }

  lemma GrownIsResized(fat: Table, data: Clusters, o: Places, fat': Table, data': Clusters, o': Places,
                       n: nat, cb: nat, r: Ref, xs: seq<U16>, ys: seq<U16>)
    requires Grown(fat, data, o, fat', data', o', n, cb, r, xs, ys)
    ensures Resized(fat, data, o, fat', data', o', n, cb, r, xs, ys)
  {
  }

  /** Growing and then cutting to `k` clusters, no fewer than needed. */
  lemma GrownThenCut(fat: Table, data: Clusters, o: Places, fat1: Table, data1: Clusters, o1: Places, fat2: Table,
                     n: nat, cb: nat, r: Ref, xs: seq<U16>, ys: seq<U16>, k: nat)
    requires Grown(fat, data, o, fat1, data1, o1, n, cb, r, xs, ys)
    requires 0 < k <= |ys| && (|ys| > |xs| ==> k == |ys|)
    requires IsChain(fat2, n, ys[..k]) && |fat2| == |fat1|
    requires forall i | k <= i < |ys| :: fat2[ys[i]] == FREE
    requires forall c: U16 | c < |fat1| && c !in ys :: fat2[c] == fat1[c]
    ensures Resized(fat, data, o, fat2, data1, o1, n, cb, r, xs, ys[..k])
  {
    hide Zeros;
    forall c: U16 | 2 <= c < n && fat[c] != FREE && c !in xs
      ensures fat2[c] == fat[c]
    {
      assert c !in ys;
    }
  }

  lemma OwnedDistinct(o: Places, r: Ref, xs: seq<U16>)
    requires OwnsChain(o, r, xs)
    ensures Distinct(xs)
  {
  }

  ghost predicate AllOk(fat: Table, n: nat, cb: nat, o: Places, ents: map<Ref, Dirent>, chains: map<Ref, seq<U16>>) {
    chains.Keys == ents.Keys && forall r | r in ents :: EntryOk(fat, n, cb, o, r, ents[r], chains[r])
  }

  /** The bytes in the clusters of an entry, and the part its size covers. */
  ghost function RawOf(data: Clusters, cb: nat, xs: seq<U16>): seq<Byte> {
    if Sized(data, cb, xs) then Raw(data, cb, xs) else []
  }

  ghost function FileOf(data: Clusters, cb: nat, de: Dirent, xs: seq<U16>): seq<Byte> {
    Fit(RawOf(data, cb, xs), de.size)
  }

  ghost function FilesOf(data: Clusters, cb: nat, ents: map<Ref, Dirent>, chains: map<Ref, seq<U16>>): map<Ref,
                         seq<Byte>>
  {
    map r | r in ents && r in chains && !ents[r].isDir :: FileOf(data, cb, ents[r], chains[r])
  }

  /** All the bytes in each regular file's clusters, past its size too. */
  ghost function RawsOf(data: Clusters, cb: nat, ents: map<Ref, Dirent>, chains: map<Ref, seq<U16>>): map<Ref,
                        seq<Byte>>
  {
    map r | r in ents && r in chains && !ents[r].isDir :: RawOf(data, cb, chains[r])
  }

  /** A step for entry `r` leaves every other entry sound, with the same chain
      and the same bytes. */
  lemma EntriesKept(fat: Table, data: Clusters, o: Places, fat': Table, data': Clusters, o': Places, n: nat, cb: nat,
                    ents: map<Ref, Dirent>, chains: map<Ref, seq<U16>>, r: Ref, de: Dirent, ys: seq<U16>)
    requires AllOk(fat, n, cb, o, ents, chains) && r in ents
    requires KeepsRest(fat, data, o, fat', data', o', n, chains[r])
    requires EntryOk(fat', n, cb, o', r, de, ys) && de.isDir == ents[r].isDir
    requires n <= |data| && forall c | 0 <= c < n :: |data[c]| == cb
    ensures AllOk(fat', n, cb, o', ents[r := de], chains[r := ys])
    ensures ents[r].isDir ==> FilesOf(data', cb, ents[r := de], chains[r := ys]) == FilesOf(data, cb, ents, chains)
    ensures !ents[r].isDir ==>
              FilesOf(data', cb, ents[r := de], chains[r := ys]) == FilesOf(data, cb, ents, chains)[r := FileOf(data',
                  cb, de, ys)]
    ensures RawsOf(data', cb, ents[r := de], chains[r := ys]) ==
              if ents[r].isDir then
                   RawsOf(data, cb, ents, chains) else RawsOf(data, cb, ents, chains)[r := RawOf(data', cb, ys)]
  {
    hide KeepsRest, EntryOk, FileOf, RawOf, FilesOf, RawsOf;
    forall g | g in ents && g != r
      ensures EntryOk(fat', n, cb, o', g, ents[g], chains[g])
      ensures FileOf(data', cb, ents[g], chains[g]) == FileOf(data, cb, ents[g], chains[g])
      ensures RawOf(data', cb, chains[g]) == RawOf(data, cb, chains[g])
    {
      OtherFileKept(fat, data, o, fat', data', o', n, cb, r, ents[r], chains[r], g, ents[g], chains[g]);
    }
    FilesKept(data, data', cb, ents, chains, r, de, ys);
    RawsKept(data, data', cb, ents, chains, r, de, ys);
  }

  lemma FilesKept(data: Clusters, data': Clusters, cb: nat, ents: map<Ref, Dirent>, chains: map<Ref, seq<U16>>, r: Ref,
                  de: Dirent, ys: seq<U16>)
    requires r in ents && chains.Keys == ents.Keys && de.isDir == ents[r].isDir
    requires forall g | g in ents && g != r ::
              FileOf(data', cb, ents[g], chains[g]) == FileOf(data, cb, ents[g], chains[g])
    ensures FilesOf(data', cb, ents[r := de], chains[r := ys]) ==
              if de.isDir then
                   FilesOf(data, cb, ents, chains) else FilesOf(data, cb, ents, chains)[r := FileOf(data', cb, de, ys)]
  {
    hide FileOf;
    var m, m' := FilesOf(data, cb, ents, chains), FilesOf(data', cb, ents[r := de], chains[r := ys]);
    forall g | g in m' && g != r ensures g in m && m'[g] == m[g] {
    }
  }

  lemma RawsKept(data: Clusters, data': Clusters, cb: nat, ents: map<Ref, Dirent>, chains: map<Ref, seq<U16>>, r: Ref,
                 de: Dirent, ys: seq<U16>)
    requires r in ents && chains.Keys == ents.Keys && de.isDir == ents[r].isDir
    requires forall g | g in ents && g != r :: RawOf(data', cb, chains[g]) == RawOf(data, cb, chains[g])
    ensures RawsOf(data', cb, ents[r := de], chains[r := ys]) ==
              if de.isDir then
                   RawsOf(data, cb, ents, chains) else RawsOf(data, cb, ents, chains)[r := RawOf(data', cb, ys)]
  {
    hide RawOf;
    var m, m' := RawsOf(data, cb, ents, chains), RawsOf(data', cb, ents[r := de], chains[r := ys]);
    forall g | g in m' && g != r ensures g in m && m'[g] == m[g] {
    }
  }

  lemma OtherFileKept(fat: Table, data: Clusters, o: Places, fat': Table, data': Clusters, o': Places, n: nat, cb: nat,
                      r: Ref, de0: Dirent, mine: seq<U16>, g: Ref, de: Dirent, xs: seq<U16>)
    requires KeepsRest(fat, data, o, fat', data', o', n, mine) && EntryOk(fat, n, cb, o, r, de0, mine) && g != r
    requires EntryOk(fat, n, cb, o, g, de, xs)
    requires n <= |data| && forall c | 0 <= c < n :: |data[c]| == cb
    ensures EntryOk(fat', n, cb, o', g, de, xs)
    ensures RawOf(data', cb, xs) == RawOf(data, cb, xs)
    ensures FileOf(data', cb, de, xs) == FileOf(data, cb, de, xs)
  {
    hide Fit;
    OtherEntryKept(fat, data, o, fat', data', o', n, cb, r, mine, g, de, xs);
    RawSame(data, data', cb, xs);
  }

  lemma RawBounds(fat: Table, data: Clusters, n: nat, cb: nat, o: Places, r: Ref, de: Dirent, xs: seq<U16>)
    requires EntryOk(fat, n, cb, o, r, de, xs) && n <= |data| && forall c | 0 <= c < n :: |data[c]| == cb
    ensures Sized(data, cb, xs) && |RawOf(data, cb, xs)| == |xs| * cb >= de.size
    ensures FileOf(data, cb, de, xs) == RawOf(data, cb, xs)[..de.size]
  {
    RawLength(data, cb, xs);
  }

  lemma FitTwice(s: seq<Byte>, m: nat, k: nat)
    ensures k <= m ==> Fit(Fit(s, m), k) == Fit(s, k)
  {
  }

  lemma FileAt(data: Clusters, cb: nat, de: Dirent, xs: seq<U16>)
    ensures FileOf(data, cb, de, xs) == Fit(RawOf(data, cb, xs), de.size)
  {
  }

  lemma FileBytes(data: Clusters, cb: nat, ents: map<Ref, Dirent>, chains: map<Ref, seq<U16>>, r: Ref)
    requires r in chains && r in ents && !ents[r].isDir
    ensures r in FilesOf(data, cb, ents, chains)
    ensures FilesOf(data, cb, ents, chains)[r] == FileOf(data, cb, ents[r], chains[r])
    ensures FilesOf(data, cb, ents, chains)[r := FileOf(data, cb, ents[r], chains[r])] ==
              FilesOf(data, cb, ents, chains)
  {
  }

  lemma RawsAt(data: Clusters, cb: nat, ents: map<Ref, Dirent>, chains: map<Ref, seq<U16>>, r: Ref)
    requires r in chains && r in ents && !ents[r].isDir
    ensures r in RawsOf(data, cb, ents, chains) && RawsOf(data, cb, ents, chains)[r] == RawOf(data, cb, chains[r])
  {
  }

  lemma ResizedHolds(fat: Table, data: Clusters, o: Places, fat': Table, data': Clusters, o': Places,
                     n: nat, cb: nat, r: Ref, xs: seq<U16>, ys: seq<U16>)
    requires Resized(fat, data, o, fat', data', o', n, cb, r, xs, ys)
    ensures IsChain(fat', n, ys) && OwnsChain(o', r, ys) && KeepsRest(fat, data, o, fat', data', o', n, xs)
  {
  }

  lemma RawIs(data: Clusters, cb: nat, xs: seq<U16>)
    requires Sized(data, cb, xs)
    ensures RawOf(data, cb, xs) == Raw(data, cb, xs)
  {
  }

  /** The directory's answer to a request for a slot. */
  datatype Slot = NoSlot(why: Errno) | FreeSlot(ref: Ref)

  ghost predicate SlotFits(slot: Slot, ents: map<Ref, Dirent>) {
    if slot.FreeSlot? then slot.ref !in ents else slot.why != OK
  }

  /** A new entry with its own chain joins the others. */
  lemma EntryAdded(fat: Table, data: Clusters, o: Places, fat': Table, data': Clusters, o': Places, n: nat, cb: nat,
                   ents: map<Ref, Dirent>, chains: map<Ref, seq<U16>>, r: Ref, de: Dirent, ys: seq<U16>)
    requires AllOk(fat, n, cb, o, ents, chains) && r !in ents
    requires KeepsRest(fat, data, o, fat', data', o', n, [])
    requires EntryOk(fat', n, cb, o', r, de, ys)
    requires n <= |data| && forall c | 0 <= c < n :: |data[c]| == cb
    ensures AllOk(fat', n, cb, o', ents[r := de], chains[r := ys])
    ensures de.isDir ==> FilesOf(data', cb, ents[r := de], chains[r := ys]) == FilesOf(data, cb, ents, chains)
    ensures !de.isDir ==>
              FilesOf(data', cb, ents[r := de], chains[r := ys]) == FilesOf(data, cb, ents, chains)[r := FileOf(data',
                  cb, de, ys)]
    ensures RawsOf(data', cb, ents[r := de], chains[r := ys]) ==
              if de.isDir then
                   RawsOf(data, cb, ents, chains) else RawsOf(data, cb, ents, chains)[r := RawOf(data', cb, ys)]
  {
    hide KeepsRest, EntryOk, FileOf, RawOf;
    NoChain(fat, n, cb, o, r);
    forall g | g in ents
      ensures EntryOk(fat', n, cb, o', g, ents[g], chains[g])
      ensures FileOf(data', cb, ents[g], chains[g]) == FileOf(data, cb, ents[g], chains[g])
      ensures RawOf(data', cb, chains[g]) == RawOf(data, cb, chains[g])
    {
      ChainBound(fat, n, cb, o, g, ents[g], chains[g]);
      OtherFileKept(fat, data, o, fat', data', o', n, cb, r, Dirent(0, 0, false), [], g, ents[g], chains[g]);
    }
  }

  lemma NoChain(fat: Table, n: nat, cb: nat, o: Places, r: Ref)
    ensures n <= |fat| && n <= BAD ==> EntryOk(fat, n, cb, o, r, Dirent(0, 0, false), [])
  {
  }

  lemma ChainOnTable(fat: Table, n: nat, cb: nat, o: Places, ents: map<Ref, Dirent>, chains: map<Ref, seq<U16>>, r: Ref)
    requires AllOk(fat, n, cb, o, ents, chains) && r in ents
    ensures r in chains && forall i | 0 <= i < |chains[r]| :: chains[r][i] < |fat|
  {
    EntryAt(fat, n, cb, o, ents, chains, r);
  }

  lemma FileSize(fat: Table, data: Clusters, n: nat, cb: nat, o: Places, r: Ref, de: Dirent, xs: seq<U16>)
    requires EntryOk(fat, n, cb, o, r, de, xs) && n <= |data| && forall c | 0 <= c < n :: |data[c]| == cb
    ensures |FileOf(data, cb, de, xs)| == de.size
  {
    RawBounds(fat, data, n, cb, o, r, de, xs);
  }

  lemma SliceAll(s: seq<Byte>)
    ensures Slice(s, 0, |s|) == s
  {
  }

  lemma FreshRaw(data: Clusters, cb: nat)
    ensures RawOf(data, cb, []) == []
  {
  }

  lemma OverAll(s: seq<Byte>)
    ensures Over(Fit([], |s|), 0, s) == s
  {
  }

  lemma EntryAt(fat: Table, n: nat, cb: nat, o: Places, ents: map<Ref, Dirent>, chains: map<Ref, seq<U16>>, r: Ref)
    requires AllOk(fat, n, cb, o, ents, chains) && r in ents
    ensures r in chains && EntryOk(fat, n, cb, o, r, ents[r], chains[r])
  {
  }

  lemma ChainBound(fat: Table, n: nat, cb: nat, o: Places, r: Ref, de: Dirent, xs: seq<U16>)
    requires EntryOk(fat, n, cb, o, r, de, xs)
    ensures n <= |fat| && n <= BAD
  {
  }

  /** The first cluster of an entry is not free. */
  lemma ClusterTaken(fat: Table, n: nat, cb: nat, o: Places, ents: map<Ref, Dirent>, chains: map<Ref, seq<U16>>, g: Ref)
    requires AllOk(fat, n, cb, o, ents, chains) && g in ents && ents[g].cluster >= 2
    ensures ents[g].cluster < |fat| && fat[ents[g].cluster] != FREE
  {
    EntryAt(fat, n, cb, o, ents, chains, g);
    ChainNotFree(fat, n, chains[g]);
  }

  /** An entry whose chain was freed leaves the others as they were. */
  lemma EntryRemoved(fat: Table, data: Clusters, o: Places, fat': Table, n: nat, cb: nat,
                     ents: map<Ref, Dirent>, chains: map<Ref, seq<U16>>, r: Ref)
    requires AllOk(fat, n, cb, o, ents, chains) && r in ents
    requires KeepsRest(fat, data, o, fat', data, o, n, chains[r])
    requires n <= |data| && forall c | 0 <= c < n :: |data[c]| == cb
    ensures AllOk(fat', n, cb, o, ents - {r}, chains - {r})
    ensures FilesOf(data, cb, ents - {r}, chains - {r}) == FilesOf(data, cb, ents, chains) - {r}
    ensures RawsOf(data, cb, ents - {r}, chains - {r}) == RawsOf(data, cb, ents, chains) - {r}
  {
    hide KeepsRest, EntryOk, FileOf;
    forall g | g in ents && g != r
      ensures EntryOk(fat', n, cb, o, g, ents[g], chains[g])
    {
      OtherFileKept(fat, data, o, fat', data, o, n, cb, r, ents[r], chains[r], g, ents[g], chains[g]);
    }
  }

  lemma KeepsSelf(fat: Table, data: Clusters, o: Places, n: nat)
    requires n <= |fat| && n <= |data|
    ensures KeepsRest(fat, data, o, fat, data, o, n, [])
  {
  }

  lemma KeepsBack(fat: Table, data: Clusters, o: Places, fat1: Table, data1: Clusters, o1: Places, n: nat)
    requires KeepsRest(fat, data, o, fat1, data1, o1, n, [])
    ensures KeepsRest(fat, data, o, fat, data1, o1, n, [])
  {
  }

  lemma FreedKeeps(fat: Table, data: Clusters, o: Places, fat': Table, n: nat, xs: seq<U16>)
    requires n <= |fat| && n <= |data| && |fat'| == |fat|
    requires forall c: U16 | c < |fat| && c !in xs :: fat'[c] == fat[c]
    ensures KeepsRest(fat, data, o, fat', data, o, n, xs)
  {
  }

  /** Clusters taken and given back, or lost, concern no entry. */
  lemma EntriesAside(fat: Table, data: Clusters, o: Places, fat': Table, data': Clusters, o': Places, n: nat, cb: nat,
                     ents: map<Ref, Dirent>, chains: map<Ref, seq<U16>>)
    requires AllOk(fat, n, cb, o, ents, chains)
    requires KeepsRest(fat, data, o, fat', data', o', n, [])
    requires n <= |data| && forall c | 0 <= c < n :: |data[c]| == cb
    ensures AllOk(fat', n, cb, o', ents, chains)
    ensures FilesOf(data', cb, ents, chains) == FilesOf(data, cb, ents, chains)
    ensures RawsOf(data', cb, ents, chains) == RawsOf(data, cb, ents, chains)
  {
    hide KeepsRest, EntryOk, FileOf, RawOf;
    forall g | g in ents
      ensures EntryOk(fat', n, cb, o', g, ents[g], chains[g])
      ensures FileOf(data', cb, ents[g], chains[g]) == FileOf(data, cb, ents[g], chains[g])
      ensures RawOf(data', cb, chains[g]) == RawOf(data, cb, chains[g])
    {
      ChainBound(fat, n, cb, o, g, ents[g], chains[g]);
      var r := Ref(g.dir + 1, 0);
      NoChain(fat, n, cb, o, r);
      OtherFileKept(fat, data, o, fat', data', o', n, cb, r, Dirent(0, 0, false), [], g, ents[g], chains[g]);
    }
  }

  /** Writing bytes into a chain disturbs no other. */
  lemma DataWriteKeeps(fat: Table, data: Clusters, o: Places, data': Clusters, n: nat, xs: seq<U16>)
    requires n <= |fat| && n <= |data| && |data'| == |data|
    requires forall c: U16 | c < n && c !in xs :: data'[c] == data[c]
    ensures KeepsRest(fat, data, o, fat, data', o, n, xs)
  {
  }

  /** Overlaying inside the clusters and then looking at the first `size` bytes. */
  lemma OverFit(s: seq<Byte>, off: int, buf: seq<Byte>, m: nat, size: nat)
    requires size <= m
    ensures Fit(Over(Fit(s, m), off, buf), size) == Over(Fit(s, size), off, buf)
  {
  }

  lemma ResizedBytes(fat: Table, data: Clusters, o: Places, fat': Table, data': Clusters, o': Places,
                     n: nat, cb: nat, r: Ref, xs: seq<U16>, ys: seq<U16>)
    requires Resized(fat, data, o, fat', data', o', n, cb, r, xs, ys) && IsChain(fat, n, xs)
    requires n <= |data| && forall c | 0 <= c < n :: |data[c]| == cb
    requires n <= |data'| && forall c | 0 <= c < n :: |data'[c]| == cb
    ensures RawOf(data', cb, ys) == Fit(RawOf(data, cb, xs), |ys| * cb)
  {
    hide Fit, Zeros, Raw;
    RawResized(data, data', cb, xs, ys);
  }

  /** A resized chain, seen through the maps of entries. */
  lemma ResizedMaps(fat: Table, data: Clusters, o: Places, fat': Table, data': Clusters, o': Places, n: nat, cb: nat,
                    ents: map<Ref, Dirent>, chains: map<Ref, seq<U16>>, r: Ref, de: Dirent, ys: seq<U16>)
    requires AllOk(fat, n, cb, o, ents, chains) && r in ents && r in chains && !ents[r].isDir && !de.isDir
    requires Resized(fat, data, o, fat', data', o', n, cb, r, chains[r], ys) && EntryOk(fat', n, cb, o', r, de, ys)
    requires n <= |data| && (forall c | 0 <= c < n :: |data[c]| == cb) && n <= |data'| && forall c | 0 <= c < n ::
              |data'[c]| == cb
    ensures AllOk(fat', n, cb, o', ents[r := de], chains[r := ys])
    ensures RawOf(data', cb, ys) == Fit(RawOf(data, cb, chains[r]), |ys| * cb)
    ensures RawsOf(data', cb, ents[r := de], chains[r := ys]) ==
              RawsOf(data, cb, ents, chains)[r := Fit(RawOf(data, cb, chains[r]), |ys| * cb)]
    ensures FilesOf(data', cb, ents[r := de], chains[r := ys]) ==
              FilesOf(data, cb, ents, chains)[r := Fit(RawOf(data, cb, chains[r]), de.size)]
  {
    hide KeepsRest, Resized, OwnsChain, IsChain, FilesOf, RawsOf, FileOf, RawOf, Fit, AllOk;
    EntryAt(fat, n, cb, o, ents, chains, r);
    ResizedHolds(fat, data, o, fat', data', o', n, cb, r, chains[r], ys);
    ResizedBytes(fat, data, o, fat', data', o', n, cb, r, chains[r], ys);
    EntriesKept(fat, data, o, fat', data', o', n, cb, ents, chains, r, de, ys);
    FileAt(data', cb, de, ys);
    FitTwice(RawOf(data, cb, chains[r]), |ys| * cb, de.size);
  }

  /** How many clusters `need` bytes take. */
  function Ceil(need: nat, cb: nat): (k: nat)
    requires cb > 0
  {
    (need + cb - 1) / cb
  }

  lemma CeilBounds(need: nat, cb: nat)
    requires cb > 0
    ensures need <= Ceil(need, cb) * cb
    ensures need > 0 ==> (Ceil(need, cb) - 1) * cb < need && Ceil(need, cb) > 0
  {
    var k := Ceil(need, cb);
    assert need + cb - 1 == k * cb + (need + cb - 1) % cb;
    if k == 0 { assert need + cb - 1 < cb; }
  }

  lemma CeilUnique(need: nat, cb: nat, k: nat)
    requires cb > 0 && k > 0 && (k - 1) * cb < need <= k * cb
    ensures Ceil(need, cb) == k
  {
    CeilBounds(need, cb);
    var m := Ceil(need, cb);
    if m < k { LengthsOrdered(m, k - 1, cb); }
    if k < m { LengthsOrdered(k, m - 1, cb); }
  }

  ghost function Below(n: nat): (b: set<nat>)
    ensures |b| == n && forall x: nat :: x in b <==> x < n
  {
    if n == 0 then {} else Below(n - 1) + {n - 1}
  }

  /** Distinct numbers below `n` are no more than `n`. */
  lemma {:induction false} DistinctBound(ys: seq<U16>, n: nat)
    requires Distinct(ys) && forall i | 0 <= i < |ys| :: ys[i] < n
    ensures |ys| <= n
  {
    var low := Below(n);
    var seen := {};
    for i := 0 to |ys|
      invariant |seen| == i && seen <= low && forall x | x in seen :: exists j :: 0 <= j < i && ys[j] == x
    {
      assert ys[i] !in seen;
      var next: set<nat> := seen + {ys[i]};
      forall x | x in next ensures exists j :: 0 <= j < i + 1 && ys[j] == x {
        if x in seen { var j :| 0 <= j < i && ys[j] == x; }
      }
      seen := next;
    }
    assert low == seen + (low - seen);
  }

  /** The size of a file that has its clusters fits the 32 bits it is stored in. */
  lemma SizeFits(fat: Table, n: nat, cb: nat, o: Places, r: Ref, ys: seq<U16>, need: nat)
    requires IsChain(fat, n, ys) && OwnsChain(o, r, ys) && n <= BAD && 0 < cb <= MAX_CLUSTER && |ys| == Ceil(need, cb)
    ensures need % (UINT32_MAX + 1) == need
  {
    hide IsChain, OwnsChain;
    OwnedDistinct(o, r, ys);
    ChainInRange(fat, n, ys);
    DistinctBound(ys, n);
    CeilBounds(need, cb);
    LengthsOrdered(|ys|, n, cb);
    LengthsOrdered(cb, MAX_CLUSTER, n);
  }

  lemma EntryFits(fat: Table, n: nat, cb: nat, o: Places, r: Ref, de: Dirent, xs: seq<U16>)
    requires EntryOk(fat, n, cb, o, r, de, xs) && 0 < cb <= MAX_CLUSTER
    ensures de.size <= UINT32_MAX
  {
    hide OwnsChain;
    OwnedDistinct(o, r, xs);
    DistinctBound(xs, n);
    LengthsOrdered(|xs|, n, cb);
    LengthsOrdered(cb, MAX_CLUSTER, n);
  }

  lemma ChainInRange(fat: Table, n: nat, ys: seq<U16>)
    requires IsChain(fat, n, ys)
    ensures forall i | 0 <= i < |ys| :: ys[i] < n
  {
  }

  /** Growing a chain of `a` clusters to `b`, out of `free` ones, for `need` bytes. */
  lemma NeededClusters(need: nat, cb: nat, a: nat, b: nat, free: nat, left: nat, err: Errno)
    requires cb > 0 && left + b == free + a && a <= b
    ensures err == OK && need <= b * cb && (b > a ==> (b - 1) * cb < need) ==> Ceil(need, cb) <= a + free
    ensures err != OK && left == 0 && b * cb < need ==> Ceil(need, cb) > a + free
  {
    CeilBounds(need, cb);
    var m := Ceil(need, cb);
    if err == OK && need <= b * cb && (b > a ==> (b - 1) * cb < need) && m > b { LengthsOrdered(b, m - 1, cb); }
    if err != OK && b * cb < need && m <= b { LengthsOrdered(m, b, cb); }
  }

  /** The clusters of a file after a write, from the bytes they held and the old
      size. */
  function WrittenRaw(raw: seq<Byte>, size: nat, cb: nat, off: nat, buf: seq<Byte>): seq<Byte>
    requires cb > 0
  {
    Over(if off + |buf| > size then Fit(raw, Ceil(off + |buf|, cb) * cb) else raw, off, buf)
  }

  /** The clusters nobody has. */
  ghost function FreeSet(fat: Table, n: nat): set<nat> {
    set x: nat | 2 <= x < n && x < |fat| && fat[x] == FREE
  }

  lemma FreeTaken(fat: Table, n: nat, c: U16, v: U16)
    requires 2 <= c < n <= |fat| && fat[c] == FREE && v != FREE
    ensures |FreeSet(fat[c := v], n)| == |FreeSet(fat, n)| - 1
  {
    var t: Table := fat[c := v];
    assert FreeSet(t, n) == FreeSet(fat, n) - {c};
  }

  lemma FreeSame(fat: Table, n: nat, c: U16, v: U16)
    requires c < |fat| && fat[c] != FREE && v != FREE
    ensures |FreeSet(fat[c := v], n)| == |FreeSet(fat, n)|
  {
    var t: Table := fat[c := v];
    assert FreeSet(t, n) == FreeSet(fat, n);
  }

  lemma FreeNone(fat: Table, n: nat)
    requires n <= |fat|
    ensures |FreeSet(fat, n)| == 0 <==> forall x | 2 <= x < n :: fat[x] != FREE
  {
    if |FreeSet(fat, n)| == 0 {
      assert FreeSet(fat, n) == {};
      forall x | 2 <= x < n ensures fat[x] != FREE { assert x !in FreeSet(fat, n); }
    } else {
      var x :| x in FreeSet(fat, n);
    }
  }

  /** A chain that is freed adds its length. */
  lemma FreeAdded(fat: Table, fat': Table, n: nat, xs: seq<U16>)
    requires IsChain(fat, n, xs) && Distinct(xs) && |fat'| == |fat|
    requires forall c: U16 | c < |fat| :: fat'[c] == if c in xs then FREE else fat[c]
    ensures |FreeSet(fat', n)| == |FreeSet(fat, n)| + |xs|
  {
    ChainNotFree(fat, n, xs);
    var m := Members(xs);
    MembersCount(xs);
    assert FreeSet(fat', n) == FreeSet(fat, n) + m && FreeSet(fat, n) !! m;
  }

  ghost function Members(xs: seq<U16>): set<nat> {
    set i | 0 <= i < |xs| :: xs[i] as nat
  }

  lemma {:induction false} MembersCount(xs: seq<U16>)
    requires Distinct(xs)
    ensures |Members(xs)| == |xs|
  {
    if xs != [] {
      var k := |xs| - 1;
      MembersCount(xs[..k]);
      MembersLast(xs);
    }
  }

  lemma MembersLast(xs: seq<U16>)
    requires Distinct(xs) && xs != []
    ensures var k := |xs| - 1; Members(xs) == Members(xs[..k]) + {xs[k] as nat} && xs[k] as nat !in Members(xs[..k])
  {
    var k := |xs| - 1;
    var ys := xs[..k];
    forall x | x in Members(xs) ensures x in Members(ys) || x == xs[k] {
      var i :| 0 <= i < |xs| && xs[i] as nat == x;
      assert i < k ==> ys[i] == xs[i];
    }
    forall x | x in Members(ys) ensures x in Members(xs) && x != xs[k] {
      var i :| 0 <= i < |ys| && ys[i] as nat == x;
      assert xs[i] == ys[i];
    }
  }

  /** Zeros were added behind entry `r`'s clusters, and nothing else happened. */
  ghost predicate GrownRaw(raws: map<Ref, seq<Byte>>, raws': map<Ref, seq<Byte>>, r: Ref) {
    r in raws && exists m: nat :: |raws[r]| <= m && raws' == raws[r := Fit(raws[r], m)]
  }

  lemma GrownBy(raws: map<Ref, seq<Byte>>, raws': map<Ref, seq<Byte>>, r: Ref, m: nat)
    requires r in raws && |raws[r]| <= m && raws' == raws[r := Fit(raws[r], m)]
    ensures GrownRaw(raws, raws', r)
  {
  }

  lemma OneCluster(c: U16)
    ensures Distinct([c])
  {
  }

  lemma NothingWritten(cb: nat)
    requires cb > 0
    ensures WrittenRaw([], 0, cb, 0, []) == []
  {
  }

  lemma FileIn(data: Clusters, cb: nat, ents: map<Ref, Dirent>, chains: map<Ref, seq<U16>>, r: Ref)
    requires r in ents ==> r in chains
    ensures r in FilesOf(data, cb, ents, chains) <==> r in ents && !ents[r].isDir
    ensures r in RawsOf(data, cb, ents, chains) <==> r in ents && !ents[r].isDir
  {
  }

  class Volume {
    const cb: nat       // bytes per cluster
    const n: nat        // data_clusters + 2
    var fats: seq<Table>
    var data: Clusters
    var ents: map<Ref, Dirent>
    ghost var chains: map<Ref, seq<U16>>
    ghost var owner: Places

    /** Mount a well-formed volume: equal copies of the table, large enough for its
        clusters, and chains that belong to one entry each. */
    constructor (cb: nat, n: nat, fats: seq<Table>, data: Clusters, ents: map<Ref, Dirent>, ghost chains: map<Ref,
                 seq<U16>>, ghost owner: Places)
      requires 0 < cb <= MAX_CLUSTER && |data| == n && (forall c | 0 <= c < n :: |data[c]| == cb)
      requires |fats| > 0 && n <= BAD && n <= |fats[0]| <= 65536 && forall i | 0 <= i < |fats| :: fats[i] == fats[0]
      requires AllOk(fats[0], n, cb, owner, ents, chains)
      ensures Valid() && this.cb == cb && this.n == n && this.fats == fats && this.data == data && this.ents == ents
    {
      hide AllOk;
      this.cb, this.n, this.fats, this.data, this.ents := cb, n, fats, data, ents;
      this.chains, this.owner := chains, owner;
    }

    /** All copies of the table agree and cover every data cluster. */
    ghost predicate Mirrored()
      reads this`fats
    {
      |fats| > 0 && n <= BAD && n <= |fats[0]| <= 65536 && forall i | 0 <= i < |fats| :: fats[i] == fats[0]
    }

    function GetFat(c: U16): U16
      requires |fats| > 0 && c < |fats[0]|
      reads this`fats
    {
      fats[0][c]
    }

    /** `fat16_set_fat`: the same entry of every copy. */
    method SetFat(c: U16, v: U16)
      requires Mirrored() && c < |fats[0]|
      modifies this`fats
      ensures Mirrored() && fats[0] == old(fats[0])[c := v] && |fats| == |old(fats)|
    {
      ghost var f0 := fats;
      ghost var put: Table := fats[0][c := v];
      for i := 0 to |fats|
        invariant |fats| == |f0|
        invariant forall j | 0 <= j < |fats| :: fats[j] == if j < i then put else f0[0]
      {
        var copy: Table := fats[i][c := v];
        fats := fats[i := copy];
      }
    }

    /** `fat16_free_chain` ends on every table whose links stay in range, cyclic
        or not, and frees exactly the clusters the links lead to. */
    method FreeChain(start: U16)
      requires Mirrored() && WalkInRange(fats[0], n, start)
      modifies this`fats
      ensures Mirrored() && |fats| == |old(fats)| && |fats[0]| == |old(fats[0])|
      ensures forall x: U16 | x < |fats[0]| ::
                fats[0][x] == if Reaches(old(fats[0]), start, x) then FREE else old(fats[0])[x]
    {
      hide Reaches, Follow, MetBefore, WalkInRange;
      ghost var f0 := fats[0];
      FollowZero(f0, n, start);
      var c := start;
      ghost var k: nat := 0;
      while Frees(c)
        invariant Mirrored() && |fats| == |old(fats)| && |fats[0]| == |f0|
        invariant forall x: U16 | x < |f0| :: fats[0][x] == if MetBefore(f0, start, k, x) then FREE else f0[x]
        invariant c == Follow(f0, start, k) || (c == 0 && MetBefore(f0, start, k, Follow(f0, start, k)))
        decreases (set x: U16 | x < n && fats[0][x] != FREE), Frees(c)
      {
        WalkStep(f0, n, start, k);
        ghost var before := set x: U16 | x < n && fats[0][x] != FREE;
        var next := GetFat(c);
        SetFat(c, FREE);
        ghost var after := set x: U16 | x < n && fats[0][x] != FREE;
        assert after <= before && (next != FREE ==> c in before && c !in after);
        if !MetBefore(f0, start, k, c) {
          forall x: U16 ensures MetBefore(f0, start, k + 1, x) <==> MetBefore(f0, start, k, x) || x == c {
            MetStep(f0, start, k, x);
          }
          k := k + 1;
        }
        c := next;
      }
      WalkComplete(f0, start, k);
    }

    /** `fat16_alloc_cluster`: the lowest free cluster becomes the end of a
        chain. */
    method AllocCluster() returns (err: Errno, c: U16)
      requires Mirrored()
      modifies this`fats
      ensures Mirrored() && |fats| == |old(fats)|
      ensures err == OK ==> 2 <= c < n && old(fats[0])[c] == FREE && fats[0] == old(fats[0])[c := END]
      ensures err == OK ==> forall x | 2 <= x < c :: fats[0][x] != FREE
      ensures err == OK || err == ENOSPC
      ensures err == ENOSPC ==> fats == old(fats) && forall x | 2 <= x < n :: fats[0][x] != FREE
    {
      var i := 2;
      while i < n
        invariant 2 <= i && fats == old(fats)
        invariant forall x | 2 <= x < i && x < n :: fats[0][x] != FREE
      {
        if GetFat(i) == FREE {
          SetFat(i, END);
          return OK, i;
        }
        i := i + 1;
      }
      return ENOSPC, 0;
    }

    ghost predicate Core()
      reads this`fats, this`data
    {
      Mirrored() && 0 < cb <= MAX_CLUSTER && |data| == n && forall c | 0 <= c < n :: |data[c]| == cb
    }

    /** The chain `xs` of entry `r` is in place. */
    ghost predicate Holds(r: Ref, xs: seq<U16>)
      reads this`fats, this`owner
    {
      |fats| > 0 && IsChain(fats[0], n, xs) && OwnsChain(owner, r, xs)
    }

    /** A fresh zeroed cluster at the end of nobody's chain yet. */
    method FreshCluster(ghost r: Ref, ghost at: nat) returns (err: Errno, c: U16)
      requires Core()
      modifies this`fats, this`data, this`owner
      ensures Core()
      ensures err == OK ==> 2 <= c < n && old(fats[0])[c] == FREE && fats[0] == old(fats[0])[c := END]
      ensures err == OK ==> data == old(data)[c := Zeros(cb)] && owner == old(owner)[c := Place(r, at)]
      ensures err != OK ==> err == ENOSPC && unchanged(this) && forall x | 2 <= x < n :: fats[0][x] != FREE
      ensures err == OK ==> |FreeSet(fats[0], n)| == |old(FreeSet(fats[0], n))| - 1
    {
      hide FreeSet;
      err, c := AllocCluster();
      if err != OK { return; }
      FreeTaken(old(fats[0]), n, c, END);
      data := data[c := Zeros(cb)];
      owner := owner[c := Place(r, at)];
    }

    /** The growing loop of `fat16_ensure_size`: clear fresh clusters and link
        them behind `last` until the chain holds `need` bytes. */
    method ExtendChain(ghost r: Ref, ghost xs: seq<U16>, last0: U16, have0: nat, need: nat)
      returns (err: Errno, have: nat, ghost ys: seq<U16>)
      requires Core() && Holds(r, xs) && xs != [] && last0 == xs[|xs| - 1] && have0 == |xs| * cb
      modifies this`fats, this`data, this`owner
      ensures Core() && have == |ys| * cb && |ys| >= |xs|
      ensures Grown(old(fats[0]), old(data), old(owner), fats[0], data, owner, n, cb, r, xs, ys)
      ensures err == OK ==> have >= need && (|ys| == |xs| || (|ys| - 1) * cb < need)
      ensures err != OK ==> err == ENOSPC && forall x | 2 <= x < n :: fats[0][x] != FREE
      ensures |FreeSet(fats[0], n)| + |ys| == |old(FreeSet(fats[0], n))| + |xs|
      ensures err != OK ==> have < need
    {
      hide Grown, FreeSet;
      have, ys := have0, xs;
      var last := last0;
      GrownSelf(fats[0], data, owner, n, cb, r, xs);
      while have < need
        invariant Core() && have == |ys| * cb && |ys| >= |xs| && ys != [] && last == ys[|ys| - 1]
        invariant Grown(old(fats[0]), old(data), old(owner), fats[0], data, owner, n, cb, r, xs, ys)
        invariant |ys| == |xs| || (|ys| - 1) * cb < need
        invariant |FreeSet(fats[0], n)| + |ys| == |old(FreeSet(fats[0], n))| + |xs|
        decreases need - have
      {
        ghost var f1, d1, o1 := fats[0], data, owner;
        var neu;
        err, neu := FreshCluster(r, |ys|);
        if err != OK { return; }
        GrownStep(old(fats[0]), old(data), old(owner), f1, d1, o1, n, cb, r, xs, ys, neu);
        GrownOnTable(old(fats[0]), old(data), old(owner), f1, d1, o1, n, cb, r, xs, ys);
        LastNotFree(old(fats[0]), old(data), old(owner), f1, d1, o1, n, cb, r, xs, ys);
        FreeSame(fats[0], n, last, neu);
        SetFat(last, neu);
        ghost var ys1 := ys + [neu];
        assert |ys1| * cb == have + cb;
        ys, last, have := ys1, neu, have + cb;
      }
      err := OK;
    }

    /** Free the clusters of `ys` from number `keep` on. */
    method FreeTail(next: U16, ghost ys: seq<U16>, ghost keep: nat)
      requires Core() && keep < |ys| && next == ys[keep] && Distinct(ys) && IsChain(fats[0], n, ys[keep..])
      modifies this`fats
      ensures Core() && |fats| == |old(fats)| && |fats[0]| == |old(fats[0])|
      ensures forall i | keep <= i < |ys| :: ys[i] < |fats[0]| && fats[0][ys[i]] == FREE
      ensures forall c: U16 | c < |fats[0]| && c !in ys[keep..] :: fats[0][c] == old(fats[0])[c]
    {
      hide Reaches, WalkInRange;
      ghost var rest := ys[keep..];
      ChainGivesWalk(fats[0], n, rest);
      ChainReaches(fats[0], n, rest);
      FreeChain(next);
      forall i | keep <= i < |ys| ensures ys[i] < |fats[0]| && fats[0][ys[i]] == FREE {
        assert ys[i] == rest[i - keep] && ys[i] in rest;
      }
    }

    /** The shrinking loop of `fat16_ensure_size`: end the chain after `keep`
        clusters and free the rest. */
    method CutChain(ghost r: Ref, ghost ys: seq<U16>, start: U16, keep: nat)
      requires Core() && Holds(r, ys) && ys != [] && start == ys[0] && 0 < keep <= |ys|
      modifies this`fats
      ensures Core() && |fats[0]| == |old(fats[0])| && IsChain(fats[0], n, ys[..keep])
      ensures forall i | keep <= i < |ys| :: fats[0][ys[i]] == FREE
      ensures forall c: U16 | c < |fats[0]| && c !in ys :: fats[0][c] == old(fats[0])[c]
    {
      hide Reaches, WalkInRange;
      OwnedDistinct(owner, r, ys);
      var c: U16, idx: nat := start, 0;
      while Continues(c)
        invariant 0 <= idx < keep && c == ys[idx] && fats == old(fats)
        decreases keep - idx
      {
        var next := GetFat(c);
        idx := idx + 1;
        if idx == keep {
          ghost var f0 := fats[0];
          ChainCut(f0, n, ys, keep);
          NextInChain(f0, n, ys, keep);
          SetFat(c, END);
          if Continues(next) {
            ghost var f1 := fats[0];
            FreeTail(next, ys, keep);
            ChainKept(f1, fats[0], n, ys[..keep]);
          } else {
            assert keep == |ys|;
          }
          return;
        }
        c := next;
      }
    }

    /** The walk to the last cluster of a chain, adding up the bytes it holds. */
    method WalkToLast(ghost r: Ref, ghost xs: seq<U16>, start: U16) returns (last: U16, have: nat)
      requires Core() && Holds(r, xs) && xs != [] && start == xs[0]
      ensures last == xs[|xs| - 1] && have == |xs| * cb
    {
      var cluster: U16 := start;
      last, have := 0, 0;
      ghost var i := 0;
      while Continues(cluster)
        invariant 0 <= i <= |xs| && have == i * cb
        invariant i < |xs| ==> cluster == xs[i]
        invariant i == |xs| ==> cluster >= END
        invariant i > 0 ==> last == xs[i - 1]
        decreases |xs| - i
      {
        last := cluster;
        have := have + cb;
        assert i < |xs|;
        cluster := GetFat(cluster);
        assert (i + 1) * cb == i * cb + cb;
        i := i + 1;
      }
    }

    ghost predicate Valid()
      reads this`fats, this`data, this`owner, this`ents, this`chains
    {
      Core() && AllOk(fats[0], n, cb, owner, ents, chains)
    }

    /** The first half of `fat16_ensure_size` for `need > 0`: start a chain if
        there is none, and grow it until it holds `need` bytes. */
    method GrowChain(ghost r: Ref, start: U16, need: nat, ghost xs: seq<U16>)
      returns (err: Errno, first: U16, have: nat, ghost ys: seq<U16>)
      requires Core() && need > 0
      requires IsChain(fats[0], n, xs) && OwnsChain(owner, r, xs)
      requires if start < 2 then xs == [] else xs != [] && xs[0] == start
      modifies this`fats, this`data, this`owner
      ensures Core()
      ensures Grown(old(fats[0]), old(data), old(owner), fats[0], data, owner, n, cb, r, xs, ys)
      ensures err == OK ==>
                ys != [] && first == ys[0] && have == |ys| * cb >= need && (|ys| > |xs| ==> (|ys| - 1) * cb < need)
      ensures err != OK ==> err == ENOSPC && forall x | 2 <= x < n :: fats[0][x] != FREE
      ensures |FreeSet(fats[0], n)| + |ys| == |old(FreeSet(fats[0], n))| + |xs|
      ensures err != OK ==> |ys| * cb < need
    {
      hide KeepsRest, Zeros, Grown, OwnsChain, IsChain, FreeSet;
      var last;
      first, have, ys := start, 0, xs;
      ghost var f0, d0, o0 := fats[0], data, owner;
      GrownSelf(f0, d0, o0, n, cb, r, xs);
      if start < 2 {
        err, first := FreshCluster(r, 0);
        if err != OK { return; }
        GrownFirst(f0, d0, o0, n, cb, r, first);
        last, have, ys := first, cb, [first];
      } else {
        last, have := WalkToLast(r, xs, start);
      }
      ghost var zs := ys;
      ghost var f1, d1, o1 := fats[0], data, owner;
      GrownHolds(f0, d0, o0, f1, d1, o1, n, cb, r, xs, zs);
      err, have, ys := ExtendChain(r, zs, last, have, need);
      GrownHolds(f1, d1, o1, fats[0], data, owner, n, cb, r, zs, ys);
      GrownTrans(f0, d0, o0, f1, d1, o1, fats[0], data, owner, n, cb, r, xs, zs, ys);
    }

    /** `fat16_ensure_size` for `need > 0`, up to writing the entry back: the
        chain gets exactly the length `need` calls for. */
    method FitChain(ghost r: Ref, de: Dirent, need: nat, ghost xs: seq<U16>)
      returns (err: Errno, de': Dirent, ghost ys: seq<U16>)
      requires Core() && EntryOk(fats[0], n, cb, owner, r, de, xs) && need > 0
      modifies this`fats, this`data, this`owner
      ensures Core()
      ensures err == OK ==> Resized(old(fats[0]), old(data), old(owner), fats[0], data, owner, n, cb, r, xs, ys)
      ensures err == OK ==> |ys| == Ceil(need, cb) && ys != [] && de' == de.(cluster := ys[0], size := need)
      ensures err != OK ==> err == ENOSPC && forall x | 2 <= x < n :: fats[0][x] != FREE
      ensures err != OK ==> Resized(old(fats[0]), old(data), old(owner), fats[0], data, owner, n, cb, r, xs, ys)
      ensures err != OK ==> EntryOk(fats[0], n, cb, owner, r, de, ys) && xs <= ys
      ensures err == ENOSPC <==> Ceil(need, cb) > |xs| + |old(FreeSet(fats[0], n))|
    {
      hide KeepsRest, Zeros, Grown, Resized, OwnsChain, IsChain, FreeSet;
      CeilBounds(need, cb);
      var first, have;
      ghost var f0, d0, o0 := fats[0], data, owner;
      err, first, have, ys := GrowChain(r, de.cluster, need, xs);
      ghost var f1 := fats[0];
      GrownHolds(f0, d0, o0, f1, data, owner, n, cb, r, xs, ys);
      GrownIsResized(f0, d0, o0, f1, data, owner, n, cb, r, xs, ys);
      NeededClusters(need, cb, |xs|, |ys|, |old(FreeSet(fats[0], n))|, |FreeSet(fats[0], n)|, err);
      FreeNone(f1, n);
      if err != OK {
        if de.cluster < 2 {
          GrownAside(f0, d0, o0, f1, data, owner, n, cb, r, ys);
          AsideIsResized(f0, d0, o0, f1, data, owner, n, cb, r);
          ys := [];
        } else {
          LengthsOrdered(|xs|, |ys|, cb);
        }
        return err, de, ys;
      }
      if |ys| > |xs| { CeilUnique(need, cb, |ys|); }
      if de.size > need || have > need {
        var keep := Ceil(need, cb);
        if keep > |ys| { LengthsOrdered(|ys|, keep - 1, cb); }
        CutChain(r, ys, first, keep);
        GrownThenCut(f0, d0, o0, f1, data, owner, fats[0], n, cb, r, xs, ys, keep);
        ys := ys[..keep];
      } else {
        LengthsOrdered(|ys| - 1, |ys|, cb);
        CeilUnique(need, cb, |ys|);
      }
      de' := de.(cluster := first, size := need);
    }

    ghost function Files(): map<Ref, seq<Byte>>
      reads this`data, this`ents, this`chains
    {
      FilesOf(data, cb, ents, chains)
    }

    ghost function Raws(): map<Ref, seq<Byte>>
      reads this`data, this`ents, this`chains
    {
      RawsOf(data, cb, ents, chains)
    }

    /** All bytes of the clusters of entry `r`, past its size too. */
    ghost function RawBytes(r: Ref): seq<Byte>
      reads this`data, this`chains
    {
      if r in chains then RawOf(data, cb, chains[r]) else []
    }

    /** How many clusters entry `r` has, and how many nobody has. */
    ghost function ChainLen(r: Ref): nat
      reads this`chains
    {
      if r in chains then |chains[r]| else 0
    }

    ghost function Free(): nat
      reads this`fats
    {
      if |fats| > 0 then |FreeSet(fats[0], n)| else 0
    }

    /** Free the whole chain of entry `r`. */
    method DropChain(ghost r: Ref, start: U16, ghost xs: seq<U16>)
      requires Core() && IsChain(fats[0], n, xs) && OwnsChain(owner, r, xs)
      requires if start < 2 then xs == [] else xs != [] && xs[0] == start
      modifies this`fats
      ensures Core() && Resized(old(fats[0]), data, owner, fats[0], data, owner, n, cb, r, xs, [])
    {
      hide Zeros;
      if start >= 2 {
        ChainGivesWalk(fats[0], n, xs);
        ChainReaches(fats[0], n, xs);
        FreeChain(start);
      }
    }

    /** `fat16_ensure_size`: on success the entry has size `need` and a chain of
        exactly the clusters that takes; its bytes are those the old chain held,
        cut or followed by zeros. */
    method EnsureSize(r: Ref, need: nat) returns (err: Errno)
      requires Valid() && r in ents && !ents[r].isDir
      modifies this`fats, this`data, this`owner, this`ents, this`chains
      ensures Valid() && (err == OK || err == ENOSPC)
      ensures r in chains &&
                Resized(old(fats[0]), old(data), old(owner), fats[0], data, owner, n, cb, r, old(chains)[r], chains[r])
      ensures err == OK ==> r in ents && ents == old(ents)[r := Dirent(ents[r].cluster, need, false)]
      ensures err == OK ==> |chains[r]| == Ceil(need, cb)
      ensures err == OK ==> RawBytes(r) == Fit(old(RawBytes(r)), Ceil(need, cb) * cb)
      ensures err == OK ==> Files() == old(Files())[r := Fit(old(RawBytes(r)), need)]
      ensures Raws() == old(Raws())[r := Fit(old(RawBytes(r)), |chains[r]| * cb)]
      ensures err != OK ==> GrownRaw(old(Raws()), Raws(), r)
      ensures err != OK ==> ents == old(ents) && Files() == old(Files()) && forall x | 2 <= x < n :: fats[0][x] != FREE
      ensures err == ENOSPC <==> Ceil(need, cb) > old(ChainLen(r)) + old(Free())
    {
      hide KeepsRest, Zeros, Resized, EntryOk, FilesOf, RawsOf, FileOf, RawOf, Fit, AllOk, GrownRaw, Ceil;
      EntryAt(fats[0], n, cb, owner, ents, chains, r);
      var de := ents[r];
      ghost var f0, d0, o0, e0, c0 := fats[0], data, owner, ents, chains;
      ghost var xs, ys := chains[r], chains[r];
      var de';
      err, de', ys := ResizeChain(r, de, need, xs);
      ResizedMaps(f0, d0, o0, fats[0], data, owner, n, cb, e0, c0, r, de', ys);
      FileBytes(d0, cb, e0, c0, r);
      FileAt(d0, cb, de, xs);
      chains := chains[r := ys];
      if err != OK {
        LengthsOrdered(|xs|, |ys|, cb);
        assert e0[r := de] == e0;
        RawsAt(d0, cb, e0, c0, r);
        RawBounds(f0, d0, n, cb, o0, r, de, xs);
        GrownBy(old(Raws()), Raws(), r, |ys| * cb);
        return;
      }
      ents := ents[r := de'];
    }

    /** The chain and the entry that `fat16_ensure_size` makes of the old ones. */
    method ResizeChain(ghost r: Ref, de: Dirent, need: nat, ghost xs: seq<U16>) returns (err: Errno, de': Dirent,
                       ghost ys: seq<U16>)
      requires Core() && EntryOk(fats[0], n, cb, owner, r, de, xs)
      modifies this`fats, this`data, this`owner
      ensures Core() && (err == OK || err == ENOSPC)
      ensures Resized(old(fats[0]), old(data), old(owner), fats[0], data, owner, n, cb, r, xs, ys)
      ensures EntryOk(fats[0], n, cb, owner, r, de', ys)
      ensures err == OK ==> |ys| == Ceil(need, cb) && de' == Dirent(de'.cluster, need, de.isDir)
      ensures err != OK ==> de' == de && |xs| <= |ys| && forall x | 2 <= x < n :: fats[0][x] != FREE
      ensures err == ENOSPC <==> Ceil(need, cb) > |xs| + |old(FreeSet(fats[0], n))|
    {
      hide KeepsRest, Zeros, Resized, OwnsChain, IsChain;
      CeilBounds(need, cb);
      err := OK;
      if need == 0 {
        DropChain(r, de.cluster, xs);
        de', ys := de.(cluster := 0, size := 0), [];
      } else {
        err, de', ys := FitChain(r, de, need, xs);
        if err != OK { de' := de; }
      }
      ResizedHolds(old(fats[0]), old(data), old(owner), fats[0], data, owner, n, cb, r, xs, ys);
      if err == OK {
        SizeFits(fats[0], n, cb, owner, r, ys, need);
        de' := de'.(size := need % (UINT32_MAX + 1));
      }
    }

    /** `fat16_read_file`: the requested slice of the file's bytes. */
    method ReadFile(r: Ref, count0: nat, offset: int) returns (err: Errno, out: seq<Byte>)
      requires Valid() && r in ents && !ents[r].isDir
      ensures err == if offset < 0 then EINVAL else OK
      ensures err == OK ==> r in Files() && out == Slice(Files()[r], offset, count0)
    {
      hide FilesOf, FileOf, RawOf, Fit, OwnsChain, Raw, Slice;
      if offset < 0 { return EINVAL, []; }
      var de := ents[r];
      ghost var xs := chains[r];
      assert EntryOk(fats[0], n, cb, owner, r, de, xs);
      FileBytes(data, cb, ents, chains, r);
      RawBounds(fats[0], data, n, cb, owner, r, de, xs);
      ghost var file := FileOf(data, cb, de, xs);
      SliceNone(file, offset, count0);
      if offset >= de.size { return OK, []; }
      var count := if count0 > de.size - offset then de.size - offset else count0;
      var cluster: U16, skip: nat := de.cluster, offset;
      out := [];
      ghost var i := 0;
      RawPrefixes(data, cb, xs);
      RawIs(data, cb, xs);
      SliceNone([], offset, count);
      while Continues(cluster) && |out| < count
        invariant 0 <= i <= |xs| && |out| <= count
        invariant if i < |xs| then cluster == xs[i] else cluster >= END
        invariant |out| < count ==> skip == if offset <= i * cb then 0 else offset - i * cb
        invariant out == Slice(Raw(data, cb, xs[..i]), offset, count)
        decreases |xs| - i
      {
        ghost var a := Raw(data, cb, xs[..i]);
        skip, out := CopyOut(data[cluster], skip, out, count);
        RawStep(data, cb, xs, i);
        SliceAppend(a, data[cluster], offset, count);
        SliceNone(Raw(data, cb, xs[..i + 1]), offset, count);
        cluster := GetFat(cluster);
        i := i + 1;
      }
      SliceOfPrefix(data, cb, xs, i, de.size, offset, count0, count);
      return OK, out;
    }

    /** One cluster of a write: read it, lay the bytes over it, and write it
        back if any were. */
    method PutCluster(c: U16, skip0: nat, buf: seq<Byte>, done0: nat) returns (skip: nat, done: nat)
      requires Core() && c < n && done0 < |buf| && (skip0 == 0 || done0 == 0)
      modifies this`data
      ensures Core() && data == old(data)[c := Over(old(data)[c], skip0 - done0, buf)]
      ensures done0 <= done <= |buf|
      ensures done < |buf| ==> skip - done == skip0 - done0 - cb && (skip == 0 || done == 0)
      ensures done == |buf| ==> skip0 - done0 + |buf| <= cb
    {
      hide Over;
      var out;
      skip, done, out := CopyIn(data[c], skip0, buf, done0);
      if done > done0 { data := data[c := out]; }
    }

    /** The copy loop of `fat16_write_file`. */
    method OverlayChain(ghost r: Ref, ghost xs: seq<U16>, start: U16, buf: seq<Byte>, offset: nat) returns (done: nat)
      requires Core() && Holds(r, xs) && (if start < 2 then xs == [] else xs != [] && xs[0] == start)
      requires offset + |buf| <= |xs| * cb
      modifies this`data
      ensures Core() && done == |buf|
      ensures RawOf(data, cb, xs) == Over(old(RawOf(data, cb, xs)), offset, buf)
      ensures forall c: U16 | c < n && c !in xs :: data[c] == old(data)[c]
    {
      hide Raw, Over, OwnsChain;
      OwnedDistinct(owner, r, xs);
      done := 0;
      var cluster: U16, skip: nat := start, offset;
      ghost var d0, i := data, 0;
      OverNothing(d0, cb, xs, offset, buf);
      while Continues(cluster) && done < |buf|
        invariant Core() && 0 <= i <= |xs| && done <= |buf|
        invariant if i < |xs| then cluster == xs[i] else cluster >= END || (xs == [] && cluster < 2)
        invariant done < |buf| ==> skip - done == offset - i * cb && (skip == 0 || done == 0)
        invariant done == |buf| && i < |xs| ==> offset + |buf| <= i * cb || buf == []
        invariant buf == [] ==> data == d0
        invariant Raw(data, cb, xs[..i]) == Over(Raw(d0, cb, xs[..i]), offset, buf)
        invariant forall j | i <= j < |xs| :: data[xs[j]] == d0[xs[j]]
        invariant forall c: U16 | c < n && c !in xs :: data[c] == d0[c]
        decreases |xs| - i
      {
        ghost var d1 := data;
        skip, done := PutCluster(cluster, skip, buf, done);
        RawSame(d1, data, cb, xs[..i]);
        OverStep(d0, data, cb, xs, i, offset, buf);
        assert (i + 1) * cb == i * cb + cb;
        cluster := GetFat(cluster);
        i := i + 1;
      }
      if buf != [] { OverRest(d0, data, cb, xs, i, offset, buf); }
    }

    /** Lay `buf` over entry `r`, whose chain is long enough. */
    method OverlayFile(r: Ref, buf: seq<Byte>, offset: nat) returns (done: nat)
      requires Valid() && r in ents && !ents[r].isDir && offset + |buf| <= ents[r].size
      modifies this`data
      ensures Valid() && done == |buf|
      ensures Files() == old(Files())[r := Over(old(Fit(RawBytes(r), ents[r].size)), offset, buf)]
      ensures RawBytes(r) == Over(old(RawBytes(r)), offset, buf)
      ensures Raws() == old(Raws())[r := Over(old(RawBytes(r)), offset, buf)]
    {
      hide KeepsRest, OwnsChain, IsChain, FilesOf, RawsOf, FileOf, RawOf, Fit, Over;
      ghost var d0, xs, de := data, chains[r], ents[r];
      assert EntryOk(fats[0], n, cb, owner, r, de, xs);
      RawBounds(fats[0], d0, n, cb, owner, r, de, xs);
      done := OverlayChain(r, xs, ents[r].cluster, buf, offset);
      DataWriteKeeps(fats[0], d0, owner, data, n, xs);
      EntriesKept(fats[0], d0, owner, fats[0], data, owner, n, cb, ents, chains, r, de, xs);
      FileAt(data, cb, de, xs);
      FitSame(RawOf(d0, cb, xs));
      OverFit(RawOf(d0, cb, xs), offset, buf, |xs| * cb, de.size);
      assert ents[r := de] == ents && chains[r := xs] == chains;
    }

    /** `fat16_write_file`: the file grows if the write ends past its size, and
        then has `buf` at `offset`. Grown bytes in front of `offset` are what
        the last cluster already held, then zeros. */
    method WriteFile(r: Ref, buf: seq<Byte>, offset: int) returns (err: Errno, nwrote: nat)
      requires Valid() && r in ents && !ents[r].isDir
      modifies this`fats, this`data, this`owner, this`ents, this`chains
      ensures Valid() && r in ents && r in old(ents)
      ensures offset < 0 <==> err == EINVAL
      ensures err == EFBIG <==> offset >= 0 && offset + |buf| > UINT32_MAX
      ensures err == EINVAL || err == EFBIG ==> unchanged(this)
      ensures err == OK ==> nwrote == |buf|
      ensures err == OK ==> Files() == old(Files())[r := Over(Fit(old(RawBytes(r)), ents[r].size), offset, buf)]
      ensures err == OK ==> Raws() == old(Raws())[r := WrittenRaw(old(RawBytes(r)), old(ents)[r].size, cb, offset, buf)]
      ensures err == OK ==> ents == old(ents)[r := ents[r]] && !ents[r].isDir
      ensures err == OK ==>
                ents[r].size == if offset + |buf| > old(ents)[r].size then offset + |buf| else old(ents)[r].size
      ensures err == ENOSPC ==>
                Files() == old(Files()) && ents == old(ents) && forall x | 2 <= x < n :: fats[0][x] != FREE
      ensures err == ENOSPC ==> GrownRaw(old(Raws()), Raws(), r)
      ensures err in {OK, EINVAL, EFBIG, ENOSPC}
      ensures err == ENOSPC <==>
                0 <= offset && old(ents)[r].size < offset + |buf| <= UINT32_MAX &&
                Ceil(offset + |buf|, cb) > old(ChainLen(r)) + old(Free())
    {
      hide Resized, FilesOf, RawsOf, RawOf, Fit, Over, KeepsRest, AllOk, Ceil;
      nwrote := 0;
      if offset < 0 { return EINVAL, 0; }
      if offset + |buf| > UINT32_MAX { return EFBIG, 0; }
      var end := offset + |buf|;
      err := OK;
      if end > ents[r].size {
        err := EnsureSize(r, end);
        if err != OK { return; }
        FitTwice(old(RawBytes(r)), Ceil(end, cb) * cb, end);
        CeilBounds(end, cb);
      }
      nwrote := OverlayFile(r, buf, offset);
    }

    // ----- entries come and go ---------------------------------------------------

    /** The entry-writing part of `fat16_disk_create`. */
    method Create(slot: Slot) returns (err: Errno)
      requires Valid() && SlotFits(slot, ents)
      modifies this`ents, this`chains
      ensures Valid()
      ensures err == (if slot.NoSlot? then slot.why else OK)
      ensures err == OK ==> ents == old(ents)[slot.ref := Dirent(0, 0, false)] && chains == old(chains)[slot.ref := []]
      ensures err == OK ==> Files() == old(Files())[slot.ref := []] && Raws() == old(Raws())[slot.ref := []]
      ensures err != OK ==> unchanged(this)
    {
      hide KeepsRest, OwnsChain, FilesOf, RawsOf;
      FreshRaw(data, cb);
      if slot.NoSlot? { return slot.why; }
      var de := Dirent(0, 0, false);
      KeepsSelf(fats[0], data, owner, n);
      NoChain(fats[0], n, cb, owner, slot.ref);
      EntryAdded(fats[0], data, owner, fats[0], data, owner, n, cb, ents, chains, slot.ref, de, []);
      ents := ents[slot.ref := de];
      chains := chains[slot.ref := []];
      return OK;
    }

    /** `fat16_disk_mkdir`: the directory gets one cluster of its own; if no
        entry slot is left that cluster is given back. */
    method Mkdir(slot: Slot) returns (err: Errno)
      requires Valid() && SlotFits(slot, ents)
      modifies this`fats, this`data, this`owner, this`ents, this`chains
      ensures Valid() && Files() == old(Files()) && Raws() == old(Raws())
      ensures err == OK ==> slot.FreeSlot? && ents.Keys == old(ents).Keys + {slot.ref} && ents[slot.ref].isDir
      ensures err == OK ==>
                slot.FreeSlot? && |chains[slot.ref]| == 1 && chains == old(chains)[slot.ref := chains[slot.ref]]
      ensures err == OK ==>
                ents == old(ents)[slot.ref := ents[slot.ref]] && forall g | g in old(ents) ::
                old(ents)[g].cluster != ents[slot.ref].cluster
      ensures err == OK ==> 2 <= ents[slot.ref].cluster < n
      ensures err != OK ==> ents == old(ents) && chains == old(chains) && fats[0] == old(fats[0])
      ensures err == if forall x | 2 <= x < n ::
                old(fats[0])[x] != FREE then ENOSPC else if slot.NoSlot? then slot.why else OK
    {
      hide KeepsRest, OwnsChain, FilesOf, RawsOf, Zeros, Grown, AllOk, FREE;
      ghost var f0, d0, o0 := fats[0], data, owner;
      ghost var r := if slot.FreeSlot? then slot.ref else Ref(0, 0);
      var c;
      err, c := FreshCluster(r, 0);
      if err != OK { return; }
      GrownFirst(f0, d0, o0, n, cb, r, c);
      GrownAside(f0, d0, o0, fats[0], data, owner, n, cb, r, [c]);
      GrownHolds(f0, d0, o0, fats[0], data, owner, n, cb, r, [], [c]);
      if slot.NoSlot? {
        GiveBack(c, f0, d0, o0);
        return slot.why;
      }
      EntryAdded(f0, d0, o0, fats[0], data, owner, n, cb, ents, chains, slot.ref, Dirent(c, 0, true), [c]);
      forall g | g in ents ensures ents[g].cluster != c {
        if ents[g].cluster >= 2 { ClusterTaken(f0, n, cb, o0, ents, chains, g); }
      }
      ents := ents[slot.ref := Dirent(c, 0, true)];
      chains := chains[slot.ref := [c]];
    }

    /** Free a cluster that was taken for nothing: the table is as it was. */
    method GiveBack(c: U16, ghost f0: Table, ghost d0: Clusters, ghost o0: Places)
      requires Core() && 2 <= c < n && c < |f0| && f0[c] == FREE && fats[0] == f0[c := END] && IsChain(fats[0], n, [c])
      requires KeepsRest(f0, d0, o0, fats[0], data, owner, n, []) && AllOk(f0, n, cb, o0, ents, chains)
      requires n <= |d0| && forall x | 0 <= x < n :: |d0[x]| == cb
      modifies this`fats
      ensures Valid() && fats[0] == f0 && Files() == FilesOf(d0, cb, ents, chains) &&
                Raws() == RawsOf(d0, cb, ents, chains)
    {
      hide KeepsRest, FilesOf, RawsOf, AllOk, IsChain;
      ghost var f1 := fats[0];
      ChainGivesWalk(f1, n, [c]);
      OneCluster(c);
      ChainReaches(f1, n, [c]);
      FreeChain(c);
      assert fats[0] == f0;
      KeepsBack(f0, d0, o0, f1, data, owner, n);
      EntriesAside(f0, d0, o0, fats[0], data, owner, n, cb, ents, chains);
    }

    /** The part `fat16_disk_unlink` and `fat16_disk_rmdir` share: the chain is
        freed and the entry marked deleted. */
    method RemoveEntry(r: Ref)
      requires Valid() && r in ents
      modifies this`fats, this`ents, this`chains
      ensures Valid() && ents == old(ents) - {r} && Files() == old(Files()) - {r} && Raws() == old(Raws()) - {r}
      ensures chains == old(chains) - {r}
      ensures r in old(chains) && |fats[0]| == |old(fats[0])|
      ensures forall c: U16 | c < |fats[0]| :: fats[0][c] == if c in old(chains)[r] then FREE else old(fats[0])[c]
      ensures Free() == old(Free()) + old(ChainLen(r))
    {
      hide KeepsRest, OwnsChain, FilesOf, RawsOf, IsChain, Reaches, WalkInRange, AllOk;
      EntryAt(fats[0], n, cb, owner, ents, chains, r);
      ghost var f0, xs := fats[0], chains[r];
      if ents[r].cluster >= 2 {
        ChainGivesWalk(f0, n, xs);
        ChainReaches(f0, n, xs);
        FreeChain(ents[r].cluster);
      }
      FreedKeeps(f0, data, owner, fats[0], n, xs);
      OwnedDistinct(owner, r, xs);
      FreeAdded(f0, fats[0], n, xs);
      EntryRemoved(f0, data, owner, fats[0], n, cb, ents, chains, r);
      ents, chains := ents - {r}, chains - {r};
    }

    /** `fat16_disk_unlink`: the entry and its clusters are gone. */
    method Unlink(r: Ref) returns (err: Errno)
      requires Valid()
      modifies this`fats, this`ents, this`chains
      ensures Valid()
      ensures err == if r !in old(ents) then ENOENT else if old(ents)[r].isDir then EISDIR else OK
      ensures err == OK ==> ents == old(ents) - {r} && Files() == old(Files()) - {r} && Raws() == old(Raws()) - {r}
      ensures err == OK ==> chains == old(chains) - {r}
      ensures err == OK ==>
                r in old(chains) && forall i | 0 <= i < |old(chains)[r]| ::
                old(chains)[r][i] < |fats[0]| && fats[0][old(chains)[r][i]] == FREE
      ensures err != OK ==> unchanged(this)
      ensures err == OK ==> Free() == old(Free()) + old(ChainLen(r))
    {
      hide FilesOf, RawsOf, EntryOk;
      if r !in ents { return ENOENT; }
      if ents[r].isDir { return EISDIR; }
      ChainOnTable(fats[0], n, cb, owner, ents, chains, r);
      RemoveEntry(r);
      return OK;
    }

    /** `fat16_disk_link`: FAT has no hard links, so the new entry gets a copy of
        the old one's bytes in a chain of its own. Before the bytes are copied
        the new name is looked up again; `found` says whether that succeeds. */
    method Link(old': Ref, slot: Slot, found: bool) returns (err: Errno)
      requires Valid() && SlotFits(slot, ents)
      modifies this`fats, this`data, this`owner, this`ents, this`chains
      ensures Valid()
      ensures old' !in old(ents) ==> err == ENOENT && unchanged(this)
      ensures old' in old(ents) && old(ents)[old'].isDir ==> err == EPERM && unchanged(this)
      ensures old' in old(Files()) && slot.NoSlot? ==> err == slot.why && unchanged(this)
      ensures old' in old(Files()) && slot.FreeSlot? ==>
                && err == (if old(Files())[old'] == [] then OK else if !found then ENOENT
                           else if Ceil(|old(Files())[old']|, cb) > old(Free()) then ENOSPC else OK)
                && slot.ref in ents && ents == old(ents)[slot.ref := ents[slot.ref]] && !ents[slot.ref].isDir
                && Files() == old(Files())[slot.ref := if err == OK then old(Files())[old'] else []]
      ensures old' in old(Files()) && slot.FreeSlot? && err == OK ==>
                Raws() == old(Raws())[slot.ref := WrittenRaw([], 0, cb, 0, old(Files())[old'])]
      ensures old' in old(Files()) && slot.FreeSlot? && err != OK ==>
                Raws() == old(Raws())[slot.ref := []] || GrownRaw(old(Raws())[slot.ref := []], Raws(), slot.ref)
    {
      hide FilesOf, RawsOf, AllOk, Over, Fit, RawOf, Slice, WrittenRaw, GrownRaw, EntryOk, FreeSet, Ceil;
      if old' in ents { EntryAt(fats[0], n, cb, owner, ents, chains, old'); }
      FileIn(data, cb, ents, chains, old');
      if old' !in ents { return ENOENT; }
      if ents[old'].isDir { return EPERM; }
      FileBytes(data, cb, ents, chains, old');
      FileSize(fats[0], data, n, cb, owner, old', ents[old'], chains[old']);
      EntryFits(fats[0], n, cb, owner, old', ents[old'], chains[old']);
      var size := ents[old'].size;
      ghost var bytes := old(Files())[old'];
      err := Create(slot);
      if err != OK { return; }
      ghost var files, raws := Files(), Raws();
      if size == 0 {
        assert bytes == [];
        NothingWritten(cb);
        return;
      }
      var e, copy := ReadFile(old', size, 0);
      SliceAll(bytes);
      if !found { return ENOENT; }
      var nwrote;
      FreshRaw(data, cb);
      OverAll(bytes);
      assert copy == bytes && RawBytes(slot.ref) == [];
      err, nwrote := WriteFile(slot.ref, copy, 0);
      assert err == OK ==> Files() == files[slot.ref := bytes];
    }

    /** `fat16_disk_rmdir`; whether the directory is empty is for its entries to
        say. */
    method Rmdir(r: Ref, empty: bool) returns (err: Errno)
      requires Valid()
      modifies this`fats, this`ents, this`chains
      ensures Valid() && Files() == old(Files()) && Raws() == old(Raws())
      ensures err == OK ==> chains == old(chains) - {r}
      ensures err == if r !in old(ents) then
                ENOENT else if !old(ents)[r].isDir then ENOTDIR else if !empty then ENOTEMPTY else OK
      ensures err == OK ==> ents == old(ents) - {r}
      ensures err != OK ==> unchanged(this)
    {
      if r !in ents { return ENOENT; }
      if !ents[r].isDir { return ENOTDIR; }
      if !empty { return ENOTEMPTY; }
      RemoveEntry(r);
      return OK;
    }

    /** `vfs_rename` on a volume without a rename of its own: link, then unlink.
        The new name has the old bytes, because the copy's chain shares no
        cluster with the one that is freed. */
    method Rename(old': Ref, slot: Slot, found: bool) returns (err: Errno)
      requires Valid() && SlotFits(slot, ents)
      modifies this`fats, this`data, this`owner, this`ents, this`chains
      ensures Valid()
      ensures err == OK ==>
                slot.FreeSlot? && old' in old(Files()) && Files() == old(Files())[slot.ref := old(Files())[old']] - {old'}
      ensures err == OK ==>
                slot.ref in ents && ents == old(ents)[slot.ref := ents[slot.ref]] - {old'} && !ents[slot.ref].isDir
      ensures err == OK ==> Raws() == old(Raws())[slot.ref := WrittenRaw([], 0, cb, 0, old(Files())[old'])] - {old'}
      ensures err != OK ==> Files() == old(Files()) || (slot.FreeSlot? && Files() == old(Files())[slot.ref := []])
      ensures old' in old(Files()) && slot.FreeSlot? ==>
                err == if old(Files())[old'] == [] then OK else if !found then ENOENT
                       else if Ceil(|old(Files())[old']|, cb) > old(Free()) then ENOSPC else OK
    {
      hide FilesOf, RawsOf, AllOk, WrittenRaw, GrownRaw, FreeSet, Ceil;
      if old' in ents { EntryAt(fats[0], n, cb, owner, ents, chains, old'); }
      FileIn(data, cb, ents, chains, old');
      err := Link(old', slot, found);
      if err != OK { return; }
      err := Unlink(old');
    }
  }
}

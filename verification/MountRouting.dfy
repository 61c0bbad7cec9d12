/** The VFS mount table and its longest-prefix routing (fs/vfs.c:336-356,
    598-746), with the second table the simplefs backend keeps of its own mounts
    (fs/simplefs.c:129-237, 350-430). */
module MountRouting {
  import opened Outcomes
  import opened PathNames

  /** A filesystem type; `simple` if simplefs.c serves it. */
  datatype Fs = Fs(name: string, simple: bool)

  datatype Mount = Mount(path: string, fs: Fs, dev: string)

  /** Strip trailing slashes, but not the root's. */
  function Trim(p: string): (r: string)
    ensures p != "" ==> r != ""
    ensures |r| > 1 ==> r[|r| - 1] != '/'
    ensures r <= p && forall k | |r| <= k < |p| :: p[k] == '/'
    decreases |p|
  {
    if |p| > 1 && p[|p| - 1] == '/' then Trim(p[..|p| - 1]) else p
  }

  /** The test `find_mount` applies to each mount. */
  predicate Covers(m: string, p: string) {
    && m != "" && |m| <= |p| && p[..|m|] == m
    && (|m| == |p| || m[|m| - 1] == '/' || p[|m|] == '/')
  }

  /** A mount that covers a path is a prefix of it component by component, not
      just letter by letter. */
  lemma CoversByComponents(m: string, p: string)
    requires Covers(m, p)
    ensures Comps(m) <= Comps(p)
  {
    assert p == m + p[|m|..];
    CompsCut(m, p[|m|..]);
  }

  /** Written with single slashes, and none at the end. */
  predicate TidyPath(p: string) {
    p == Join(Comps(p))
  }

  /** Between tidy paths, covering is being a prefix by components. */
  lemma CoversIff(m: string, p: string)
    requires TidyPath(m) && TidyPath(p)
    ensures Covers(m, p) <==> Comps(m) <= Comps(p)
  {
    hide Comps, Slashed;
    if Covers(m, p) { CoversByComponents(m, p); }
    if Comps(m) <= Comps(p) {
      var cs, rest := Comps(m), Comps(p)[|Comps(m)|..];
      assert Comps(p) == cs + rest;
      SlashedAppend(cs, rest);
      CompsOfSlashed(rest);
      CompsOfSlashed(cs);
      CompsOfSlashed(cs + rest);
      if cs == [] {
        assert cs + rest == rest;
        assert p[..1] == "/";
      } else {
        NoSlashed();
        assert p == m + Slashed(rest);
      }
    }
  }

  lemma NoSlashed()
    ensures Slashed([]) == ""
  {
  }

  /** A longer run of components makes a longer path. */
  lemma LongerPath(cs: seq<string>, ds: seq<string>)
    requires cs <= ds && |cs| < |ds| && IsComp(ds[|ds| - 1])
    ensures |Join(cs)| < |Join(ds)|
  {
    hide Slashed;
    var rest := ds[|cs|..];
    assert ds == cs + rest;
    SlashedAppend(cs, rest);
    SlashedLong(rest);
  }

  lemma SlashedLong(cs: seq<string>)
    requires cs != [] && IsComp(cs[|cs| - 1])
    ensures |Slashed(cs)| > 1
  {
  }

  /** `r` is the mount whose path is the longest that covers `p`. */
  ghost predicate IsRoute(ms: seq<Mount>, p: string, r: Option<Mount>) {
    match r
    case None => forall i | 0 <= i < |ms| :: !Covers(ms[i].path, p)
    case Some(m) =>
      && m in ms && Covers(m.path, p)
      && forall i | 0 <= i < |ms| && Covers(ms[i].path, p) :: |ms[i].path| <= |m.path|
  }

  ghost predicate Distinct(ms: seq<Mount>) {
    forall i, j | 0 <= i < j < |ms| :: ms[i].path != ms[j].path
  }

  lemma RouteIsUnique(ms: seq<Mount>, p: string, r: Option<Mount>, r': Option<Mount>)
    requires Distinct(ms) && IsRoute(ms, p, r) && IsRoute(ms, p, r')
    ensures r == r'
  {
    if r.Some? && r'.Some? {
      var i :| 0 <= i < |ms| && ms[i] == r.value;
      var j :| 0 <= j < |ms| && ms[j] == r'.value;
      assert r.value.path == p[..|r.value.path|] == r'.value.path;
    }
  }

  /** So the route is the mount with the most components of the path, and there is none
      only if no mount is a prefix by components. */
  lemma RouteByComponents(ms: seq<Mount>, p: string, r: Option<Mount>)
    requires IsRoute(ms, p, r) && TidyPath(p) && forall i | 0 <= i < |ms| :: TidyPath(ms[i].path)
    ensures r.Some? ==> Comps(r.value.path) <= Comps(p)
    ensures forall i | 0 <= i < |ms| && Comps(ms[i].path) <= Comps(p) ::
              r.Some? && Comps(ms[i].path) <= Comps(r.value.path)
  {
    hide Comps, Covers, Slashed;
    if r.Some? {
      var j :| 0 <= j < |ms| && ms[j] == r.value;
      CoversIff(r.value.path, p);
    }
    forall i | 0 <= i < |ms| && Comps(ms[i].path) <= Comps(p) ensures r.Some? &&
         Comps(ms[i].path) <= Comps(r.value.path) {
      CoversIff(ms[i].path, p);
      var a, b := Comps(ms[i].path), Comps(r.value.path);
      if |b| < |a| {
        assert b <= a;
        LongerPath(b, a);
      }
    }
  }

  // ----- simplefs's own table ---------------------------------------------------

  const SIMPLE_MOUNTS := 32
  const SIMPLE_STORES := 16

  datatype Slot = Slot(used: bool, fs: string, path: string, store: nat)
  datatype Store = Store(used: bool, refs: nat, fs: string, dev: string)

  const FREE_SLOT := Slot(false, "", "", 0)
  const FREE_STORE := Store(false, 0, "", "")

  /** How many mounts use store `s`. */
  ghost function Uses(slots: seq<Slot>, s: nat): nat {
    if slots == [] then 0
    else Uses(slots[..|slots| - 1], s) + (if slots[|slots| - 1].used && slots[|slots| - 1].store == s then 1 else 0)
  }

  lemma {:induction false} UsesUpdate(slots: seq<Slot>, i: nat, x: Slot, s: nat)
    requires i < |slots|
    ensures Uses(slots[i := x], s) ==
              Uses(slots, s) - (if slots[i].used && slots[i].store == s then 1 else 0) + (if x.used && x.store == s then 1 else 0)
  {
    var n := |slots| - 1;
    if i < n {
      UsesUpdate(slots[..n], i, x, s);
      assert slots[i := x][..n] == slots[..n][i := x];
    } else {
      assert slots[i := x][..n] == slots[..n];
    }
  }

  lemma {:induction false} UsesPositive(slots: seq<Slot>, i: nat)
    requires i < |slots| && slots[i].used
    ensures Uses(slots, slots[i].store) > 0
  {
    if i < |slots| - 1 { UsesPositive(slots[..|slots| - 1], i); }
  }

  /** The counts are right, every mount points at a store of its type, and no two stores
      are for the same type and device. */
  ghost predicate StoresOk(slots: seq<Slot>, stores: seq<Store>) {
    && |slots| == SIMPLE_MOUNTS && |stores| == SIMPLE_STORES
    && (forall s | 0 <= s < |stores| :: stores[s].refs == Uses(slots, s))
    && (forall s | 0 <= s < |stores| && !stores[s].used :: stores[s].refs == 0)
    && (forall i | 0 <= i < |slots| && slots[i].used :: SlotOk(slots[i], stores))
    && OncePerPair(stores)
  }

  ghost predicate SlotOk(x: Slot, stores: seq<Store>) {
    x.store < |stores| && stores[x.store].used && stores[x.store].fs == x.fs
  }

  ghost predicate OncePerPair(stores: seq<Store>) {
    forall s, t | 0 <= s < t < |stores| && stores[s].used && stores[t].used ::
      stores[s].fs != stores[t].fs || stores[s].dev != stores[t].dev
  }

  /** The device of the store a slot points at. */
  function DevOf(x: Slot, stores: seq<Store>): string {
    if x.store < |stores| then stores[x.store].dev else ""
  }

  /** The backend's table lists exactly the VFS mounts of its types, each with the store of
      its device. */
  ghost predicate Mirrors(ms: seq<Mount>, slots: seq<Slot>, stores: seq<Store>) {
    && (forall i | 0 <= i < |slots| && slots[i].used :: MountOf(slots[i], stores) in ms)
    && (forall i | 0 <= i < |ms| && ms[i].fs.simple :: Listed(slots, ms[i].fs.name, ms[i].path))
    && (forall i, j | 0 <= i < j < |slots| && slots[i].used && slots[j].used :: slots[i].path != slots[j].path)
  }

  ghost function MountOf(x: Slot, stores: seq<Store>): Mount {
    Mount(x.path, Fs(x.fs, true), DevOf(x, stores))
  }

  ghost predicate Listed(slots: seq<Slot>, fs: string, path: string) {
    exists i :: 0 <= i < |slots| && slots[i].used && slots[i].fs == fs && slots[i].path == path
  }

  /** Two mounts share a store if and only if they are of one type and one device. */
  lemma StoresAreShared(slots: seq<Slot>, stores: seq<Store>, i: nat, j: nat)
    requires StoresOk(slots, stores) && i < |slots| && j < |slots| && slots[i].used && slots[j].used
    ensures slots[i].store == slots[j].store <==>
              slots[i].fs == slots[j].fs && DevOf(slots[i], stores) == DevOf(slots[j], stores)
  {
    hide Uses;
    assert SlotOk(slots[i], stores) && SlotOk(slots[j], stores);
  }

  /** The test of `simplefs_find_mount_for_path`. */
  predicate SimpleCovers(m: string, p: string) {
    |m| <= |p| && p[..|m|] == m && (|m| == |p| || p[|m|] == '/')
  }

  /** Slot `best` is the longest of the backend's mounts of this type that covers
      `p`; the table size stands for "none". */
  ghost predicate IsBackendRoute(slots: seq<Slot>, fs: string, p: string, best: nat) {
    && best <= |slots|
    && (best < |slots| ==> slots[best].used && slots[best].fs == fs && SimpleCovers(slots[best].path, p) && slots[best].path != "")
    && forall i | 0 <= i < |slots| && slots[i].used && slots[i].fs == fs && SimpleCovers(slots[i].path, p) ::
         if best < |slots| then |slots[i].path| <= |slots[best].path| else slots[i].path == ""
  }

  /** Where the two tests agree. They differ on a mount on "/", whose path ends in
      the slash the backend looks for behind it. */
  predicate BackendSees(m: string, p: string) {
    m != "/" || p == "/" || (|p| > 1 && p[1] == '/')
  }

  lemma CoversAlike(m: string, p: string)
    requires Covers(m, p) && Trim(m) == m
    ensures SimpleCovers(m, p) <==> BackendSees(m, p)
  {
    if |m| == 1 && |p| == 1 { assert p == m; }
  }

  lemma SimpleCoversCovers(m: string, p: string)
    requires SimpleCovers(m, p) && m != ""
    ensures Covers(m, p)
  {
  }

  /** For a path the VFS routes to a simplefs mount, the backend's own search picks
      that same mount if and only if it sees it, and otherwise finds none. */
  lemma BackendAgrees(ms: seq<Mount>, slots: seq<Slot>, stores: seq<Store>, p: string, m: Mount, best: nat)
    requires Mirrors(ms, slots, stores) && IsRoute(ms, p, Some(m)) && m.fs.simple && Trim(m.path) == m.path
    requires IsBackendRoute(slots, m.fs.name, p, best)
    ensures BackendSees(m.path, p) <==> best < |slots| && slots[best].path == m.path
    ensures !BackendSees(m.path, p) <==> best == |slots|
  {
    hide Covers, SimpleCovers, BackendSees, Trim;
    MirrorHas(ms, slots, stores, m);
    var i :| 0 <= i < |slots| && slots[i].used && slots[i].fs == m.fs.name && slots[i].path == m.path;
    CoversAlike(m.path, p);
    CoversIsPrefix(m.path, p);
    if best < |slots| {
      var km := MountOf(slots[best], stores);
      SimpleCoversCovers(km.path, p);
      CoversIsPrefix(km.path, p);
      var j :| 0 <= j < |ms| && ms[j] == km;
      assert |ms[j].path| <= |m.path|;
      if !BackendSees(m.path, p) {
        RootAlone(m.path, km.path, p);
      }
    }
  }

  lemma MirrorHas(ms: seq<Mount>, slots: seq<Slot>, stores: seq<Store>, m: Mount)
    requires Mirrors(ms, slots, stores) && m in ms && m.fs.simple
    ensures Listed(slots, m.fs.name, m.path)
  {
    var i :| 0 <= i < |ms| && ms[i] == m;
  }

  lemma CoversIsPrefix(m: string, p: string)
    requires Covers(m, p)
    ensures 0 < |m| <= |p| && m == p[..|m|]
  {
  }

  /** A prefix of `p` no longer than the root is the root. */
  lemma RootAlone(m: string, k: string, p: string)
    requires !BackendSees(m, p) && |k| <= |m| && k != "" && Covers(m, p) && Covers(k, p)
    ensures k == m
  {
  }

  /** The simplest such path: the VFS routes it to the root mount and the backend
      does not. */
  lemma RootMountIsMissed(x: char)
    requires x != '/'
    ensures Covers("/", ['/', x]) && !BackendSees("/", ['/', x]) && !SimpleCovers("/", ['/', x])
  {
    assert ['/', x][..1] == "/";
  }

  class Vfs {
    var mounts: seq<Mount> // head first
    var slots: seq<Slot>
    var stores: seq<Store>

    ghost predicate Valid()
      reads this
    {
      && Distinct(mounts) && StoresOk(slots, stores) && Mirrors(mounts, slots, stores)
      && forall i | 0 <= i < |mounts| :: mounts[i].path != "" && Trim(mounts[i].path) == mounts[i].path
    }

    constructor ()
      ensures Valid() && WorldOf(this) == World([], {})
    {
      mounts := [];
      slots := seq(SIMPLE_MOUNTS, _ => FREE_SLOT);
      stores := seq(SIMPLE_STORES, _ => FREE_STORE);
      new;
      forall s | 0 <= s < |stores| ensures stores[s].refs == Uses(slots, s) {
        NoUses(slots, s);
      }
    }

    /** `find_mount` */
    method FindMount(path: string) returns (r: Option<Mount>)
      requires forall i | 0 <= i < |mounts| :: mounts[i].path != ""
      ensures IsRoute(mounts, path, r)
    {
      var best := 0;
      r := None;
      for i := 0 to |mounts|
        invariant IsRoute(mounts[..i], path, r) && best == (if r.None? then 0 else |r.value.path|)
      {
        var m := mounts[i];
        if Covers(m.path, path) && |m.path| > best {
          best, r := |m.path|, Some(m);
        }
        assert mounts[..i + 1] == mounts[..i] + [mounts[i]];
      }
      assert mounts[..|mounts|] == mounts;
    }

    /** `simplefs_find_mount_for_path`; the table size stands for "none". */
    method SimpleFind(fs: string, path: string) returns (best: nat)
      ensures IsBackendRoute(slots, fs, path, best)
    {
      best := |slots|;
      var bestLen := 0;
      for i := 0 to |slots|
        invariant best <= |slots| && bestLen == (if best < |slots| then |slots[best].path| else 0)
        invariant best < |slots| ==> slots[best].used && slots[best].fs == fs && SimpleCovers(slots[best].path, path) && slots[best].path != ""
        invariant forall k | 0 <= k < i && slots[k].used && slots[k].fs == fs && SimpleCovers(slots[k].path, path) ::
                    |slots[k].path| <= bestLen
      {
        if slots[i].used && slots[i].fs == fs && SimpleCovers(slots[i].path, path) && |slots[i].path| > bestLen {
          best, bestLen := i, |slots[i].path|;
        }
      }
    }

    /** The way of a path through both tables, as every simplefs operation takes
        it: the VFS finds the mount, and the backend finds it again. */
    method Route(path: string) returns (r: Option<Mount>, best: nat)
      requires Valid()
      ensures IsRoute(mounts, path, r) && best <= |slots|
      ensures r.Some? && r.value.fs.simple ==>
                && (BackendSees(r.value.path, path) <==> best < |slots| && slots[best].path == r.value.path)
                && (!BackendSees(r.value.path, path) <==> best == |slots|)
    {
      hide Trim, Covers, SimpleCovers, BackendSees, Mirrors, StoresOk;
      r := FindMount(path);
      best := |slots|;
      if r.Some? && r.value.fs.simple {
        best := SimpleFind(r.value.fs.name, path);
        BackendAgrees(mounts, slots, stores, path, r.value, best);
      }
    }

    /** `simplefs_get_or_create_store`: the store of this type and device, made if there is
        none and one is left. */
    method GetStore(fs: string, dev: string) returns (s: nat)
      requires StoresOk(slots, stores)
      modifies this`stores
      ensures StoresOk(slots, stores) && s <= |stores|
      ensures s == |stores| <==> old(NoStore(stores, Pair(fs, dev)))
      ensures s == |stores| ==> stores == old(stores)
      ensures s < |stores| ==> stores[s].used && stores[s].fs == fs && stores[s].dev == dev
      ensures s < |stores| ==>
                stores == old(stores) || (!old(stores)[s].used && stores == old(stores)[s := Store(true, 0, fs, dev)])
      ensures s < |stores| && old(stores)[s].used ==> stores == old(stores)
    {
      hide Uses;
      s := 0;
      while s < |stores|
        invariant s <= |stores|
        invariant forall t | 0 <= t < s :: !(stores[t].used && stores[t].fs == fs && stores[t].dev == dev)
      {
        if stores[s].used && stores[s].fs == fs && stores[s].dev == dev { return; }
        s := s + 1;
      }
      s := 0;
      while s < |stores|
        invariant s <= |stores| && forall t | 0 <= t < s :: stores[t].used
      {
        if !stores[s].used {
          stores := stores[s := Store(true, 0, fs, dev)];
          return;
        }
        s := s + 1;
      }
    }

    /** `simplefs_mount_common`, once the device was found to be there. The store is made
        first, and stays when the mount is then refused. */
    method SimpleMount(fs: string, dev: string, path: string) returns (err: Errno)
      requires StoresOk(slots, stores)
      modifies this`slots, this`stores
      ensures StoresOk(slots, stores) && |slots| == |old(slots)|
      ensures err == old(SimpleAnswer(slots, stores, fs, dev, path))
      ensures err != OK ==> slots == old(slots)
      ensures err == OK ==> SlotTaken(old(slots), slots, stores, fs, dev, path)
      ensures SameDevs(old(slots), old(stores), stores)
      ensures Pairs(stores) == old(Pairs(stores)) + if err == ENOMEM then {} else {Pair(fs, dev)}
    {
      hide Uses, Pairs;
      var s := GetStore(fs, dev);
      if s == |stores| { return ENOMEM; }
      PairAdded(old(stores), stores, s);
      ghost var stores1 := stores;
      StoreKept(slots, old(stores), stores, s);
      for i := 0 to |slots|
        invariant forall k | 0 <= k < i && slots[k].used :: slots[k].path != path
      {
        if slots[i].used && slots[i].path == path { return EBUSY; }
      }
      for i := 0 to |slots|
        invariant slots == old(slots) && stores == stores1 && forall k | 0 <= k < i :: slots[k].used
      {
        if !slots[i].used {
          TakeSlot(i, s, path);
          return OK;
        }
      }
      return ENOSPC;
    }

    /** Slot `i` for a mount on store `s`. */
    method TakeSlot(i: nat, s: nat, path: string)
      requires StoresOk(slots, stores) && i < |slots| && !slots[i].used && s < |stores| && stores[s].used
      modifies this`slots, this`stores
      ensures StoresOk(slots, stores) && slots == old(slots)[i := Slot(true, old(stores)[s].fs, path, s)]
      ensures Pairs(stores) == old(Pairs(stores)) && |stores| == |old(stores)|
      ensures forall t | 0 <= t < |stores| :: stores[t] == old(stores)[t].(refs := stores[t].refs)
    {
      hide Uses, Pairs;
      var x := Slot(true, stores[s].fs, path, s);
      forall t ensures Uses(slots[i := x], t) == Uses(slots, t) + (if t == s then 1 else 0) {
        UsesUpdate(slots, i, x, t);
      }
      slots := slots[i := x];
      stores := stores[s := stores[s].(refs := stores[s].refs + 1)];
      PairsSame(old(stores), stores);
    }

    /** `simplefs_umount_common`: the last mount of a store releases it. */
    method SimpleUmount(fs: string, path: string) returns (err: Errno)
      requires StoresOk(slots, stores)
      modifies this`slots, this`stores
      ensures StoresOk(slots, stores)
      ensures err == (if old(Listed(slots, fs, path)) then OK else EINVAL)
      ensures err != OK ==> unchanged(this)
      ensures err == OK ==> SlotFreed(old(slots), old(stores), slots, stores, fs, path)
      ensures SameDevs(slots, old(stores), stores)
    {
      hide Uses, Pairs;
      for i := 0 to |slots|
        invariant unchanged(this) && forall k | 0 <= k < i ::
                  !(slots[k].used && slots[k].fs == fs && slots[k].path == path)
      {
        if slots[i].used && slots[i].fs == fs && slots[i].path == path {
          LeaveSlot(i);
          return OK;
        }
      }
      return EINVAL;
    }

    /** Slot `i` is free again, and its store if that was its last mount. */
    method LeaveSlot(i: nat)
      requires StoresOk(slots, stores) && i < |slots| && slots[i].used
      modifies this`slots, this`stores
      ensures StoresOk(slots, stores) && slots == old(slots)[i := FREE_SLOT] && SameDevs(slots, old(stores), stores)
      ensures old(slots)[i].store < |old(stores)|
      ensures Pairs(stores) == old(Pairs(stores)) -
                if InUse(slots, old(slots)[i].store) then {} else {Pair(old(slots)[i].fs, old(DevOf(slots[i], stores)))}
    {
      hide Uses, Pairs, InUse;
      assert SlotOk(slots[i], stores);
      var s := slots[i].store;
      UsesPositive(slots, i);
      forall t ensures Uses(slots[i := FREE_SLOT], t) == Uses(slots, t) - (if t == s then 1 else 0) {
        UsesUpdate(slots, i, FREE_SLOT, t);
      }
      slots := slots[i := FREE_SLOT];
      if stores[s].refs > 0 { stores := stores[s := stores[s].(refs := stores[s].refs - 1)]; }
      PairsSame(old(stores), stores);
      ghost var stores1 := stores;
      if stores[s].refs == 0 {
        NobodyUses(slots, s);
        NotPointedAt(slots, s);
        stores := stores[s := FREE_STORE];
        PairDropped(stores1, s);
      } else {
        SomebodyUses(slots, s);
      }
    }

    /** `vfs_mount`. `outcome` is what another backend's own mount answers, or simplefs's
        look at the device. */
    method MountFs(path0: string, fs: Fs, dev: string, outcome: Errno) returns (err: Errno)
      requires Valid()
      modifies this
      ensures Valid() && err == MountAnswer(old(WorldOf(this)), path0, fs, dev, outcome)
      ensures WorldOf(this) == MountAfter(old(WorldOf(this)), path0, fs, dev, outcome)
    {
      hide StoresOk, Trim, Pairs, Mirrors, SimplePaths, Distinct;
      if path0 == "" { return EINVAL; }
      TrimTwice(path0);
      var path := Trim(path0);
      var taken := IsMounted(path);
      if taken { return EBUSY; }
      if outcome != OK { return outcome; }
      if fs.simple {
        err := AddSimple(path, fs.name, dev);
      } else {
        AddOther(Mount(path, fs, dev));
        err := OK;
      }
    }

    method IsMounted(path: string) returns (taken: bool)
      ensures taken <==> PathMounted(mounts, path)
    {
      for i := 0 to |mounts|
        invariant forall k | 0 <= k < i :: mounts[k].path != path
      {
        if mounts[i].path == path { return true; }
      }
      return false;
    }

    /** A mount of a path that is not mounted, served by another backend. */
    method AddOther(m: Mount)
      requires Valid() && m.path != "" && Trim(m.path) == m.path && !PathMounted(mounts, m.path) && !m.fs.simple
      modifies this`mounts
      ensures Valid() && mounts == [m] + old(mounts)
    {
      hide StoresOk, Trim, Mirrors;
      MirrorsOther(mounts, slots, stores, m);
      mounts := [m] + mounts;
    }

    /** A mount of a path that is not mounted, served by simplefs. */
    method AddSimple(path: string, fs: string, dev: string) returns (err: Errno)
      requires Valid() && path != "" && Trim(path) == path && !PathMounted(mounts, path)
      modifies this
      ensures Valid()
      ensures err == if Pair(fs, dev) !in old(Pairs(stores)) && |old(Pairs(stores))| >= SIMPLE_STORES then ENOMEM
                     else if |SimplePaths(old(mounts))| == SIMPLE_MOUNTS then ENOSPC else OK
      ensures mounts == if err == OK then [Mount(path, Fs(fs, true), dev)] + old(mounts) else old(mounts)
      ensures Pairs(stores) == old(Pairs(stores)) + if err == ENOMEM then {} else {Pair(fs, dev)}
    {
      hide StoresOk, Trim, Pairs, Mirrors, SlotTaken, SameDevs, SimplePaths, SimpleAnswer;
      ghost var slots0, stores0 := slots, stores;
      MirrorPaths(mounts, slots, stores, path);
      BackendRoom(mounts, slots, stores, Pair(fs, dev), path);
      err := SimpleMount(fs, dev, path);
      MirrorsDevs(mounts, slots0, stores0, stores);
      if err != OK { return; }
      MirrorsAdd(mounts, slots0, slots, stores, fs, dev, path);
      mounts := [Mount(path, Fs(fs, true), dev)] + mounts;
    }

    /** `vfs_umount`. `outcome` is what another backend's own umount answers. */
    method UmountFs(path0: string, outcome: Errno) returns (err: Errno)
      requires Valid()
      modifies this
      ensures Valid() && err == UmountAnswer(old(WorldOf(this)), path0, outcome)
      ensures WorldOf(this) == UmountAfter(old(WorldOf(this)), path0, outcome)
    {
      hide Uses, StoresOk, Trim, Pairs;
      if path0 == "" { return EINVAL; }
      TrimTwice(path0);
      var path := Trim(path0);
      if path == "/" { return EBUSY; }
      var k := 0;
      while k < |mounts| && mounts[k].path != path
        invariant k <= |mounts| && forall i | 0 <= i < k :: mounts[i].path != path
      {
        k := k + 1;
      }
      if k == |mounts| { return ENOENT; }
      for i := 0 to |mounts|
        invariant forall j | 0 <= j < i && j != k :: !Below(mounts[j].path, path)
      {
        if i != k && Below(mounts[i].path, path) { return EBUSY; }
      }
      NotBusy(mounts, path, k);
      FirstAt(mounts, path, k);
      if !mounts[k].fs.simple && outcome != OK { return outcome; }
      DropMount(k);
      return OK;
    }

    /** The k-th mount goes, and what simplefs keeps of it. */
    method DropMount(k: nat)
      requires Valid() && k < |mounts|
      modifies this
      ensures Valid() && mounts == RemoveAt(old(mounts), k)
      ensures var m := old(mounts)[k];
              Pairs(stores) == if m.fs.simple && !HasPair(mounts, Pair(m.fs.name, m.dev))
                               then old(Pairs(stores)) - {Pair(m.fs.name, m.dev)} else old(Pairs(stores))
    {
      hide StoresOk, Trim, Pairs, Mirrors, SlotFreed, SameDevs, HasPair, Listed;
      ghost var slots0, stores0 := slots, stores;
      if mounts[k].fs.simple {
        MirrorListed(mounts, slots, stores, k);
        var err := SimpleUmount(mounts[k].fs.name, mounts[k].path);
        MirrorsRemove(mounts, slots0, stores0, slots, stores, k);
        LastOfPair(mounts, slots0, stores0, slots, stores, k);
      } else {
        MirrorsRemoveOther(mounts, slots, stores, k);
      }
      DistinctRemove(mounts, k);
      mounts := RemoveAt(mounts, k);
    }

    /** Mounting and unmounting again restores the table, hence the routing of
        every path, unless something was already mounted below: then the umount
        is refused. */
    method MountThenUmount(path: string, fs: Fs, dev: string, outcome: Errno) returns (err: Errno, err': Errno)
      requires Valid() && path != ""
      modifies this
      ensures Valid()
      ensures err == OK ==> (err' == OK <==> Trim(path) != "/" && !Busy(old(mounts), Trim(path)))
      ensures err == OK && err' == OK ==> mounts == old(mounts)
      ensures err != OK ==> mounts == old(mounts)
    {
      hide Uses, StoresOk, Mirrors, Pairs;
      ghost var ms := mounts;
      err := MountFs(path, fs, dev, outcome);
      if err != OK { return err, err; }
      ghost var m := mounts[0];
      BusyWithSelf(ms, m);
      err' := UmountFs(path, OK);
      assert ([m] + ms)[..0] + ([m] + ms)[1..] == ms;
    }
  }

  // ----- the reference: a list of mounts and a set of stores ---------------------------------

  datatype Pair = Pair(fs: string, dev: string)

  /** The type and device of each store in use. */
  ghost function Pairs(stores: seq<Store>): set<Pair> {
    set s | 0 <= s < |stores| && stores[s].used :: Pair(stores[s].fs, stores[s].dev)
  }

  /** No store is for this type and device, and none is left. */
  ghost predicate NoStore(stores: seq<Store>, p: Pair) {
    (forall s | 0 <= s < |stores| :: stores[s].used) && p !in Pairs(stores)
  }

  ghost function SimpleAnswer(slots: seq<Slot>, stores: seq<Store>, fs: string, dev: string, path: string): Errno {
    if NoStore(stores, Pair(fs, dev)) then ENOMEM
    else if exists i :: 0 <= i < |slots| && slots[i].used && slots[i].path == path then EBUSY
    else if forall i | 0 <= i < |slots| :: slots[i].used then ENOSPC
    else OK
  }

  /** A free slot was taken for the path, with a store of this type and device. */
  ghost predicate SlotTaken(slots: seq<Slot>, slots': seq<Slot>, stores': seq<Store>, fs: string, dev: string,
                            path: string) {
    exists i ::
      && 0 <= i < |slots| == |slots'| && !slots[i].used && slots' == slots[i := slots'[i]]
      && slots'[i].used && slots'[i].fs == fs && slots'[i].path == path && DevOf(slots'[i], stores') == dev
  }

  /** The slot of the path was freed, and its store released if no other slot has it. */
  ghost predicate SlotFreed(slots: seq<Slot>, stores: seq<Store>, slots': seq<Slot>, stores': seq<Store>, fs: string,
                            path: string) {
    exists i ::
      && 0 <= i < |slots| && slots[i].used && slots[i].fs == fs && slots[i].path == path
      && slots' == slots[i := FREE_SLOT]
      && Pairs(stores') == Pairs(stores) - if InUse(slots', slots[i].store) then
        {} else {Pair(fs, DevOf(slots[i], stores))}
  }

  ghost predicate InUse(slots: seq<Slot>, s: nat) {
    exists k :: 0 <= k < |slots| && slots[k].used && slots[k].store == s
  }

  /** The stores that these slots point at are for the same devices as before. */
  ghost predicate SameDevs(slots: seq<Slot>, stores: seq<Store>, stores': seq<Store>) {
    forall i | 0 <= i < |slots| && slots[i].used :: DevOf(slots[i], stores') == DevOf(slots[i], stores)
  }

  datatype World = World(mounts: seq<Mount>, pairs: set<Pair>)

  ghost function WorldOf(v: Vfs): World
    reads v
  {
    World(v.mounts, Pairs(v.stores))
  }

  /** The paths of the mounts simplefs serves. */
  ghost function SimplePaths(ms: seq<Mount>): set<string> {
    set i | 0 <= i < |ms| && ms[i].fs.simple :: ms[i].path
  }

  /** A mount gets as far as simplefs's tables, and has a store there. */
  ghost predicate GetsStore(w: World, path0: string, fs: Fs, dev: string, outcome: Errno) {
    && path0 != "" && !PathMounted(w.mounts, Trim(path0)) && outcome == OK && fs.simple
    && (Pair(fs.name, dev) in w.pairs || |w.pairs| < SIMPLE_STORES)
  }

  ghost function MountAnswer(w: World, path0: string, fs: Fs, dev: string, outcome: Errno): Errno {
    if path0 == "" then EINVAL
    else if PathMounted(w.mounts, Trim(path0)) then EBUSY
    else if outcome != OK then outcome
    else if !fs.simple then OK
    else if !GetsStore(w, path0, fs, dev, outcome) then ENOMEM
    else if |SimplePaths(w.mounts)| == SIMPLE_MOUNTS then ENOSPC
    else OK
  }

  /** A mount that simplefs refuses for want of a slot has taken a store all the same. */
  ghost function MountAfter(w: World, path0: string, fs: Fs, dev: string, outcome: Errno): World {
    var ms := if MountAnswer(w, path0, fs, dev, outcome) == OK then [Mount(Trim(path0), fs,
        dev)] + w.mounts else w.mounts;
    World(ms, if GetsStore(w, path0, fs, dev, outcome) then w.pairs + {Pair(fs.name, dev)} else w.pairs)
  }

  ghost function UmountAnswer(w: World, path0: string, outcome: Errno): Errno {
    if path0 == "" then EINVAL
    else if Trim(path0) == "/" then EBUSY
    else if !PathMounted(w.mounts, Trim(path0)) then ENOENT
    else if Busy(w.mounts, Trim(path0)) then EBUSY
    else if w.mounts[Place(w.mounts, Trim(path0))].fs.simple then OK
    else outcome
  }

  /** Where a path is in the list; its end if it is not. */
  ghost function Place(ms: seq<Mount>, path: string): (k: nat)
    ensures k <= |ms| && (k < |ms| <==> PathMounted(ms, path)) && (k < |ms| ==> ms[k].path == path)
  {
    if PathMounted(ms, path) then
      var k :| 0 <= k < |ms| && ms[k].path == path;
      k
    else |ms|
  }

  /** The last mount of a type and device takes the store with it. */
  ghost function UmountAfter(w: World, path0: string, outcome: Errno): World {
    if UmountAnswer(w, path0, outcome) != OK then w
    else
      var k := Place(w.mounts, Trim(path0));
      var m, ms := w.mounts[k], RemoveAt(w.mounts, k);
      World(ms, if m.fs.simple && !HasPair(ms, Pair(m.fs.name, m.dev)) then w.pairs - {Pair(m.fs.name,
          m.dev)} else w.pairs)
  }

  ghost predicate HasPair(ms: seq<Mount>, p: Pair) {
    exists j :: 0 <= j < |ms| && ms[j].fs.simple && Pair(ms[j].fs.name, ms[j].dev) == p
  }

  /** Some mount lies strictly below `path`. */
  predicate Below(m: string, path: string) {
    |path| < |m| && m[..|path|] == path && m[|path|] == '/'
  }

  /** Between tidy paths, being below is having the path's components in front of one's
      own. */
  lemma BelowIff(m: string, path: string)
    requires TidyPath(m) && TidyPath(path) && path != "/"
    ensures Below(m, path) <==> Comps(path) <= Comps(m) && Comps(path) != Comps(m)
  {
    hide Comps, Slashed, Covers;
    CoversIff(path, m);
    CoversMeans(path, m);
    if Comps(path) == Comps(m) { assert m == path; }
  }

  lemma CoversMeans(path: string, m: string)
    requires TidyPath(path) && TidyPath(m) && path != "/"
    ensures Covers(path, m) <==> m == path || Below(m, path)
    ensures !Below(path, path)
  {
    hide Comps, Slashed;
    CompsOfSlashed(Comps(path));
    LastNotSlash(Comps(path));
    if m == path || Below(m, path) { assert m[..|path|] == path; }
    if Covers(path, m) && |m| == |path| { assert m[..|path|] == m; }
  }

  lemma LastNotSlash(cs: seq<string>)
    requires cs != [] && IsComp(cs[|cs| - 1])
    ensures Slashed(cs) != "" && Slashed(cs)[|Slashed(cs)| - 1] != '/'
  {
  }

  ghost predicate PathMounted(ms: seq<Mount>, path: string) {
    exists i :: 0 <= i < |ms| && ms[i].path == path
  }

  ghost predicate Busy(ms: seq<Mount>, path: string) {
    exists i :: 0 <= i < |ms| && Below(ms[i].path, path)
  }

  lemma NotBusy(ms: seq<Mount>, path: string, k: nat)
    requires k < |ms| && ms[k].path == path && forall j | 0 <= j < |ms| && j != k :: !Below(ms[j].path, path)
    ensures !Busy(ms, path) && PathMounted(ms, path)
  {
  }

  lemma BusyWithSelf(ms: seq<Mount>, m: Mount)
    ensures Busy([m] + ms, m.path) <==> Busy(ms, m.path)
    ensures PathMounted([m] + ms, m.path)
  {
    var xs := [m] + ms;
    assert xs[0] == m;
    if Busy(ms, m.path) {
      var i :| 0 <= i < |ms| && Below(ms[i].path, m.path);
      assert xs[i + 1] == ms[i];
    }
    if Busy(xs, m.path) {
      var i :| 0 <= i < |xs| && Below(xs[i].path, m.path);
      assert i > 0 && xs[i] == ms[i - 1];
    }
  }

  lemma {:induction false} TrimTwice(p: string)
    ensures Trim(Trim(p)) == Trim(p)
    ensures p != "" ==> Trim(p) != ""
    decreases |p|
  {
    if |p| > 1 && p[|p| - 1] == '/' { TrimTwice(p[..|p| - 1]); }
  }

  /** The list with its k-th element unlinked. */
  function RemoveAt(ms: seq<Mount>, k: nat): seq<Mount>
    requires k < |ms|
  {
    ms[..k] + ms[k + 1..]
  }

  lemma DistinctRemove(ms: seq<Mount>, k: nat)
    requires Distinct(ms) && k < |ms|
    ensures Distinct(RemoveAt(ms, k))
    ensures forall i | 0 <= i < |RemoveAt(ms, k)| :: RemoveAt(ms, k)[i] == ms[if i < k then i else i + 1]
    ensures forall x | x in ms && x != ms[k] :: x in RemoveAt(ms, k)
  {
    var r := RemoveAt(ms, k);
    forall x | x in ms && x != ms[k] ensures x in r {
      var i :| 0 <= i < |ms| && ms[i] == x;
      assert r[if i < k then i else i - 1] == x;
    }
  }

  lemma MirrorPaths(ms: seq<Mount>, slots: seq<Slot>, stores: seq<Store>, path: string)
    requires Mirrors(ms, slots, stores) && forall i | 0 <= i < |ms| :: ms[i].path != path
    ensures forall i | 0 <= i < |slots| && slots[i].used :: slots[i].path != path
  {
    forall i | 0 <= i < |slots| && slots[i].used ensures slots[i].path != path {
      var j :| 0 <= j < |ms| && ms[j] == MountOf(slots[i], stores);
    }
  }

  lemma MirrorsDevs(ms: seq<Mount>, slots: seq<Slot>, stores: seq<Store>, stores': seq<Store>)
    requires Mirrors(ms, slots, stores) && SameDevs(slots, stores, stores')
    ensures Mirrors(ms, slots, stores')
  {
    forall i | 0 <= i < |slots| && slots[i].used ensures MountOf(slots[i], stores') in ms {
      assert MountOf(slots[i], stores) in ms;
    }
  }

  lemma MirrorsAdd(ms: seq<Mount>, slots: seq<Slot>, slots': seq<Slot>, stores: seq<Store>, fs: string, dev: string,
                   path: string)
    requires Mirrors(ms, slots, stores) && SlotTaken(slots, slots', stores, fs, dev, path)
    requires forall i | 0 <= i < |slots| && slots[i].used :: slots[i].path != path
    ensures Mirrors([Mount(path, Fs(fs, true), dev)] + ms, slots', stores)
  {
    var i :| && 0 <= i < |slots| == |slots'| && !slots[i].used && slots' == slots[i := slots'[i]]
             && slots'[i].used && slots'[i].fs == fs && slots'[i].path == path && DevOf(slots'[i], stores) == dev;
    var m := Mount(path, Fs(fs, true), dev);
    var ms' := [m] + ms;
    assert ms'[0] == m;
    forall j | 0 <= j < |slots'| && slots'[j].used ensures MountOf(slots'[j], stores) in ms' {
      if j != i { assert MountOf(slots[j], stores) in ms; }
    }
    forall j | 0 <= j < |ms'| && ms'[j].fs.simple ensures Listed(slots', ms'[j].fs.name, ms'[j].path) {
      if j > 0 {
        assert ms'[j] == ms[j - 1] && Listed(slots, ms[j - 1].fs.name, ms[j - 1].path);
        var l :| 0 <= l < |slots| && slots[l].used && slots[l].fs == ms[j - 1].fs.name && slots[l].path == ms[j - 1].path;
        assert slots'[l] == slots[l];
      }
    }
  }

  lemma MirrorsOther(ms: seq<Mount>, slots: seq<Slot>, stores: seq<Store>, m: Mount)
    requires Mirrors(ms, slots, stores) && !m.fs.simple
    ensures Mirrors([m] + ms, slots, stores)
  {
    var ms' := [m] + ms;
    forall j | 0 <= j < |ms'| && ms'[j].fs.simple ensures Listed(slots, ms'[j].fs.name, ms'[j].path) {
      assert ms'[j] == ms[j - 1];
    }
  }

  lemma MirrorListed(ms: seq<Mount>, slots: seq<Slot>, stores: seq<Store>, k: nat)
    requires Mirrors(ms, slots, stores) && k < |ms| && ms[k].fs.simple
    ensures Listed(slots, ms[k].fs.name, ms[k].path)
  {
  }

  lemma MirrorsRemove(ms: seq<Mount>, slots: seq<Slot>, stores: seq<Store>, slots': seq<Slot>, stores': seq<Store>,
                      k: nat)
    requires Mirrors(ms, slots, stores) && Distinct(ms) && k < |ms| && ms[k].fs.simple
    requires SlotFreed(slots, stores, slots', stores', ms[k].fs.name, ms[k].path) && SameDevs(slots', stores, stores')
    ensures Mirrors(RemoveAt(ms, k), slots', stores')
  {
    hide Pairs, InUse;
    var i :| 0 <= i < |slots| && slots[i].used && slots[i].fs == ms[k].fs.name && slots[i].path == ms[k].path
             && slots' == slots[i := FREE_SLOT];
    var r := RemoveAt(ms, k);
    DistinctRemove(ms, k);
    forall j | 0 <= j < |slots'| && slots'[j].used ensures MountOf(slots'[j], stores') in r {
      assert slots'[j] == slots[j] && MountOf(slots[j], stores) in ms;
      assert slots[j].path != slots[i].path;
    }
    forall j | 0 <= j < |r| && r[j].fs.simple ensures Listed(slots', r[j].fs.name, r[j].path) {
      var j' := if j < k then j else j + 1;
      assert r[j] == ms[j'] && Listed(slots, ms[j'].fs.name, ms[j'].path);
      var l :| 0 <= l < |slots| && slots[l].used && slots[l].fs == ms[j'].fs.name && slots[l].path == ms[j'].path;
      assert ms[j'].path != ms[k].path;
      assert slots'[l] == slots[l];
    }
  }

  lemma MirrorsRemoveOther(ms: seq<Mount>, slots: seq<Slot>, stores: seq<Store>, k: nat)
    requires Mirrors(ms, slots, stores) && Distinct(ms) && k < |ms| && !ms[k].fs.simple
    ensures Mirrors(RemoveAt(ms, k), slots, stores)
  {
    var r := RemoveAt(ms, k);
    DistinctRemove(ms, k);
    forall j | 0 <= j < |r| && r[j].fs.simple ensures Listed(slots, r[j].fs.name, r[j].path) {
      assert r[j] == ms[if j < k then j else j + 1];
    }
  }

  // ----- stores and their pairs ---------------------------------------------------------------

  /** A store made anew is nobody's yet. */
  lemma StoreKept(slots: seq<Slot>, stores: seq<Store>, stores': seq<Store>, s: nat)
    requires StoresOk(slots, stores) && s < |stores| == |stores'|
    requires stores' == stores || (!stores[s].used && stores' == stores[s := stores'[s]])
    ensures SameDevs(slots, stores, stores')
  {
    hide Uses;
    forall i | 0 <= i < |slots| && slots[i].used ensures DevOf(slots[i], stores') == DevOf(slots[i], stores) {
      assert SlotOk(slots[i], stores);
    }
  }

  lemma PairAdded(stores: seq<Store>, stores': seq<Store>, s: nat)
    requires s < |stores| == |stores'| && stores'[s].used
    requires stores' == stores || (!stores[s].used && stores' == stores[s := stores'[s]])
    ensures Pairs(stores') == Pairs(stores) + {Pair(stores'[s].fs, stores'[s].dev)}
  {
    forall p | p in Pairs(stores) ensures p in Pairs(stores') {
      var t :| 0 <= t < |stores| && stores[t].used && p == Pair(stores[t].fs, stores[t].dev);
      assert stores'[t] == stores[t];
    }
  }

  /** Counts are no part of a pair. */
  lemma PairsSame(stores: seq<Store>, stores': seq<Store>)
    requires |stores'| == |stores|
    requires forall s | 0 <= s < |stores| :: stores'[s] == stores[s].(refs := stores'[s].refs)
    ensures Pairs(stores') == Pairs(stores)
  {
  }

  lemma PairDropped(stores: seq<Store>, s: nat)
    requires OncePerPair(stores) && s < |stores| && stores[s].used
    ensures Pairs(stores[s := FREE_STORE]) == Pairs(stores) - {Pair(stores[s].fs, stores[s].dev)}
  {
    var stores' := stores[s := FREE_STORE];
    forall p | p in Pairs(stores) && p != Pair(stores[s].fs, stores[s].dev) ensures p in Pairs(stores') {
      var t :| 0 <= t < |stores| && stores[t].used && p == Pair(stores[t].fs, stores[t].dev);
      assert stores'[t] == stores[t];
    }
    forall p | p in Pairs(stores') ensures p in Pairs(stores) && p != Pair(stores[s].fs, stores[s].dev) {
      var t :| 0 <= t < |stores'| && stores'[t].used && p == Pair(stores'[t].fs, stores'[t].dev);
      assert t != s && stores'[t] == stores[t];
    }
  }

  lemma NobodyUses(slots: seq<Slot>, s: nat)
    requires Uses(slots, s) == 0
    ensures !InUse(slots, s)
  {
    hide Uses;
    if k :| 0 <= k < |slots| && slots[k].used && slots[k].store == s { UsesPositive(slots, k); }
  }

  lemma NotPointedAt(slots: seq<Slot>, s: nat)
    requires !InUse(slots, s)
    ensures forall k | 0 <= k < |slots| && slots[k].used :: slots[k].store != s
  {
  }

  lemma {:induction false} SomebodyUses(slots: seq<Slot>, s: nat)
    requires Uses(slots, s) > 0
    ensures InUse(slots, s)
  {
    var n := |slots| - 1;
    if slots[n].used && slots[n].store == s {
    } else {
      SomebodyUses(slots[..n], s);
      var k :| 0 <= k < n && slots[..n][k].used && slots[..n][k].store == s;
      assert slots[k].used && slots[k].store == s;
    }
  }

  // ----- counting ----------------------------------------------------------------------------

  ghost predicate Different<K>(xs: seq<Option<K>>) {
    forall i, j | 0 <= i < j < |xs| && xs[i].Some? :: xs[i] != xs[j]
  }

  ghost function Values<K>(xs: seq<Option<K>>): set<K> {
    set i | 0 <= i < |xs| && xs[i].Some? :: xs[i].value
  }

  /** A table of different values is full exactly if there are as many as places. */
  lemma {:induction false} FullIff<K>(xs: seq<Option<K>>)
    requires Different(xs)
    ensures |Values(xs)| <= |xs|
    ensures |Values(xs)| == |xs| <==> forall i | 0 <= i < |xs| :: xs[i].Some?
  {
    hide Values;
    if xs == [] {
      NoValues<K>();
    } else {
      var n := |xs| - 1;
      var ys := xs[..n];
      FullIff(ys);
      ValuesGrow(xs);
      assert (forall i | 0 <= i < |xs| :: xs[i].Some?) <==> xs[n].Some? && forall i | 0 <= i < n :: ys[i].Some?;
    }
  }

  lemma NoValues<K>()
    ensures Values<K>([]) == {}
  {
  }

  lemma ValuesGrow<K>(xs: seq<Option<K>>)
    requires Different(xs) && xs != []
    ensures var n := |xs| - 1;
            if xs[n].Some? then Values(xs) == Values(xs[..n]) + {xs[n].value} && xs[n].value !in Values(xs[..n])
            else Values(xs) == Values(xs[..n])
  {
    var n := |xs| - 1;
    var ys := xs[..n];
    forall v | v in Values(xs) ensures v in Values(ys) || (xs[n].Some? && v == xs[n].value) {
      var i :| 0 <= i < |xs| && xs[i].Some? && xs[i].value == v;
      assert i < n ==> ys[i] == xs[i];
    }
    forall v | v in Values(ys) ensures v in Values(xs) && (xs[n].Some? ==> v != xs[n].value) {
      var i :| 0 <= i < |ys| && ys[i].Some? && ys[i].value == v;
      assert xs[i] == ys[i] && xs[i] != xs[n];
    }
  }

  ghost function StoreKeys(stores: seq<Store>): seq<Option<Pair>> {
    seq(|stores|, i requires 0 <= i < |stores| => if stores[i].used then Some(Pair(stores[i].fs,
        stores[i].dev)) else None)
  }

  ghost function SlotKeys(slots: seq<Slot>): seq<Option<string>> {
    seq(|slots|, i requires 0 <= i < |slots| => if slots[i].used then Some(slots[i].path) else None)
  }

  lemma StoresFull(stores: seq<Store>)
    requires OncePerPair(stores)
    ensures |Pairs(stores)| <= |stores|
    ensures |Pairs(stores)| == |stores| <==> forall s | 0 <= s < |stores| :: stores[s].used
  {
    var xs := StoreKeys(stores);
    FullIff(xs);
    forall p | p in Pairs(stores) ensures p in Values(xs) {
      var s :| 0 <= s < |stores| && stores[s].used && p == Pair(stores[s].fs, stores[s].dev);
      assert xs[s] == Some(p);
    }
    forall p | p in Values(xs) ensures p in Pairs(stores) {
      var s :| 0 <= s < |xs| && xs[s].Some? && xs[s].value == p;
      assert stores[s].used;
    }
    assert Values(xs) == Pairs(stores);
    assert forall s | 0 <= s < |stores| :: xs[s].Some? <==> stores[s].used;
  }

  lemma SlotsFull(ms: seq<Mount>, slots: seq<Slot>, stores: seq<Store>)
    requires Mirrors(ms, slots, stores)
    ensures |SimplePaths(ms)| == |slots| <==> forall i | 0 <= i < |slots| :: slots[i].used
  {
    hide Values, SimplePaths;
    var xs := SlotKeys(slots);
    FullIff(xs);
    SlotValues(ms, slots, stores);
    assert forall i | 0 <= i < |slots| :: xs[i].Some? <==> slots[i].used;
  }

  lemma SlotValues(ms: seq<Mount>, slots: seq<Slot>, stores: seq<Store>)
    requires Mirrors(ms, slots, stores)
    ensures Values(SlotKeys(slots)) == SimplePaths(ms)
  {
    var xs := SlotKeys(slots);
    forall p | p in SimplePaths(ms) ensures p in Values(xs) {
      var j :| 0 <= j < |ms| && ms[j].fs.simple && ms[j].path == p;
      assert Listed(slots, ms[j].fs.name, ms[j].path);
      var i :| 0 <= i < |slots| && slots[i].used && slots[i].fs == ms[j].fs.name && slots[i].path == ms[j].path;
      assert xs[i] == Some(p);
    }
    forall p | p in Values(xs) ensures p in SimplePaths(ms) {
      var i :| 0 <= i < |xs| && xs[i].Some? && xs[i].value == p;
      var j :| 0 <= j < |ms| && ms[j] == MountOf(slots[i], stores);
      assert ms[j].fs.simple && ms[j].path == p;
    }
  }

  /** What simplefs answers, told by the mounts and the pairs. */
  lemma BackendRoom(ms: seq<Mount>, slots: seq<Slot>, stores: seq<Store>, p: Pair, path: string)
    requires StoresOk(slots, stores) && Mirrors(ms, slots, stores)
    requires forall i | 0 <= i < |slots| && slots[i].used :: slots[i].path != path
    ensures SimpleAnswer(slots, stores, p.fs, p.dev, path) ==
              if p !in Pairs(stores) && |Pairs(stores)| >= SIMPLE_STORES then ENOMEM
              else if |SimplePaths(ms)| == SIMPLE_MOUNTS then ENOSPC else OK
  {
    hide Uses, Pairs, Mirrors, SimplePaths;
    StoresFull(stores);
    SlotsFull(ms, slots, stores);
  }

  lemma FirstAt(ms: seq<Mount>, path: string, k: nat)
    requires Distinct(ms) && k < |ms| && ms[k].path == path
    ensures Place(ms, path) == k
  {
  }

  /** A store goes exactly if no other mount has its type and device. */
  lemma LastOfPair(ms: seq<Mount>, slots: seq<Slot>, stores: seq<Store>, slots': seq<Slot>, stores': seq<Store>, k: nat)
    requires Mirrors(ms, slots, stores) && StoresOk(slots, stores) && Distinct(ms) && k < |ms| && ms[k].fs.simple
    requires SlotFreed(slots, stores, slots', stores', ms[k].fs.name, ms[k].path)
    ensures var p := Pair(ms[k].fs.name, ms[k].dev);
            Pairs(stores') == if HasPair(RemoveAt(ms, k), p) then Pairs(stores) else Pairs(stores) - {p}
  {
    hide Pairs, Mirrors, StoresOk, InUse, HasPair, Distinct, RemoveAt;
    var i :| && 0 <= i < |slots| && slots[i].used && slots[i].fs == ms[k].fs.name && slots[i].path == ms[k].path
             && slots' == slots[i := FREE_SLOT]
             && Pairs(stores') == Pairs(stores) - if InUse(slots', slots[i].store) then
               {} else {Pair(ms[k].fs.name, DevOf(slots[i], stores))};
    SlotsMount(ms, slots, stores, i, k);
    if InUse(slots', slots[i].store) { UsedByMount(ms, slots, stores, i, k); }
    if HasPair(RemoveAt(ms, k), Pair(ms[k].fs.name, ms[k].dev)) { MountUses(ms, slots, stores, i, k); }
  }

  lemma UsedByMount(ms: seq<Mount>, slots: seq<Slot>, stores: seq<Store>, i: nat, k: nat)
    requires Mirrors(ms, slots, stores) && StoresOk(slots, stores) && Distinct(ms) && k < |ms| && i < |slots|
    requires slots[i].used && ms[k] == MountOf(slots[i], stores) && InUse(slots[i := FREE_SLOT], slots[i].store)
    ensures HasPair(RemoveAt(ms, k), Pair(ms[k].fs.name, ms[k].dev))
  {
    hide StoresOk;
    var slots', r := slots[i := FREE_SLOT], RemoveAt(ms, k);
    var j :| 0 <= j < |slots'| && slots'[j].used && slots'[j].store == slots[i].store;
    assert slots'[j] == slots[j] && j != i;
    StoresAreShared(slots, stores, i, j);
    DistinctRemove(ms, k);
    var m := MountOf(slots[j], stores);
    assert m in ms && m.path != ms[k].path;
    var l :| 0 <= l < |r| && r[l] == m;
  }

  lemma MountUses(ms: seq<Mount>, slots: seq<Slot>, stores: seq<Store>, i: nat, k: nat)
    requires Mirrors(ms, slots, stores) && StoresOk(slots, stores) && Distinct(ms) && k < |ms| && i < |slots|
    requires slots[i].used && ms[k] == MountOf(slots[i], stores) &&
              HasPair(RemoveAt(ms, k), Pair(ms[k].fs.name, ms[k].dev))
    ensures InUse(slots[i := FREE_SLOT], slots[i].store)
  {
    hide StoresOk;
    var slots', r, p := slots[i := FREE_SLOT], RemoveAt(ms, k), Pair(ms[k].fs.name, ms[k].dev);
    var l :| 0 <= l < |r| && r[l].fs.simple && Pair(r[l].fs.name, r[l].dev) == p;
    var l' := if l < k then l else l + 1;
    assert r[l] == ms[l'] && l' != k && Listed(slots, ms[l'].fs.name, ms[l'].path);
    var j :| 0 <= j < |slots| && slots[j].used && slots[j].fs == ms[l'].fs.name && slots[j].path == ms[l'].path;
    SlotsMount(ms, slots, stores, j, l');
    assert ms[l'].path != ms[k].path;
    StoresAreShared(slots, stores, i, j);
    assert slots'[j] == slots[j];
  }

  /** The mount a slot is for. */
  lemma SlotsMount(ms: seq<Mount>, slots: seq<Slot>, stores: seq<Store>, i: nat, k: nat)
    requires Mirrors(ms, slots, stores) && Distinct(ms) && i < |slots| && slots[i].used && k < |ms| &&
              ms[k].path == slots[i].path
    ensures ms[k] == MountOf(slots[i], stores)
  {
    var j :| 0 <= j < |ms| && ms[j] == MountOf(slots[i], stores);
  }

  lemma {:induction false} NoUses(slots: seq<Slot>, s: nat)
    requires forall i | 0 <= i < |slots| :: !slots[i].used
    ensures Uses(slots, s) == 0
  {
    if slots != [] { NoUses(slots[..|slots| - 1], s); }
  }

  // ----- whole runs --------------------------------------------------------------------------

  datatype Op =
    | MountOp(path: string, fs: Fs, dev: string, outcome: Errno)
    | UmountOp(path: string, outcome: Errno)

  ghost function Answer(w: World, op: Op): Errno {
    match op
    case MountOp(path, fs, dev, outcome) => MountAnswer(w, path, fs, dev, outcome)
    case UmountOp(path, outcome) => UmountAnswer(w, path, outcome)
  }

  ghost function After(w: World, op: Op): World {
    match op
    case MountOp(path, fs, dev, outcome) => MountAfter(w, path, fs, dev, outcome)
    case UmountOp(path, outcome) => UmountAfter(w, path, outcome)
  }

  ghost function AfterAll(w: World, ops: seq<Op>): World {
    if ops == [] then w else After(AfterAll(w, ops[..|ops| - 1]), ops[|ops| - 1])
  }

  /** Two mounts of simplefs have one store if and only if they are of one type and one
      device. */
  ghost predicate SharesRight(slots: seq<Slot>, stores: seq<Store>, ms: seq<Mount>) {
    forall a, b, i, j |
      && 0 <= a < |ms| && 0 <= b < |ms| && 0 <= i < |slots| && 0 <= j < |slots| && slots[i].used && slots[j].used
      && slots[i].path == ms[a].path && slots[j].path == ms[b].path ::
      slots[i].store == slots[j].store <==> ms[a].fs.name == ms[b].fs.name && ms[a].dev == ms[b].dev
  }

  lemma ValidShares(ms: seq<Mount>, slots: seq<Slot>, stores: seq<Store>)
    requires Distinct(ms) && StoresOk(slots, stores) && Mirrors(ms, slots, stores)
    ensures SharesRight(slots, stores, ms)
  {
    hide StoresOk, Mirrors, Distinct;
    forall a, b, i, j |
      && 0 <= a < |ms| && 0 <= b < |ms| && 0 <= i < |slots| && 0 <= j < |slots| && slots[i].used && slots[j].used
      && slots[i].path == ms[a].path && slots[j].path == ms[b].path
      ensures slots[i].store == slots[j].store <==> ms[a].fs.name == ms[b].fs.name && ms[a].dev == ms[b].dev
    {
      SlotsMount(ms, slots, stores, i, a);
      SlotsMount(ms, slots, stores, j, b);
      StoresAreShared(slots, stores, i, j);
    }
  }

  lemma VfsShares(v: Vfs)
    requires v.Valid()
    ensures SharesRight(v.slots, v.stores, v.mounts)
  {
    hide StoresOk, Mirrors, Distinct;
    ValidShares(v.mounts, v.slots, v.stores);
  }

  method Step(v: Vfs, op: Op) returns (err: Errno)
    requires v.Valid()
    modifies v
    ensures v.Valid() && err == Answer(old(WorldOf(v)), op) && WorldOf(v) == After(old(WorldOf(v)), op)
  {
    hide MountAnswer, MountAfter, UmountAnswer, UmountAfter, Vfs.Valid, Pairs;
    match op
    case MountOp(path, fs, dev, outcome) => err := v.MountFs(path, fs, dev, outcome);
    case UmountOp(path, outcome) => err := v.UmountFs(path, outcome);
  }

  /** From boot on, every run of mounts and umounts answers and ends as the list of mounts
      and the set of stores do, and mounts share stores exactly by type and
      device. */
  method Run(ops: seq<Op>) returns (v: Vfs, errs: seq<Errno>)
    ensures fresh(v) && v.Valid() && |errs| == |ops|
    ensures WorldOf(v) == AfterAll(World([], {}), ops)
    ensures forall i | 0 <= i < |ops| :: errs[i] == Answer(AfterAll(World([], {}), ops[..i]), ops[i])
    ensures SharesRight(v.slots, v.stores, v.mounts)
  {
    hide Answer, After, Vfs.Valid, Pairs, SharesRight;
    v := new Vfs();
    errs := [];
    ghost var w := World([], {});
    for i := 0 to |ops|
      invariant fresh(v) && v.Valid() && |errs| == i
      invariant WorldOf(v) == AfterAll(w, ops[..i])
      invariant forall k | 0 <= k < i :: errs[k] == Answer(AfterAll(w, ops[..k]), ops[k])
    {
      var err := Step(v, ops[i]);
      assert ops[..i + 1][..i] == ops[..i];
      errs := errs + [err];
    }
    assert ops[..|ops|] == ops;
    VfsShares(v);
  }
}

/** A mounted tmpfs instance (fs/tmpfs.c). */
module TmpfsVolume {
  import opened Bytes
  import opened Outcomes
  import opened PathNames
  import opened TmpfsTree
  import opened TmpfsSpec
  import opened TmpfsNames

  lemma InParentList(nodes: seq<Node>, kids: Kids, anc: Ancestors, loose: set<nat>, i: nat) returns (p: nat, j: nat)
    requires Forest(nodes, kids, anc, loose) && i in kids && i !in loose
    ensures i < |nodes| && p == nodes[i].parent && p in kids && p < |nodes| && j < |kids[p]| && kids[p][j] == i
    ensures nodes[p].children == kids[p][0] && p != i
    ensures forall k | 0 <= k < |kids[p]| && k != j :: kids[p][k] != i
    ensures forall k | 0 <= k < |kids[p]| :: kids[p][k] < SLOTS
  {
    hide ListOk, Nested;
    ForestSize(nodes, kids, anc, loose);
    p := nodes[i].parent;
    j :| 0 <= j < |kids[p]| && kids[p][j] == i;
    FirstChild(nodes, kids, anc, loose, p);
    forall k | 0 <= k < |kids[p]| ensures kids[p][k] < SLOTS && (k != j ==> kids[p][k] != i) {
      ChildAt(nodes, kids, anc, loose, p, k);
      ChildAt(nodes, kids, anc, loose, p, j);
    }
  }

  /** A slot is in one list only. */
  lemma InOneList(nodes: seq<Node>, kids: Kids, anc: Ancestors, loose: set<nat>, i: nat, x: nat)
    requires Forest(nodes, kids, anc, loose) && i in kids && x in kids && i in kids[x]
    ensures i !in loose && i < |nodes| && nodes[i].parent == x
  {
    hide ListOk, ChildOk, Nested;
    var k :| 0 <= k < |kids[x]| && kids[x][k] == i;
    ChildAt(nodes, kids, anc, loose, x, k);
  }

  /** The state when the first `j` children of `i` have been freed. */
  ghost predicate Emptied(nodes0: seq<Node>, kids0: Kids, anc0: Ancestors, nodes: seq<Node>, kids: Kids,
                          anc: Ancestors, i: nat, j: nat) {
    && |nodes0| == |nodes| == SLOTS && i in kids0 && i in kids && j <= |kids0[i]| && kids[i] == kids0[i][j..]
    && anc == anc0 - Under(anc0, kids0[i], j)
    && forall x | x in kids && x in kids0 && x < SLOTS ::
      SameInode(nodes[x], nodes0[x]) && (x != i ==> kids[x] == kids0[x])
  }

  lemma EmptiedNone(nodes: seq<Node>, kids: Kids, anc: Ancestors, i: nat)
    requires |nodes| == SLOTS && i in kids
    ensures Emptied(nodes, kids, anc, nodes, kids, anc, i, 0)
  {
    assert Under(anc, kids[i], 0) == {};
    assert kids[i][0..] == kids[i];
  }

  /** The next child may be freed, and its subtree is smaller. */
  lemma EmptiedNext(nodes0: seq<Node>, kids0: Kids, anc0: Ancestors, nodes: seq<Node>, kids: Kids, anc: Ancestors,
                    loose: set<nat>, i: nat, j: nat)
    requires Forest(nodes0, kids0, anc0, loose) && Forest(nodes, kids, anc, loose)
    requires Emptied(nodes0, kids0, anc0, nodes, kids, anc, i, j) && j < |kids0[i]|
    requires forall y | y in Subtree(anc0, i) && y != i :: y !in loose
    ensures var c := kids0[i][j];
            && c in kids && c !in loose && c < |nodes| && nodes[c].sibling == ItemAt(kids0[i], j + 1)
            && (forall y | y in Subtree(anc, c) && y != c :: y !in loose)
            && |Subtree(anc, c)| < |Subtree(anc0, i)|
  {
    hide Forest, ListOk, ChildOk, Under;
    var c := kids0[i][j];
    assert c == kids[i][0];
    ChildAt(nodes, kids, anc, loose, i, 0);
    ForestSize(nodes, kids, anc, loose);
    ForestSize(nodes0, kids0, anc0, loose);
    ChildBelow(nodes0, kids0, anc0, loose, i, j);
    forall y | y in Subtree(anc, c) ensures y in Subtree(anc0, i) && y != i {
      NestedAt(nodes0, kids0, anc0, loose, c, y);
    }
    assert i in Subtree(anc0, i) && i !in Subtree(anc, c);
    SmallerSet(Subtree(anc, c), Subtree(anc0, i));
  }

  lemma NestedAt(nodes: seq<Node>, kids: Kids, anc: Ancestors, loose: set<nat>, a: nat, x: nat)
    requires Forest(nodes, kids, anc, loose) && x in anc && a in anc[x]
    ensures a in anc && anc[a] <= anc[x]
  {
  }

  lemma EmptiedStep(nodes0: seq<Node>, kids0: Kids, anc0: Ancestors, nodes1: seq<Node>, kids1: Kids, anc1: Ancestors,
                    nodes: seq<Node>, kids: Kids, anc: Ancestors, loose: set<nat>, i: nat, j: nat)
    requires Emptied(nodes0, kids0, anc0, nodes1, kids1, anc1, i, j) && j < |kids0[i]|
    requires Forest(nodes1, kids1, anc1, loose) && Forest(nodes, kids, anc, loose)
    requires Freed(nodes1, kids1, anc1, nodes, kids, anc, kids0[i][j])
    ensures Emptied(nodes0, kids0, anc0, nodes, kids, anc, i, j + 1)
  {
    hide Forest, ListOk, ChildOk, Under;
    var c := kids0[i][j];
    UnderStep(anc0, anc1, kids0[i], j);
    ForestSize(nodes1, kids1, anc1, loose);
    ForestSize(nodes, kids, anc, loose);
    assert c == kids1[i][0];
    ChildBelow(nodes1, kids1, anc1, loose, i, 0);
    assert i in kids;
    forall x | x in kids && x in kids1 ensures kids[x] == if x == i then kids1[i][1..] else kids1[x] {
      ListsLose(nodes1, kids1, anc1, loose, i, x);
    }
  }

  /** Without the first child of `i`, its list is one shorter and the others are
      as they were. */
  lemma ListsLose(nodes: seq<Node>, kids: Kids, anc: Ancestors, loose: set<nat>, i: nat, x: nat)
    requires Forest(nodes, kids, anc, loose) && i in kids && kids[i] != [] && x in kids
    ensures Removed(kids[x], kids[i][0]) == if x == i then kids[i][1..] else kids[x]
  {
    hide Forest, ListOk, ChildOk;
    var c := kids[i][0];
    ChildAt(nodes, kids, anc, loose, i, 0);
    if x == i {
      var p, k := InParentList(nodes, kids, anc, loose, c);
      RemovedAt(kids[i], 0);
    } else {
      if c in kids[x] { InOneList(nodes, kids, anc, loose, c, x); }
      RemovedAbsent(kids[x], c);
    }
  }

  /** When all its children are freed, a slot is all that is left of its subtree. */
  lemma OnlyTopLeft(nodes0: seq<Node>, kids0: Kids, anc0: Ancestors, nodes: seq<Node>, kids: Kids, anc: Ancestors,
                    loose: set<nat>, i: nat)
    requires Forest(nodes0, kids0, anc0, loose) && i in kids0
    requires Emptied(nodes0, kids0, anc0, nodes, kids, anc, i, |kids0[i]|)
    requires forall y | y in Subtree(anc0, i) && y != i :: y !in loose
    ensures i in kids && kids[i] == [] && Subtree(anc, i) == {i}
    ensures anc - {i} == anc0 - Subtree(anc0, i)
  {
    hide Forest, Under;
    SubtreeByChildren(nodes0, kids0, anc0, loose, i);
    FirstChild(nodes0, kids0, anc0, loose, i);
  }

  lemma KidsInRange(nodes: seq<Node>, kids: Kids, anc: Ancestors, loose: set<nat>, i: nat)
    requires Forest(nodes, kids, anc, loose) && i in kids
    ensures forall k | 0 <= k < |kids[i]| :: kids[i][k] < SLOTS
  {
    hide Forest, ChildOk;
    forall k | 0 <= k < |kids[i]| ensures kids[i][k] < SLOTS {
      ChildAt(nodes, kids, anc, loose, i, k);
    }
  }

  /** A loose slot is nobody's child; an attached one has a parent. */
  lemma LooseInNoList(nodes: seq<Node>, kids: Kids, anc: Ancestors, loose: set<nat>, i: nat)
    requires Forest(nodes, kids, anc, loose) && i in kids && i < |nodes| && nodes[i].parent == NIL
    ensures i in loose && forall x | x in kids :: Removed(kids[x], i) == kids[x]
  {
    hide ListOk, ChildOk, Nested;
    forall x | x in kids ensures Removed(kids[x], i) == kids[x] {
      if i in kids[x] { InOneList(nodes, kids, anc, loose, i, x); }
      RemovedAbsent(kids[x], i);
    }
  }

  lemma FreedWhole(nodes0: seq<Node>, kids0: Kids, nodes1: seq<Node>, kids1: Kids, anc0: Ancestors, nodes: seq<Node>,
                   kids: Kids, anc: Ancestors, i: nat)
    requires |nodes0| == SLOTS && i < SLOTS && kids1.Keys == kids0.Keys && i in kids1
    requires forall x | x in kids1 && x < SLOTS && x < |nodes0| && x < |nodes1| ::
              SameInode(nodes1[x], nodes0[x]) && kids1[x] == Removed(kids0[x], i)
    requires Emptied(nodes1, kids1, anc0, nodes, kids, anc, i, |kids1[i]|)
    requires anc - {i} == anc0 - Subtree(anc0, i)
    ensures Freed(nodes0, kids0, anc0, nodes[i := CLEARED], kids - {i}, anc - {i}, i)
  {
    hide Removed, Under;
  }

  lemma CompsAt(p: string, t: nat)
    requires t < |p| && p[t] != '/'
    ensures var len := CompEnd(p[t..], 0);
            0 < len && t + len <= |p| && Comps(p[t..]) == [p[t..t + len]] + Comps(p[t + len..])
  {
    var q := p[t..];
    var len := CompEnd(q, 0);
    assert q[..len] == p[t..t + len] && q[len..] == p[t + len..];
  }

  /** The parent part of a path that fits the buffer fits it too. */
  lemma ParentCut(p: string)
    requires |p| <= MAX_PATH
    ensures Cut(ParentPart(p)) == ParentPart(p)
  {
  }

  lemma SlotNamed(nodes: seq<Node>, kids: Kids, anc: Ancestors, root: nat, names: Names, at: Slots, p: Path)
    requires Good(nodes, kids, anc, root, names, at) && p in at
    ensures at[p] in names && at[p] in kids && names[at[p]] == p
  {
    hide Forest, ChildNamed;
    assert Named(nodes, kids, root, names, at);
  }

  ghost function NameOf(names: Names, i: nat): Path {
    if i in names then names[i] else []
  }

  lemma RootIsDir(nodes: seq<Node>, kids: Kids, anc: Ancestors, root: nat, names: Names, at: Slots)
    requires Good(nodes, kids, anc, root, names, at)
    ensures root < |nodes| && nodes[root].isDir
  {
  }

  lemma LeafOrDir(nodes: seq<Node>, kids: Kids, anc: Ancestors, root: nat, names: Names, at: Slots, i: nat)
    requires Good(nodes, kids, anc, root, names, at) && i in kids && i < |nodes| && !nodes[i].isDir
    ensures kids[i] == []
  {
    hide ListOk, Named;
    if kids[i] != [] { ParentIsDir(nodes, kids, anc, {root}, i); }
  }

  /** A directory's list is empty exactly when no path goes through it. */
  lemma EmptyIffNoChild(nodes: seq<Node>, kids: Kids, anc: Ancestors, root: nat, names: Names, at: Slots, p: Path)
    requires Good(nodes, kids, anc, root, names, at) && p in at
    ensures at[p] in kids && at[p] < |nodes|
    ensures nodes[at[p]].children == NIL <==> kids[at[p]] == []
    ensures HasChild(TreeOf(nodes, at), p) <==> kids[at[p]] != []
  {
    hide Forest, Named;
    GoodSize(nodes, kids, anc, root, names, at);
    SlotNamed(nodes, kids, anc, root, names, at, p);
    var i := at[p];
    FirstChild(nodes, kids, anc, {root}, i);
    KidsInRange(nodes, kids, anc, {root}, i);
    if kids[i] != [] {
      ChildPath(nodes, kids, anc, root, names, at, i, 0);
      var q := p + [nodes[kids[i][0]].name];
      assert q in TreeOf(nodes, at) && Dirname(q) == p;
    }
    if HasChild(TreeOf(nodes, at), p) {
      var q :| q in TreeOf(nodes, at) && q != [] && Dirname(q) == p;
      PathChild(nodes, kids, anc, root, names, at, q);
    }
  }

  /** Overlaying the buffer, moved to a larger one if need be, overlays the file
      in it. */
  lemma WriteInBuffer(buf: seq<Byte>, size: nat, off: nat, data: seq<Byte>)
    requires size <= |buf|
    ensures |Zeros(if off + |data| > size then off + |data| - size else 0)| == if off + |data| > size then
              off + |data| - size else 0
    ensures var end := off + |data|;
            var buf' := if end > size then buf[..size] + Zeros(end - size) else buf;
            var size' := if end > size then end else size;
            (buf'[..off] + data + buf'[off + |data|..])[..size'] == Written(buf[..size], off, data)
  {
  }

  lemma ResizeInBuffer(buf: seq<Byte>, size: nat, n: nat)
    requires size <= |buf|
    ensures n <= size ==> buf[..n] == Fit(buf[..size], n)
    ensures size < n <= |buf| ==> (buf[..size] + Zeros(n - size) + buf[n..])[..n] == Fit(buf[..size], n)
    ensures n > |buf| ==> (buf[..size] + Zeros(n - size))[..n] == Fit(buf[..size], n)
  {
    if n > size {
      var grown := buf[..size] + Zeros(n - size);
      assert grown[..n] == grown;
      if n <= |buf| { assert (grown + buf[n..])[..n] == grown; }
    }
  }

  lemma SliceOfPrefix(buf: seq<Byte>, size: nat, off: nat, k: nat)
    requires off + k <= size <= |buf|
    ensures buf[off..off + k] == buf[..size][off..off + k]
    ensures off + k == size ==> buf[off..off + k] == buf[..size][off..]
  {
    var x, y := buf[off..off + k], buf[..size][off..off + k];
    forall j | 0 <= j < k ensures x[j] == y[j] {
    }
  }

  class Volume {
    var nodes: seq<Node>
    var root: nat
    var nextIno: nat
    ghost var kids: Kids
    ghost var anc: Ancestors
    ghost var names: Names
    ghost var at: Slots

    ghost predicate Valid()
      reads this
    {
      Good(nodes, kids, anc, root, names, at)
    }

    /** The tree of paths this instance holds. */
    ghost function Tree(): Tree
      reads this
    {
      TreeOf(nodes, at)
    }

    /** Mount: one directory, the root, in the first slot. */
    constructor ()
      ensures Valid() && Tree() == map[[] := Dir]
    {
      nodes := seq(SLOTS, _ => CLEARED)[0 := CLEARED.(ino := 1, isDir := true, name := "/")];
      root, nextIno := 0, 1;
      kids, anc, names, at := map[0 := []], map[0 := {0}], map[0 := []], map[[] := 0];
    }

    /** The slot in front of `i` in its parent's list, NIL for the head. */
    method BeforeInList(i: nat, ghost loose: set<nat>) returns (prev: nat, ghost j: nat)
      requires Forest(nodes, kids, anc, loose) && i in kids && i !in loose
      ensures i < |nodes| && var p := nodes[i].parent; p in kids && j < |kids[p]| && kids[p][j] == i
      ensures prev == if j == 0 then NIL else kids[nodes[i].parent][j - 1]
    {
      hide Forest;
      ForestSize(nodes, kids, anc, loose);
      ghost var p0;
      p0, j := InParentList(nodes, kids, anc, loose, i);
      var p := nodes[i].parent;
      ghost var ks := kids[p];
      var child := nodes[p].children;
      prev := NIL;
      ghost var k := 0;
      while child != NIL && child != i
        invariant 0 <= k <= j && child == ks[k] && prev == (if k == 0 then NIL else ks[k - 1])
        decreases j - k
      {
        ChildAt(nodes, kids, anc, loose, p, k);
        prev := child;
        child := nodes[child].sibling;
        k := k + 1;
      }
    }

    /** Take `i` out of its parent's list. */
    method UnlinkFromParent(i: nat, ghost loose: set<nat>)
      requires Forest(nodes, kids, anc, loose) && i in kids && i !in loose
      modifies this`nodes, this`kids
      ensures Forest(nodes, kids, anc, loose + {i})
      ensures kids.Keys == old(kids.Keys)
      ensures forall x | x in kids && x < SLOTS && x < |old(nodes)| ::
                SameInode(nodes[x], old(nodes)[x]) && kids[x] == Removed(old(kids)[x], i)
    {
      hide Forest, Removed;
      ForestSize(nodes, kids, anc, loose);
      var prev, j := BeforeInList(i, loose);
      ghost var p0, j0 := InParentList(nodes, kids, anc, loose, i);
      var p := nodes[i].parent;
      UnlinkKeeps(nodes, kids, anc, loose, p, j);
      RemovedAt(kids[p], j);
      ghost var nodes0, kids0 := nodes, kids;
      forall x | x in kids && x != p ensures Removed(kids[x], i) == kids[x] {
        if i in kids[x] { InOneList(nodes, kids, anc, loose, i, x); }
        RemovedAbsent(kids[x], i);
      }
      if prev != NIL {
        nodes := nodes[prev := nodes[prev].(sibling := nodes[i].sibling)];
      } else {
        nodes := nodes[p := nodes[p].(children := nodes[i].sibling)];
      }
      kids := kids[p := Without(kids[p], j)];
      assert nodes == Unlinked(nodes0, p, kids0[p], j);
    }

    /** Free `i` and all that hangs under it. */
    method FreeInode(i: nat, ghost loose: set<nat>)
      requires Forest(nodes, kids, anc, loose) && i in kids
      requires i in loose ==> i < |nodes| && nodes[i].parent == NIL
      requires forall y | y in Subtree(anc, i) && y != i :: y !in loose
      modifies this`nodes, this`kids, this`anc
      ensures Forest(nodes, kids, anc, loose - {i})
      ensures Freed(old(nodes), old(kids), old(anc), nodes, kids, anc, i)
      decreases |Subtree(anc, i)|, 1
    {
      hide Forest, Freed, Removed, Emptied;
      ForestSize(nodes, kids, anc, loose);
      ghost var nodes0, kids0, anc0 := nodes, kids, anc;
      if nodes[i].parent != NIL {
        UnlinkFromParent(i, loose);
      } else {
        LooseInNoList(nodes, kids, anc, loose, i);
        assert loose + {i} == loose;
      }
      ghost var nodes1, kids1, loose1 := nodes, kids, loose + {i};
      FreeChildren(i, loose1);
      OnlyTopLeft(nodes1, kids1, anc0, nodes, kids, anc, loose1, i);
      ClearKeeps(nodes, kids, anc, loose1, i);
      assert loose1 - {i} == loose - {i};
      FreedWhole(nodes0, kids0, nodes1, kids1, anc0, nodes, kids, anc, i);
      nodes := nodes[i := CLEARED];
      kids, anc := kids - {i}, anc - {i};
    }

    method FreeChildren(i: nat, ghost loose: set<nat>)
      requires Forest(nodes, kids, anc, loose) && i in kids && i in loose
      requires forall y | y in Subtree(anc, i) && y != i :: y !in loose
      modifies this`nodes, this`kids, this`anc
      ensures Forest(nodes, kids, anc, loose)
      ensures Emptied(old(nodes), old(kids), old(anc), nodes, kids, anc, i, |old(kids)[i]|)
      decreases |Subtree(anc, i)|, 0
    {
      hide Forest, Freed, Removed, Subtree, Emptied, Under;
      ForestSize(nodes, kids, anc, loose);
      ghost var nodes0, kids0, anc0, ks, j := nodes, kids, anc, kids[i], 0;
      FirstChild(nodes, kids, anc, loose, i);
      KidsInRange(nodes, kids, anc, loose, i);
      EmptiedNone(nodes, kids, anc, i);
      var child := nodes[i].children;
      while child != NIL
        invariant j <= |ks| && child == ItemAt(ks, j)
        invariant Forest(nodes, kids, anc, loose)
        invariant Emptied(nodes0, kids0, anc0, nodes, kids, anc, i, j)
        decreases |ks| - j
      {
        EmptiedNext(nodes0, kids0, anc0, nodes, kids, anc, loose, i, j);
        var next := nodes[child].sibling;
        ghost var nodes1, kids1, anc1 := nodes, kids, anc;
        FreeInode(child, loose);
        assert loose - {child} == loose;
        EmptiedStep(nodes0, kids0, anc0, nodes1, kids1, anc1, nodes, kids, anc, loose, i, j);
        child := next;
        j := j + 1;
      }
    }

    // ----- finding a slot by its path ------------------------------------------------

    method FindChild(d: nat, nm: string) returns (r: nat, ghost k: nat)
      requires Valid() && d in kids
      ensures k <= |kids[d]| && r == ItemAt(kids[d], k)
      ensures forall l | 0 <= l < k && kids[d][l] < |nodes| :: nodes[kids[d][l]].name != nm
      ensures k < |kids[d]| ==> kids[d][k] < |nodes| && nodes[kids[d][k]].name == nm
      ensures r != NIL ==> r in kids[d] && r < |nodes| && nodes[r].name == nm
      ensures r == NIL ==> forall l | 0 <= l < |kids[d]| && kids[d][l] < |nodes| :: nodes[kids[d][l]].name != nm
    {
      hide Forest, Named;
      GoodSize(nodes, kids, anc, root, names, at);
      FirstChild(nodes, kids, anc, {root}, d);
      KidsInRange(nodes, kids, anc, {root}, d);
      r, k := nodes[d].children, 0;
      while r != NIL
        invariant k <= |kids[d]| && r == ItemAt(kids[d], k)
        invariant forall l | 0 <= l < k && kids[d][l] < |nodes| :: nodes[kids[d][l]].name != nm
        decreases |kids[d]| - k
      {
        if nodes[r].name == nm { return; }
        ChildAt(nodes, kids, anc, {root}, d, k);
        r, k := nodes[r].sibling, k + 1;
      }
    }

    method SkipSlashes(p: string, t0: nat) returns (t: nat)
      requires t0 <= |p|
      ensures t0 <= t <= |p| && (t < |p| ==> p[t] != '/')
      ensures Comps(p[t..]) == Comps(p[t0..])
    {
      t := t0;
      while t < |p| && p[t] == '/'
        invariant t0 <= t <= |p| && Comps(p[t..]) == Comps(p[t0..])
      {
        assert p[t..][1..] == p[t + 1..];
        t := t + 1;
      }
    }

    method Lookup(rel: string) returns (r: nat)
      requires Valid()
      ensures r == SlotOf(at, PathOf(rel))
    {
      hide Good, Comps;
      GoodSize(nodes, kids, anc, root, names, at);
      NoComps();
      if rel == "/" || rel == "" { return root; }
      var p := Cut(rel);
      assert p[0..] == p;
      var t := SkipSlashes(p, 0);
      ghost var done: Path := [];
      r := root;
      while t < |p|
        invariant t <= |p| && (t < |p| ==> p[t] != '/')
        invariant Comps(p) == done + Comps(p[t..])
        invariant done in at && at[done] == r
        decreases |p| - t
      {
        var len := CompEnd(p[t..], 0);
        var nm := p[t..t + len];
        CompsAt(p, t);
        ghost var rest := Comps(p[t + len..]);
        assert Comps(p) == done + ([nm] + rest);
        if !nodes[r].isDir {
          if Comps(p) in at { PrefixClosed(nodes, kids, anc, root, names, at, done, [nm] + rest); }
          return NIL;
        }
        var f, k := FindChild(r, nm);
        FoundByName(nodes, kids, anc, root, names, at, done, nm, k);
        assert Comps(p) == done + [nm] + rest;
        if f == NIL {
          if Comps(p) in at {
            PrefixClosed(nodes, kids, anc, root, names, at, done + [nm], rest);
          }
          return NIL;
        }
        r, done := f, done + [nm];
        t := SkipSlashes(p, t + len);
      }
      assert p[t..] == "" && done + [] == done;
    }

    // ----- creating ---------------------------------------------------------------------

    /** The first free slot, cleared and given the next inode number. */
    method AllocInode() returns (s: nat)
      requires |nodes| == SLOTS
      modifies this`nodes, this`nextIno
      ensures s == NIL <==> forall k | 0 <= k < SLOTS :: old(nodes)[k].ino != 0
      ensures s == NIL ==> nodes == old(nodes)
      ensures s != NIL ==>
                && s < SLOTS && old(nodes)[s].ino == 0 && nextIno == old(nextIno) + 1
                && nodes == old(nodes)[s := CLEARED.(ino := nextIno)]
                && forall k | 0 <= k < s :: old(nodes)[k].ino != 0
    {
      s := 0;
      while s < SLOTS
        invariant s <= SLOTS && forall k | 0 <= k < s :: nodes[k].ino != 0
        invariant nodes == old(nodes) && nextIno == old(nextIno)
      {
        if nodes[s].ino == 0 {
          nextIno := nextIno + 1;
          nodes := nodes[s := CLEARED.(ino := nextIno)];
          return;
        }
        s := s + 1;
      }
    }

    /** Put a new slot at the head of directory `d`'s list. */
    method AddChild(d: nat, nm: string, dir: bool) returns (ok: bool)
      requires Valid() && d in kids && d < |nodes| && nodes[d].isDir && PathUnder(names, d, nm) !in at
      modifies this`nodes, this`nextIno, this`kids, this`anc, this`names, this`at
      ensures Valid()
      ensures ok <==> |old(Tree())| != SLOTS
      ensures Tree() == if ok then
                old(Tree())[old(PathUnder(names, d, nm)) := if dir then Dir else File([])] else old(Tree())
    {
      hide Good, TreeOf, KidsWith, AncWith, PathUnder;
      GoodSize(nodes, kids, anc, root, names, at);
      FullIffNoSlot(nodes, kids, anc, root, names, at);
      ghost var nodes0 := nodes;
      var s := AllocInode();
      if s == NIL { return false; }
      nodes := nodes[s := nodes[s].(isDir := dir, name := nm, parent := d, sibling := nodes[d].children)];
      nodes := nodes[d := nodes[d].(children := s)];
      ghost var x := CLEARED.(ino := nextIno, isDir := dir, name := nm);
      GoodInsert(nodes0, kids, anc, root, names, at, s, d, x);
      assert nodes == Inserted(nodes0, s, d, x);
      kids, anc, names, at := KidsWith(kids, s, d), AncWith(anc, s, d), names[s := PathUnder(names, d, nm)],
          at[PathUnder(names, d, nm) := s];
      return true;
    }

    /** mkdir (`dir`) and create. */
    method Make(rel: string, dir: bool) returns (st: Errno)
      requires Valid()
      modifies this`nodes, this`nextIno, this`kids, this`anc, this`names, this`at
      ensures Valid()
      ensures (Tree(), st) == TmpfsSpec.Make(old(Tree()), rel, if dir then Dir else File([]))
    {
      hide Good, Comps, NameStart, NamePart, ParentPart;
      GoodSize(nodes, kids, anc, root, names, at);
      var f := Lookup(rel);
      if f != NIL { return EEXIST; }
      var p := Cut(rel);
      SplitComps(p);
      var nm, parentPath := NamePart(p), ParentPart(p);
      if nm == "" || |nm| > MAX_PATH { return EINVAL; }
      var d := Lookup(parentPath);
      ParentCut(p);
      assert Dirname(Comps(p)) == Comps(parentPath);
      if d == NIL || !nodes[d].isDir { return ENOENT; }
      SlotNamed(nodes, kids, anc, root, names, at, Comps(parentPath));
      var ok := AddChild(d, nm, dir);
      st := if ok then OK else ENOSPC;
    }

    // ----- removing ---------------------------------------------------------------------

    /** Free a slot that has no children. */
    method FreeLeaf(i: nat)
      requires Valid() && i in kids && i != root && kids[i] == []
      modifies this`nodes, this`kids, this`anc, this`names, this`at
      ensures Valid() && Tree() == old(Tree()) - {old(NameOf(names, i))}
    {
      hide Forest, Freed, Named;
      GoodSize(nodes, kids, anc, root, names, at);
      LeafSubtree(nodes, kids, anc, root, i);
      ghost var nodes0, kids0, anc0 := nodes, kids, anc;
      FreeInode(i, {root});
      assert {root} - {i} == {root};
      GoodRemove(nodes0, kids0, anc0, root, names, at, i, nodes, kids, anc);
      names, at := names - {i}, at - {names[i]};
    }

    method Unlink(rel: string) returns (st: Errno)
      requires Valid()
      modifies this`nodes, this`kids, this`anc, this`names, this`at
      ensures Valid()
      ensures (Tree(), st) == TmpfsSpec.Unlink(old(Tree()), rel)
    {
      hide Good, Comps;
      GoodSize(nodes, kids, anc, root, names, at);
      var i := Lookup(rel);
      if i == NIL { return ENOENT; }
      if nodes[i].isDir { return EISDIR; }
      RootIsDir(nodes, kids, anc, root, names, at);
      if i == root { return EINVAL; }
      SlotNamed(nodes, kids, anc, root, names, at, PathOf(rel));
      LeafOrDir(nodes, kids, anc, root, names, at, i);
      FreeLeaf(i);
      return OK;
    }

    method Rmdir(rel: string) returns (st: Errno)
      requires Valid()
      modifies this`nodes, this`kids, this`anc, this`names, this`at
      ensures Valid()
      ensures (Tree(), st) == TmpfsSpec.Rmdir(old(Tree()), rel)
    {
      hide Good, Comps, HasChild;
      GoodSize(nodes, kids, anc, root, names, at);
      var i := Lookup(rel);
      if i == NIL { return ENOENT; }
      if !nodes[i].isDir { return ENOTDIR; }
      SlotNamed(nodes, kids, anc, root, names, at, PathOf(rel));
      SlotNamed(nodes, kids, anc, root, names, at, []);
      if i == root { return EINVAL; }
      EmptyIffNoChild(nodes, kids, anc, root, names, at, PathOf(rel));
      if nodes[i].children != NIL { return ENOTEMPTY; }
      FreeLeaf(i);
      return OK;
    }

    /** Unmount frees every slot. */
    method Umount()
      requires Valid()
      modifies this`nodes, this`kids, this`anc
      ensures |nodes| == SLOTS && forall s | 0 <= s < SLOTS :: nodes[s].ino == 0
    {
      hide ListOk, Nested, Named;
      GoodSize(nodes, kids, anc, root, names, at);
      forall x | x in kids ensures x in Subtree(anc, root) {
        OneTree(nodes, kids, anc, root, x);
      }
      FreeInode(root, {root});
      assert kids.Keys == {};
    }

    // ----- file data --------------------------------------------------------------------

    /** A write below the end goes into the buffer; one that ends beyond it moves
        the file to a new buffer of just the new size. */
    method Write(rel: string, off: int, data: seq<Byte>) returns (st: Errno)
      requires Valid()
      modifies this`nodes
      ensures Valid()
      ensures (Tree(), st) == TmpfsSpec.Write(old(Tree()), rel, off, data)
    {
      hide Good, Comps, Written, Zeros;
      GoodSize(nodes, kids, anc, root, names, at);
      if off < 0 { return EINVAL; }
      var i := Lookup(rel);
      if i == NIL { return ENOENT; }
      if nodes[i].isDir { return EISDIR; }
      if off > MAX_FILE || |data| > MAX_FILE - off { return EFBIG; }
      var n, newSize := nodes[i], off + |data|;
      WriteInBuffer(n.buf, n.size, off, data);
      if newSize > n.size {
        n := n.(buf := n.buf[..n.size] + Zeros(newSize - n.size), size := newSize);
      }
      var buf := n.buf[..off] + data + n.buf[newSize..];
      GoodData(nodes, kids, anc, root, names, at, PathOf(rel), buf, n.size);
      nodes := nodes[i := n.(buf := buf)];
      return OK;
    }

    /** Shrinking keeps the buffer; growing again clears the part behind the end
        before it shows. */
    method Truncate(rel: string, n: nat) returns (st: Errno)
      requires Valid()
      modifies this`nodes
      ensures Valid()
      ensures (Tree(), st) == TmpfsSpec.Truncate(old(Tree()), rel, n)
    {
      hide Good, Comps, Fit;
      GoodSize(nodes, kids, anc, root, names, at);
      var i := Lookup(rel);
      if i == NIL { return ENOENT; }
      if nodes[i].isDir { return EISDIR; }
      if n > MAX_FILE { return EFBIG; }
      var x := nodes[i];
      var buf := x.buf;
      if n > x.size {
        buf := if n <= |x.buf| then x.buf[..x.size] + Zeros(n - x.size) + x.buf[n..]
               else x.buf[..x.size] + Zeros(n - x.size);
      }
      ResizeInBuffer(x.buf, x.size, n);
      GoodData(nodes, kids, anc, root, names, at, PathOf(rel), buf, n);
      nodes := nodes[i := x.(buf := buf, size := n)];
      return OK;
    }

    method Read(rel: string, off: int, count: nat) returns (bytes: seq<Byte>, st: Errno)
      requires Valid()
      ensures (bytes, st) == TmpfsSpec.Read(Tree(), rel, off, count)
    {
      hide Good, Comps;
      GoodSize(nodes, kids, anc, root, names, at);
      var i := Lookup(rel);
      if i == NIL { return [], ENOENT; }
      if nodes[i].isDir { return [], EISDIR; }
      if off < 0 || off >= nodes[i].size { return [], OK; }
      var available := nodes[i].size - off;
      var toRead := if count < available then count else available;
      bytes, st := nodes[i].buf[off..off + toRead], OK;
      SliceOfPrefix(nodes[i].buf, nodes[i].size, off, toRead);
    }
  }
}

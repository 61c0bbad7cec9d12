/** The paths of a tmpfs tree's slots: each used slot has one path, and each
    path at most one slot. */
module TmpfsNames {
  import opened Bytes
  import opened TmpfsTree
  import opened TmpfsSpec

  type Names = map<nat, Path>
  type Slots = map<Path, nat>

  /** `names` and `at` are inverse to each other, and a child's path is its
      parent's and its name. */
  ghost predicate Named(nodes: seq<Node>, kids: Kids, root: nat, names: Names, at: Slots) {
    && names.Keys == kids.Keys && root in names && names[root] == []
    && Paired(names, at)
    && (forall x, k | x in kids && 0 <= k < |kids[x]| :: ChildNamed(nodes, names, x, kids[x][k]))
  }

  ghost predicate Paired(names: Names, at: Slots) {
    && (forall x | x in names :: names[x] in at && at[names[x]] == x)
    && (forall p | p in at :: at[p] in names && names[at[p]] == p)
  }

  ghost predicate ChildNamed(nodes: seq<Node>, names: Names, x: nat, c: nat) {
    c in names && x in names && c < |nodes| && names[c] == names[x] + [nodes[c].name]
  }

  predicate SizeOk(n: Node) {
    n.size <= |n.buf|
  }

  ghost predicate Good(nodes: seq<Node>, kids: Kids, anc: Ancestors, root: nat, names: Names, at: Slots) {
    && Forest(nodes, kids, anc, {root}) && Named(nodes, kids, root, names, at)
    && root in anc && nodes[root].isDir && nodes[root].parent == NIL && anc[root] == {root}
    && (forall x | x in kids :: SizeOk(nodes[x]))
  }

  function EntryOf(n: Node): Entry {
    if n.isDir then Dir else if n.size <= |n.buf| then File(n.buf[..n.size]) else File([])
  }

  /** The tree of paths the slots stand for. */
  ghost function TreeOf(nodes: seq<Node>, at: Slots): Tree {
    map p | p in at :: if at[p] < |nodes| then EntryOf(nodes[at[p]]) else Dir
  }

  ghost function SlotOf(at: Slots, p: Path): nat {
    if p in at then at[p] else NIL
  }

  lemma GoodSize(nodes: seq<Node>, kids: Kids, anc: Ancestors, root: nat, names: Names, at: Slots)
    requires Good(nodes, kids, anc, root, names, at)
    ensures |nodes| == SLOTS && anc.Keys == kids.Keys == names.Keys && root in kids
    ensures forall x | x in kids :: x < SLOTS && nodes[x].ino != 0 && SizeOk(nodes[x])
    ensures [] in at && at[[]] == root && forall p | p in at :: at[p] in kids
  {
    hide ListOk, ChildNamed;
    ForestSize(nodes, kids, anc, {root});
    assert names[root] == [];
  }

  /** A path's slot is in the list of its parent path's slot. */
  lemma PathChild(nodes: seq<Node>, kids: Kids, anc: Ancestors, root: nat, names: Names, at: Slots, p: Path)
    requires Good(nodes, kids, anc, root, names, at) && p in at && p != []
    ensures Dirname(p) in at && at[Dirname(p)] in kids && at[p] in kids[at[Dirname(p)]]
    ensures at[p] < |nodes| && nodes[at[p]].name == p[|p| - 1]
    ensures at[Dirname(p)] < |nodes| && nodes[at[Dirname(p)]].isDir
  {
    hide ListOk, Nested;
    GoodSize(nodes, kids, anc, root, names, at);
    var c := at[p];
    assert names[c] == p && c != root;
    var x := nodes[c].parent;
    assert x in kids && c in kids[x];
    var k :| 0 <= k < |kids[x]| && kids[x][k] == c;
    assert ChildNamed(nodes, names, x, kids[x][k]);
    assert p[..|p| - 1] == names[x];
    ParentIsDir(nodes, kids, anc, {root}, x);
  }

  lemma ParentIsDir(nodes: seq<Node>, kids: Kids, anc: Ancestors, loose: set<nat>, x: nat)
    requires Forest(nodes, kids, anc, loose) && x in kids && kids[x] != []
    ensures x < |nodes| && nodes[x].isDir
  {
    assert ListOk(nodes, kids, anc, loose, x);
  }

  /** A listed child is found under its parent's path and its own name. */
  lemma ChildPath(nodes: seq<Node>, kids: Kids, anc: Ancestors, root: nat, names: Names, at: Slots, x: nat, k: nat)
    requires Good(nodes, kids, anc, root, names, at) && x in kids && k < |kids[x]|
    ensures x in names && var c := kids[x][k]; c < |nodes| && SlotOf(at, names[x] + [nodes[c].name]) == c
  {
    hide Forest;
    assert ChildNamed(nodes, names, x, kids[x][k]);
  }

  /** Searching a directory's list by name finds what its path names. */
  lemma FoundByName(nodes: seq<Node>, kids: Kids, anc: Ancestors, root: nat, names: Names, at: Slots, p: Path,
                    nm: string, k: nat)
    requires Good(nodes, kids, anc, root, names, at) && p in at && at[p] in kids
    requires k <= |kids[at[p]]| && forall l | 0 <= l < k && kids[at[p]][l] < |nodes| :: nodes[kids[at[p]][l]].name != nm
    requires k < |kids[at[p]]| ==> kids[at[p]][k] < |nodes| && nodes[kids[at[p]][k]].name == nm
    ensures SlotOf(at, p + [nm]) == ItemAt(kids[at[p]], k)
  {
    hide Forest;
    var x := at[p];
    assert Named(nodes, kids, root, names, at);
    assert names[x] == p;
    if k < |kids[x]| {
      ChildPath(nodes, kids, anc, root, names, at, x, k);
    } else if p + [nm] in at {
      assert Dirname(p + [nm]) == p;
      PathChild(nodes, kids, anc, root, names, at, p + [nm]);
    }
  }

  /** Below a missing path, and below a file, there is nothing. */
  lemma {:induction false} PrefixClosed(nodes: seq<Node>, kids: Kids, anc: Ancestors, root: nat, names: Names,
                                        at: Slots, p: Path, q: Path)
    requires Good(nodes, kids, anc, root, names, at) && p + q in at
    ensures p in at
    ensures q != [] ==> at[p] < |nodes| && nodes[at[p]].isDir
    decreases |q|
  {
    hide Good;
    if q == [] {
      assert p + q == p;
    } else {
      PathChild(nodes, kids, anc, root, names, at, p + q);
      assert Dirname(p + q) == p + q[..|q| - 1];
      PrefixClosed(nodes, kids, anc, root, names, at, p, q[..|q| - 1]);
      if |q| == 1 { assert Dirname(p + q) == p; }
    }
  }

  /** There are as many paths as used slots. */
  lemma {:induction false} SameCount(names: Names, at: Slots)
    requires Paired(names, at)
    ensures |names| == |at|
    decreases |names|
  {
    if names.Keys == {} {
      assert at.Keys == {} by {
        if p :| p in at.Keys { assert at[p] in names.Keys; }
      }
      assert |names| == |names.Keys| == 0 && |at| == |at.Keys| == 0;
    } else {
      var x :| x in names;
      var p := names[x];
      var names', at' := names - {x}, at - {p};
      assert names == names'[x := p] && at == at'[p := x];
      SameCount(names', at');
    }
  }

  /** The tree is full exactly when no slot is free. */
  lemma FullIffNoSlot(nodes: seq<Node>, kids: Kids, anc: Ancestors, root: nat, names: Names, at: Slots)
    requires Good(nodes, kids, anc, root, names, at)
    ensures |nodes| == SLOTS
    ensures |TreeOf(nodes, at)| == SLOTS <==> forall s | 0 <= s < SLOTS :: nodes[s].ino != 0
  {
    hide ListOk, ChildNamed, Nested;
    SameCount(names, at);
    assert TreeOf(nodes, at).Keys == at.Keys;
    assert |TreeOf(nodes, at)| == |kids.Keys|;
    AllSlots(SLOTS);
    var all := Below(SLOTS);
    assert kids.Keys <= all;
    if s :| 0 <= s < SLOTS && nodes[s].ino == 0 {
      assert s in all && s !in kids.Keys;
      SmallerSet(kids.Keys, all);
    } else {
      assert kids.Keys == all;
    }
  }

  function Below(n: nat): set<nat> {
    if n == 0 then {} else Below(n - 1) + {n - 1}
  }

  lemma {:induction false} AllSlots(n: nat)
    ensures |Below(n)| == n && forall s :: s in Below(n) <==> 0 <= s < n
  {
    if n > 0 { AllSlots(n - 1); }
  }

  // ----- what the three changes do to the paths ---------------------------------------

  ghost function PathUnder(names: Names, d: nat, nm: string): Path {
    (if d in names then names[d] else []) + [nm]
  }

  ghost function KidsWith(kids: Kids, s: nat, d: nat): Kids {
    kids[s := []][d := [s] + if d in kids then kids[d] else []]
  }

  ghost function AncWith(anc: Ancestors, s: nat, d: nat): Ancestors {
    anc[s := (if d in anc then anc[d] else {}) + {s}]
  }

  /** A new slot `s` at the head of `d`'s list adds one path. */
  lemma GoodInsert(nodes: seq<Node>, kids: Kids, anc: Ancestors, root: nat, names: Names, at: Slots, s: nat, d: nat,
                   x: Node)
    requires s < |nodes| && d < |nodes| && nodes[s].ino == 0 && x.ino != 0 && nodes[d].isDir && SizeOk(x)
    requires Good(nodes, kids, anc, root, names, at) && d in kids && PathUnder(names, d, x.name) !in at
    ensures Good(Inserted(nodes, s, d, x), KidsWith(kids, s, d), AncWith(anc, s, d), root,
                 names[s := PathUnder(names, d, x.name)], at[PathUnder(names, d, x.name) := s])
    ensures TreeOf(Inserted(nodes, s, d, x), at[PathUnder(names, d, x.name) := s]) ==
              TreeOf(nodes, at)[PathUnder(names, d, x.name) := EntryOf(x)]
  {
    hide Forest, Inserted, Named, TreeOf;
    GoodSize(nodes, kids, anc, root, names, at);
    var p := PathUnder(names, d, x.name);
    FreeSlot(nodes, kids, anc, {root}, s);
    InsertedFields(nodes, s, d, x);
    forall k | 0 <= k < |kids[d]| && kids[d][k] < SLOTS ensures nodes[kids[d][k]].name != x.name {
      ChildPath(nodes, kids, anc, root, names, at, d, k);
    }
    InsertKeeps(nodes, kids, anc, {root}, s, d, x);
    assert AncWith(anc, s, d) == anc[s := anc[d] + {s}];
    NamedInsert(nodes, kids, root, names, at, s, d, x);
    var nodes' := Inserted(nodes, s, d, x);
    forall q | q in at && at[q] < |nodes| ensures EntryOf(nodes'[at[q]]) == EntryOf(nodes[at[q]]) {
      assert at[q] in kids;
    }
    TreeWith(nodes, nodes', at, p, s);
  }

  lemma FreeSlot(nodes: seq<Node>, kids: Kids, anc: Ancestors, loose: set<nat>, s: nat)
    requires Forest(nodes, kids, anc, loose)
    ensures |nodes| == SLOTS && (s in kids <==> s < SLOTS && nodes[s].ino != 0)
  {
  }

  lemma NamedInsert(nodes: seq<Node>, kids: Kids, root: nat, names: Names, at: Slots, s: nat, d: nat, x: Node)
    requires s < |nodes| && d < |nodes| && s !in kids && d in kids
    requires Named(nodes, kids, root, names, at) && PathUnder(names, d, x.name) !in at
    ensures Named(Inserted(nodes, s, d, x), KidsWith(kids, s, d), root, names[s := PathUnder(names, d, x.name)],
              at[PathUnder(names, d, x.name) := s])
  {
    hide Inserted;
    InsertedFields(nodes, s, d, x);
    var nodes', kids', names' := Inserted(nodes, s, d, x), KidsWith(kids, s, d), names[s := PathUnder(names, d,
        x.name)];
    forall y, k | y in kids' && 0 <= k < |kids'[y]| ensures ChildNamed(nodes', names', y, kids'[y][k]) {
      if y == d {
        if k > 0 { assert ChildNamed(nodes, names, d, kids[d][k - 1]); }
      } else {
        assert y != s;
        assert ChildNamed(nodes, names, y, kids[y][k]);
      }
    }
  }

  /** Freeing a slot without children removes one path. */
  lemma GoodRemove(nodes: seq<Node>, kids: Kids, anc: Ancestors, root: nat, names: Names, at: Slots, i: nat,
                   nodes': seq<Node>, kids': Kids, anc': Ancestors)
    requires Good(nodes, kids, anc, root, names, at) && i in kids && i in names && i != root && kids[i] == []
    requires Forest(nodes', kids', anc', {root}) && Freed(nodes, kids, anc, nodes', kids', anc', i)
    ensures Good(nodes', kids', anc', root, names - {i}, at - {names[i]})
    ensures TreeOf(nodes', at - {names[i]}) == TreeOf(nodes, at) - {names[i]}
  {
    hide Forest, Named, Removed, TreeOf;
    GoodSize(nodes, kids, anc, root, names, at);
    LeafSubtree(nodes, kids, anc, root, i);
    ForestSize(nodes', kids', anc', {root});
    assert kids'.Keys == kids.Keys - {i};
    NamedRemove(nodes, kids, root, names, at, i, nodes', kids');
    NamedPair(nodes, kids, root, names, at);
    forall q | q in at && q != names[i] && at[q] < |nodes| ensures EntryOf(nodes'[at[q]]) == EntryOf(nodes[at[q]]) {
      assert at[q] in kids'.Keys && SameInode(nodes'[at[q]], nodes[at[q]]);
    }
    TreeWithout(nodes, nodes', at, names[i]);
  }

  lemma TreeWithout(nodes: seq<Node>, nodes': seq<Node>, at: Slots, p: Path)
    requires |nodes'| == |nodes| && forall q | q in at && q != p && at[q] < |nodes| ::
              EntryOf(nodes'[at[q]]) == EntryOf(nodes[at[q]])
    ensures TreeOf(nodes', at - {p}) == TreeOf(nodes, at) - {p}
  {
  }

  lemma TreeWith(nodes: seq<Node>, nodes': seq<Node>, at: Slots, p: Path, s: nat)
    requires |nodes'| == |nodes| && s < |nodes| && forall q | q in at && q != p && at[q] < |nodes| ::
              EntryOf(nodes'[at[q]]) == EntryOf(nodes[at[q]])
    ensures TreeOf(nodes', at[p := s]) == TreeOf(nodes, at)[p := EntryOf(nodes'[s])]
  {
  }

  lemma NamedPair(nodes: seq<Node>, kids: Kids, root: nat, names: Names, at: Slots)
    requires Named(nodes, kids, root, names, at)
    ensures forall x | x in names :: names[x] in at && at[names[x]] == x
    ensures forall p | p in at :: at[p] in names && names[at[p]] == p
  {
  }

  lemma LeafSubtree(nodes: seq<Node>, kids: Kids, anc: Ancestors, root: nat, i: nat)
    requires Forest(nodes, kids, anc, {root}) && root in anc && anc[root] == {root}
    requires i in kids && i != root && kids[i] == []
    ensures Subtree(anc, i) == {i}
  {
    hide ListOk, Nested;
    SubtreeByChildren(nodes, kids, anc, {root}, i);
  }

  lemma {:induction false} RemovedOnly(ks: seq<nat>, i: nat, k: nat)
    requires k < |Removed(ks, i)|
    ensures Removed(ks, i)[k] in ks && Removed(ks, i)[k] != i
  {
    if ks != [] {
      if ks[0] == i { RemovedOnly(ks[1..], i, k); }
      else if k > 0 { RemovedOnly(ks[1..], i, k - 1); }
    }
  }

  lemma NamedRemove(nodes: seq<Node>, kids: Kids, root: nat, names: Names, at: Slots, i: nat, nodes': seq<Node>,
                    kids': Kids)
    requires Named(nodes, kids, root, names, at) && i in kids && i != root && |nodes'| == |nodes|
    requires kids'.Keys == kids.Keys - {i}
    requires forall x | 0 <= x < |nodes| && x in kids' :: nodes'[x].name == nodes[x].name
    requires forall x | x in kids' :: kids'[x] == Removed(kids[x], i)
    ensures Named(nodes', kids', root, names - {i}, at - {names[i]})
  {
    hide Removed, ChildNamed, Paired;
    PairedLess(names, at, i);
    forall y, k | y in kids' && 0 <= k < |kids'[y]| ensures ChildNamed(nodes', names - {i}, y, kids'[y][k]) {
      assert y in kids && y != i;
      RemovedOnly(kids[y], i, k);
      StillNamed(nodes, kids, root, names, at, i, nodes', y, kids'[y][k]);
    }
  }

  lemma PairedLess(names: Names, at: Slots, i: nat)
    requires Paired(names, at) && i in names
    ensures Paired(names - {i}, at - {names[i]})
  {
  }

  lemma StillNamed(nodes: seq<Node>, kids: Kids, root: nat, names: Names, at: Slots, i: nat, nodes': seq<Node>, y: nat,
                   c: nat)
    requires Named(nodes, kids, root, names, at) && y in kids && c in kids[y] && c != i && y != i && |nodes'| == |nodes|
    requires c in kids && c < |nodes| ==> nodes'[c].name == nodes[c].name
    ensures ChildNamed(nodes', names - {i}, y, c)
  {
    var l :| 0 <= l < |kids[y]| && kids[y][l] == c;
    assert ChildNamed(nodes, names, y, kids[y][l]);
  }

  /** Changing a file's bytes changes its entry and nothing else. */
  lemma GoodData(nodes: seq<Node>, kids: Kids, anc: Ancestors, root: nat, names: Names, at: Slots, p: Path,
                 buf: seq<Byte>, size: nat)
    requires Good(nodes, kids, anc, root, names, at) && p in at && at[p] < |nodes| && !nodes[at[p]].isDir &&
              size <= |buf|
    ensures var nodes' := nodes[at[p] := nodes[at[p]].(buf := buf, size := size)];
            && Good(nodes', kids, anc, root, names, at)
            && TreeOf(nodes', at) == TreeOf(nodes, at)[p := File(buf[..size])]
  {
    hide Forest, Named, TreeOf;
    GoodSize(nodes, kids, anc, root, names, at);
    var nodes' := nodes[at[p] := nodes[at[p]].(buf := buf, size := size)];
    DataKeeps(nodes, kids, anc, {root}, at[p], buf, size);
    NamedData(nodes, kids, root, names, at, at[p], buf, size);
    NamedPair(nodes, kids, root, names, at);
    TreeWith(nodes, nodes', at, p, at[p]);
    assert at[p := at[p]] == at;
  }

  lemma NamedData(nodes: seq<Node>, kids: Kids, root: nat, names: Names, at: Slots, x: nat, buf: seq<Byte>, size: nat)
    requires Named(nodes, kids, root, names, at) && x < |nodes|
    ensures Named(nodes[x := nodes[x].(buf := buf, size := size)], kids, root, names, at)
  {
    var nodes' := nodes[x := nodes[x].(buf := buf, size := size)];
    forall y, k | y in kids && 0 <= k < |kids[y]| ensures ChildNamed(nodes', names, y, kids[y][k]) {
      assert ChildNamed(nodes, names, y, kids[y][k]);
    }
  }

  lemma DataKeeps(nodes: seq<Node>, kids: Kids, anc: Ancestors, loose: set<nat>, x: nat, buf: seq<Byte>, size: nat)
    requires Forest(nodes, kids, anc, loose) && x in kids && x < |nodes|
    ensures Forest(nodes[x := nodes[x].(buf := buf, size := size)], kids, anc, loose)
  {
    hide ListOk, ChildOk, Nested;
    var nodes' := nodes[x := nodes[x].(buf := buf, size := size)];
    forall i | i in kids ensures ListOk(nodes', kids, anc, loose, i) {
      forall k | 0 <= k < |kids[i]| && kids[i][k] < SLOTS && kids[i][k] in anc
        ensures MemberKept(nodes, anc, nodes', kids, anc, loose, kids[i][k])
      {
        ChildAt(nodes, kids, anc, loose, i, k);
      }
      ListKept(nodes, kids, anc, loose, nodes', kids, anc, loose, i);
    }
  }
}

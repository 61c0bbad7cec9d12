/** The tmpfs directory tree (fs/tmpfs.c): a fixed array of slots linked by
    parent, first-child and next-sibling pointers. */
module TmpfsTree {
  import opened Bytes

  const SLOTS := 128
  const NIL := SLOTS // the NULL pointer

  /** A slot is free when its inode number is 0. `buf` is the allocated data,
      of which the first `size` bytes are the file. */
  datatype Node = Node(ino: nat, isDir: bool, name: string, buf: seq<Byte>, size: nat, parent: nat, children: nat,
                       sibling: nat)

  const CLEARED := Node(0, false, "", [], 0, NIL, NIL, NIL)

  type Kids = map<nat, seq<nat>>
  type Ancestors = map<nat, set<nat>>

  function ItemAt(s: seq<nat>, j: nat): nat {
    if j < |s| then s[j] else NIL
  }

  /** The child list of slot `i` holds exactly `ks`, in order, and each child
      points back at `i`. Its ancestors are those of `i` and itself, so there is
      no cycle. */
  ghost predicate ListOk(nodes: seq<Node>, kids: Kids, anc: Ancestors, loose: set<nat>, i: nat)
    requires |nodes| == SLOTS && i in kids && i < SLOTS
  {
    var ks := kids[i];
    && nodes[i].children == ItemAt(ks, 0)
    && (ks != [] ==> nodes[i].isDir)
    && forall j | 0 <= j < |ks| :: ChildOk(nodes, kids, anc, loose, i, ks, j)
  }

  ghost predicate ChildOk(nodes: seq<Node>, kids: Kids, anc: Ancestors, loose: set<nat>, i: nat, ks: seq<nat>, j: nat)
    requires |nodes| == SLOTS && j < |ks|
  {
    var c := ks[j];
    && c in kids && c < SLOTS && c !in loose && c in anc && i in anc
    && nodes[c].parent == i && nodes[c].sibling == ItemAt(ks, j + 1)
    && c !in anc[i] && anc[c] == anc[i] + {c}
    && (forall k | 0 <= k < j :: ks[k] != c && ks[k] < SLOTS && nodes[ks[k]].name != nodes[c].name)
  }

  /** The used slots form trees: `kids` are their child lists, `anc` their
      ancestors (each slot counted among its own), and every used slot is in its
      parent's list, except those in `loose`. */
  ghost predicate Forest(nodes: seq<Node>, kids: Kids, anc: Ancestors, loose: set<nat>) {
    && |nodes| == SLOTS && anc.Keys == kids.Keys && loose <= kids.Keys
    && (forall i :: i in kids <==> 0 <= i < SLOTS && nodes[i].ino != 0)
    && (forall i | i in kids :: ListOk(nodes, kids, anc, loose, i) && i in anc[i] && anc[i] <= kids.Keys)
    && (forall c | c in kids && c !in loose :: nodes[c].parent in kids && c in kids[nodes[c].parent])
    && Nested(anc)
  }

  /** An ancestor's ancestors are ancestors. */
  ghost predicate Nested(anc: Ancestors) {
    forall x, a | x in anc && a in anc[x] && a in anc :: anc[a] <= anc[x]
  }

  /** The slots of the subtree under `i`, itself included. */
  ghost function Subtree(anc: Ancestors, i: nat): set<nat> {
    set x | x in anc && i in anc[x]
  }

  /** Below `i` every slot hangs under one of its children. */
  lemma {:induction false} ChildOnPath(nodes: seq<Node>, kids: Kids, anc: Ancestors, loose: set<nat>, i: nat,
                                       x: nat) returns (c: nat)
    requires Forest(nodes, kids, anc, loose) && i in kids && x in Subtree(anc, i) && x != i
    requires forall y | y in Subtree(anc, i) && y != i :: y !in loose
    ensures c in kids[i] && x in Subtree(anc, c)
    decreases |anc[x]|
  {
    assert x !in loose;
    var p := nodes[x].parent;
    var j :| 0 <= j < |kids[p]| && kids[p][j] == x;
    assert ListOk(nodes, kids, anc, loose, p) && ChildOk(nodes, kids, anc, loose, p, kids[p], j);
    if p == i {
      c := x;
      assert x in anc[x];
    } else {
      assert i in anc[p] && anc[p] < anc[x];
      SmallerSet(anc[p], anc[x]);
      c := ChildOnPath(nodes, kids, anc, loose, i, p);
    }
  }

  lemma SmallerSet(a: set<nat>, b: set<nat>)
    requires a < b
    ensures |a| < |b|
  {
    var d := b - a;
    assert b == a + d;
    var x :| x in d;
    assert |d| > 0;
  }

  /** With only the root loose, all used slots are in the root's tree. */
  lemma {:induction false} OneTree(nodes: seq<Node>, kids: Kids, anc: Ancestors, root: nat, x: nat)
    requires Forest(nodes, kids, anc, {root}) && x in kids
    ensures x in Subtree(anc, root)
    decreases |anc[x]|
  {
    if x != root {
      var p := nodes[x].parent;
      var j :| 0 <= j < |kids[p]| && kids[p][j] == x;
      assert ListOk(nodes, kids, anc, {root}, p) && ChildOk(nodes, kids, anc, {root}, p, kids[p], j);
      assert anc[p] < anc[x];
      SmallerSet(anc[p], anc[x]);
      OneTree(nodes, kids, anc, root, p);
    } else {
      assert ListOk(nodes, kids, anc, {root}, x);
    }
  }

  /** What the tree operations leave alone in a slot: all but the list links. */
  predicate SameInode(a: Node, b: Node) {
    a == b.(children := a.children, sibling := a.sibling)
  }

  // ----- the three primitive relinkings ------------------------------------------

  function Without(ks: seq<nat>, j: nat): seq<nat>
    requires j < |ks|
  {
    ks[..j] + ks[j + 1..]
  }

  /** Unlink position `j` of `p`'s list. */
  function Unlinked(nodes: seq<Node>, p: nat, ks: seq<nat>, j: nat): seq<Node>
    requires p < |nodes| && j < |ks| && forall k | 0 <= k < |ks| :: ks[k] < |nodes|
  {
    var next := nodes[ks[j]].sibling;
    if j == 0 then nodes[p := nodes[p].(children := next)]
    else nodes[ks[j - 1] := nodes[ks[j - 1]].(sibling := next)]
  }

  /** A list survives when its owner and its members keep what the list is
      about. */
  lemma ListKept(nodes: seq<Node>, kids: Kids, anc: Ancestors, loose: set<nat>,
                 nodes': seq<Node>, kids': Kids, anc': Ancestors, loose': set<nat>, i: nat)
    requires |nodes| == |nodes'| == SLOTS && i < SLOTS && i in kids && i in kids' && kids'[i] == kids[i]
    requires ListOk(nodes, kids, anc, loose, i)
    requires nodes'[i].children == nodes[i].children && nodes'[i].isDir == nodes[i].isDir
    requires i in anc && i in anc' && anc'[i] == anc[i]
    requires forall k | 0 <= k < |kids[i]| && kids[i][k] < SLOTS && kids[i][k] in anc ::
               MemberKept(nodes, anc, nodes', kids', anc', loose', kids[i][k])
    ensures ListOk(nodes', kids', anc', loose', i)
  {
    var ks := kids[i];
    forall k | 0 <= k < |ks| ensures ChildOk(nodes', kids', anc', loose', i, ks, k) {
      assert ChildOk(nodes, kids, anc, loose, i, ks, k);
      assert MemberKept(nodes, anc, nodes', kids', anc', loose', ks[k]);
      forall l | 0 <= l < k ensures nodes'[ks[l]].name == nodes[ks[l]].name {
        assert ChildOk(nodes, kids, anc, loose, i, ks, l);
        assert MemberKept(nodes, anc, nodes', kids', anc', loose', ks[l]);
      }
    }
  }

  ghost predicate MemberKept(nodes: seq<Node>, anc: Ancestors, nodes': seq<Node>, kids': Kids, anc': Ancestors,
                             loose': set<nat>, c: nat)
    requires |nodes| == |nodes'| == SLOTS && c < SLOTS && c in anc
  {
    && c in kids' && c !in loose' && c in anc' && anc'[c] == anc[c]
    && nodes'[c].parent == nodes[c].parent && nodes'[c].sibling == nodes[c].sibling && nodes'[c].name == nodes[c].name
  }

  lemma UnlinkKeeps(nodes: seq<Node>, kids: Kids, anc: Ancestors, loose: set<nat>, p: nat, j: nat)
    requires Forest(nodes, kids, anc, loose) && p in kids && j < |kids[p]|
    requires forall k | 0 <= k < |kids[p]| :: kids[p][k] < SLOTS
    ensures Forest(Unlinked(nodes, p, kids[p], j), kids[p := Without(kids[p], j)], anc, loose + {kids[p][j]})
  {
    hide ListOk, ChildOk, Unlinked, Nested;
    var ks := kids[p];
    var c := ks[j];
    var nodes', kids', loose' := Unlinked(nodes, p, ks, j), kids[p := Without(ks, j)], loose + {c};
    UnlinkedFields(nodes, p, ks, j);
    forall k | 0 <= k < |ks| ensures ks[k] in kids && nodes[ks[k]].parent == p {
      ChildAt(nodes, kids, anc, loose, p, k);
    }
    forall i | i in kids'
      ensures ListOk(nodes', kids', anc, loose', i)
    {
      if i == p {
        UnlinkedList(nodes, kids, anc, loose, p, j);
      } else {
        forall k | 0 <= k < |kids[i]| && kids[i][k] < SLOTS && kids[i][k] in anc
          ensures MemberKept(nodes, anc, nodes', kids', anc, loose', kids[i][k])
        {
          ChildAt(nodes, kids, anc, loose, i, k);
        }
        ListKept(nodes, kids, anc, loose, nodes', kids', anc, loose', i);
      }
    }
    forall x | x in kids' && x !in loose' ensures nodes'[x].parent in kids' && x in kids'[nodes'[x].parent] {
      if nodes[x].parent == p {
        var k :| 0 <= k < |ks| && ks[k] == x;
        assert Without(ks, j)[if k < j then k else k - 1] == x;
      }
    }
  }

  lemma ChildAt(nodes: seq<Node>, kids: Kids, anc: Ancestors, loose: set<nat>, i: nat, k: nat)
    requires Forest(nodes, kids, anc, loose) && i in kids && k < |kids[i]|
    ensures ChildOk(nodes, kids, anc, loose, i, kids[i], k)
    ensures var c := kids[i][k];
            c in kids && c < SLOTS && c !in loose && c in anc && nodes[c].parent == i &&
              nodes[c].sibling == ItemAt(kids[i], k + 1)
  {
    assert ListOk(nodes, kids, anc, loose, i);
  }

  /** Unlinking changes one link and nothing else. */
  lemma UnlinkedFields(nodes: seq<Node>, p: nat, ks: seq<nat>, j: nat)
    requires p < |nodes| && j < |ks| && forall k | 0 <= k < |ks| :: ks[k] < |nodes|
    ensures var nodes' := Unlinked(nodes, p, ks, j);
            && |nodes'| == |nodes|
            && (forall x | 0 <= x < |nodes| :: SameInode(nodes'[x], nodes[x]))
            && (forall x | 0 <= x < |nodes| && x != p :: nodes'[x].children == nodes[x].children)
            && (forall x | 0 <= x < |nodes| && x !in ks :: nodes'[x].sibling == nodes[x].sibling)
  {
  }

  lemma UnlinkedList(nodes: seq<Node>, kids: Kids, anc: Ancestors, loose: set<nat>, p: nat, j: nat)
    requires Forest(nodes, kids, anc, loose) && p in kids && j < |kids[p]|
    requires forall k | 0 <= k < |kids[p]| :: kids[p][k] < SLOTS
    ensures ListOk(Unlinked(nodes, p, kids[p], j), kids[p := Without(kids[p], j)], anc, loose + {kids[p][j]}, p)
  {
    hide ListOk;
    var ks := kids[p];
    var nodes', ks' := Unlinked(nodes, p, ks, j), Without(ks, j);
    var kids', loose' := kids[p := ks'], loose + {ks[j]};
    forall k | 0 <= k < |ks'| ensures ChildOk(nodes', kids', anc, loose', p, ks', k) {
      UnlinkedChild(nodes, kids, anc, loose, p, j, k);
    }
    UnlinkedHead(nodes, kids, anc, loose, p, j);
    ListIntro(nodes', kids', anc, loose', p);
  }

  lemma ListIntro(nodes: seq<Node>, kids: Kids, anc: Ancestors, loose: set<nat>, i: nat)
    requires |nodes| == SLOTS && i in kids && i < SLOTS
    requires nodes[i].children == ItemAt(kids[i], 0) && (kids[i] != [] ==> nodes[i].isDir)
    requires forall j | 0 <= j < |kids[i]| :: ChildOk(nodes, kids, anc, loose, i, kids[i], j)
    ensures ListOk(nodes, kids, anc, loose, i)
  {
  }

  lemma UnlinkedHead(nodes: seq<Node>, kids: Kids, anc: Ancestors, loose: set<nat>, p: nat, j: nat)
    requires Forest(nodes, kids, anc, loose) && p in kids && j < |kids[p]|
    requires forall k | 0 <= k < |kids[p]| :: kids[p][k] < SLOTS
    ensures var nodes' := Unlinked(nodes, p, kids[p], j);
            nodes'[p].children == ItemAt(Without(kids[p], j), 0) && nodes'[p].isDir == nodes[p].isDir == true
  {
    var ks := kids[p];
    assert ListOk(nodes, kids, anc, loose, p) && ChildOk(nodes, kids, anc, loose, p, ks, j);
    if j > 0 { assert ChildOk(nodes, kids, anc, loose, p, ks, j - 1); }
  }

  lemma UnlinkedSibling(nodes: seq<Node>, kids: Kids, anc: Ancestors, loose: set<nat>, p: nat, j: nat, k0: nat)
    requires Forest(nodes, kids, anc, loose) && p in kids && j < |kids[p]| && k0 < |kids[p]| && k0 != j
    requires forall k | 0 <= k < |kids[p]| :: kids[p][k] < SLOTS
    ensures kids[p][k0] != kids[p][j]
    ensures Unlinked(nodes, p, kids[p], j)[kids[p][k0]].sibling == ItemAt(kids[p], if k0 == j - 1 then
              j + 1 else k0 + 1)
  {
    hide Forest, ListOk;
    ForestSize(nodes, kids, anc, loose);
    ChildAt(nodes, kids, anc, loose, p, j);
    ChildAt(nodes, kids, anc, loose, p, k0);
    if j > 0 { ChildAt(nodes, kids, anc, loose, p, j - 1); }
  }

  lemma UnlinkedChild(nodes: seq<Node>, kids: Kids, anc: Ancestors, loose: set<nat>, p: nat, j: nat, k: nat)
    requires Forest(nodes, kids, anc, loose) && p in kids && j < |kids[p]| && k < |Without(kids[p], j)|
    requires forall k | 0 <= k < |kids[p]| :: kids[p][k] < SLOTS
    ensures ChildOk(Unlinked(nodes, p, kids[p], j), kids[p := Without(kids[p], j)], anc, loose + {kids[p][j]}, p,
              Without(kids[p], j), k)
  {
    hide Forest, ListOk, Unlinked;
    ForestSize(nodes, kids, anc, loose);
    var ks := kids[p];
    var nodes', ks' := Unlinked(nodes, p, ks, j), Without(ks, j);
    var k0 := if k < j then k else k + 1;
    UnlinkedFields(nodes, p, ks, j);
    UnlinkedSibling(nodes, kids, anc, loose, p, j, k0);
    ChildAt(nodes, kids, anc, loose, p, k0);
    assert ks'[k] == ks[k0];
    assert ItemAt(ks', k + 1) == ItemAt(ks, if k0 == j - 1 then j + 1 else k0 + 1);
    forall l | 0 <= l < k ensures ks'[l] != ks'[k] && ks'[l] < SLOTS && nodes'[ks'[l]].name != nodes'[ks'[k]].name {
      assert ks'[l] == ks[if l < j then l else l + 1];
    }
  }

  lemma ForestSize(nodes: seq<Node>, kids: Kids, anc: Ancestors, loose: set<nat>)
    requires Forest(nodes, kids, anc, loose)
    ensures |nodes| == SLOTS && anc.Keys == kids.Keys && forall i | i in kids :: i < SLOTS && nodes[i].ino != 0
  {
  }

  lemma NestedLess(anc: Ancestors, i: nat)
    requires Nested(anc)
    ensures Nested(anc - {i})
  {
  }

  lemma NestedMore(anc: Ancestors, s: nat, p: nat)
    requires Nested(anc) && p in anc && s !in anc && forall x | x in anc :: s !in anc[x]
    ensures Nested(anc[s := anc[p] + {s}])
  {
  }

  /** Clearing a loose slot that nothing hangs under. */
  lemma ClearKeeps(nodes: seq<Node>, kids: Kids, anc: Ancestors, loose: set<nat>, i: nat)
    requires Forest(nodes, kids, anc, loose) && i in loose && kids[i] == [] && Subtree(anc, i) == {i}
    ensures i < |nodes| && Forest(nodes[i := CLEARED], kids - {i}, anc - {i}, loose - {i})
  {
    hide ListOk, ChildOk, Nested;
    ForestSize(nodes, kids, anc, loose);
    NestedLess(anc, i);
    var nodes', kids', anc', loose' := nodes[i := CLEARED], kids - {i}, anc - {i}, loose - {i};
    forall p | p in kids'
      ensures ListOk(nodes', kids', anc', loose', p) && p in anc'[p] && anc'[p] <= kids'.Keys
    {
      assert p in Subtree(anc, i) ==> p == i;
      forall k | 0 <= k < |kids[p]| && kids[p][k] < SLOTS && kids[p][k] in anc
        ensures MemberKept(nodes, anc, nodes', kids', anc', loose', kids[p][k])
      {
        ChildAt(nodes, kids, anc, loose, p, k);
      }
      ListKept(nodes, kids, anc, loose, nodes', kids', anc', loose', p);
    }
    forall x | x in kids' && x !in loose' ensures nodes'[x].parent in kids' && x in kids'[nodes'[x].parent] {
      assert nodes[x].parent != i;
    }
  }

  /** A new slot at the head of a directory's list. */
  function Inserted(nodes: seq<Node>, s: nat, p: nat, x: Node): seq<Node>
    requires s < |nodes| && p < |nodes|
  {
    var nodes1 := nodes[s := x.(parent := p, children := NIL, sibling := nodes[p].children)];
    nodes1[p := nodes1[p].(children := s)]
  }

  lemma InsertedFields(nodes: seq<Node>, s: nat, p: nat, x: Node)
    requires s < |nodes| && p < |nodes|
    ensures var nodes' := Inserted(nodes, s, p, x);
            && |nodes'| == |nodes| && nodes'[p].children == s
            && (s != p ==> nodes'[s] == x.(parent := p, children := NIL,
                sibling := nodes[p].children) && nodes'[p] == nodes[p].(children := s))
            && forall i | 0 <= i < |nodes| && i != s && i != p :: nodes'[i] == nodes[i]
  {
  }

  lemma InsertKeeps(nodes: seq<Node>, kids: Kids, anc: Ancestors, loose: set<nat>, s: nat, p: nat, x: Node)
    requires Forest(nodes, kids, anc, loose) && s < SLOTS && nodes[s].ino == 0 && x.ino != 0
    requires p in kids && nodes[p].isDir
    requires forall k | 0 <= k < |kids[p]| && kids[p][k] < SLOTS :: nodes[kids[p][k]].name != x.name
    ensures p < SLOTS && p in anc
    ensures Forest(Inserted(nodes, s, p, x), kids[s := []][p := [s] + kids[p]], anc[s := anc[p] + {s}], loose)
  {
    hide ListOk, ChildOk, Inserted, Nested;
    ForestSize(nodes, kids, anc, loose);
    NestedMore(anc, s, p);
    InsertedFields(nodes, s, p, x);
    var nodes' := Inserted(nodes, s, p, x);
    var kids': Kids, anc': Ancestors := kids[s := []][p := [s] + kids[p]], anc[s := anc[p] + {s}];
    assert s !in kids && s != p;
    forall i | i in kids'
      ensures ListOk(nodes', kids', anc', loose, i) && i in anc'[i] && anc'[i] <= kids'.Keys
    {
      if i == s {
        EmptyList(nodes', kids', anc', loose, s);
      } else if i == p {
        InsertedList(nodes, kids, anc, loose, s, p, x);
      } else {
        forall k | 0 <= k < |kids[i]| && kids[i][k] < SLOTS && kids[i][k] in anc
          ensures MemberKept(nodes, anc, nodes', kids', anc', loose, kids[i][k])
        {
          ChildAt(nodes, kids, anc, loose, i, k);
        }
        ListKept(nodes, kids, anc, loose, nodes', kids', anc', loose, i);
      }
    }
    forall c | c in kids' && c !in loose ensures nodes'[c].parent in kids' && c in kids'[nodes'[c].parent] {
      InsertedParent(nodes, kids, anc, loose, s, p, x, c);
    }
  }

  lemma InsertedParent(nodes: seq<Node>, kids: Kids, anc: Ancestors, loose: set<nat>, s: nat, p: nat, x: Node, c: nat)
    requires Forest(nodes, kids, anc, loose) && s < |nodes| && p < |nodes| && s != p && p in kids
    requires c !in loose && (c == s || (c in kids && s !in kids))
    ensures c < |nodes| && var kids', q := kids[s := []][p := [s] + kids[p]], Inserted(nodes, s, p, x)[c].parent;
            q in kids' && c in kids'[q]
  {
    hide ListOk, ChildOk, Inserted, Nested;
    ForestSize(nodes, kids, anc, loose);
    InsertedFields(nodes, s, p, x);
    if c == s || nodes[c].parent == p { StillIn(s, kids[p], c); }
  }

  lemma StillIn(s: nat, ks: seq<nat>, c: nat)
    requires c == s || c in ks
    ensures c in [s] + ks
  {
  }

  lemma EmptyList(nodes: seq<Node>, kids: Kids, anc: Ancestors, loose: set<nat>, i: nat)
    requires |nodes| == SLOTS && i in kids && i < SLOTS && kids[i] == [] && nodes[i].children == NIL
    ensures ListOk(nodes, kids, anc, loose, i)
  {
  }

  lemma InsertedList(nodes: seq<Node>, kids: Kids, anc: Ancestors, loose: set<nat>, s: nat, p: nat, x: Node)
    requires Forest(nodes, kids, anc, loose) && s < SLOTS && nodes[s].ino == 0 && x.ino != 0
    requires p in kids && p in anc && p < SLOTS && nodes[p].isDir && s !in kids && s != p
    requires forall k | 0 <= k < |kids[p]| && kids[p][k] < SLOTS :: nodes[kids[p][k]].name != x.name
    ensures ListOk(Inserted(nodes, s, p, x), kids[s := []][p := [s] + kids[p]], anc[s := anc[p] + {s}], loose, p)
  {
    hide Forest;
    FirstChild(nodes, kids, anc, loose, p);
    var nodes' := Inserted(nodes, s, p, x);
    var ks' := [s] + kids[p];
    var kids', anc' := kids[s := []][p := ks'], anc[s := anc[p] + {s}];
    forall k | 0 <= k < |ks'| ensures ChildOk(nodes', kids', anc', loose, p, ks', k) {
      if k == 0 {
        assert ItemAt(ks', 1) == ItemAt(kids[p], 0);
      } else {
        ChildAt(nodes, kids, anc, loose, p, k - 1);
        assert ks'[k] == kids[p][k - 1] && ItemAt(ks', k + 1) == ItemAt(kids[p], k);
        forall l | 0 <= l < k ensures ks'[l] != ks'[k] && ks'[l] < SLOTS && nodes'[ks'[l]].name != nodes'[ks'[k]].name {
          if l > 0 { assert ks'[l] == kids[p][l - 1]; }
        }
      }
    }
    ListIntro(nodes', kids', anc', loose, p);
  }

  lemma FirstChild(nodes: seq<Node>, kids: Kids, anc: Ancestors, loose: set<nat>, p: nat)
    requires Forest(nodes, kids, anc, loose) && p in kids
    ensures p < SLOTS && |nodes| == SLOTS && nodes[p].children == ItemAt(kids[p], 0) && p in anc && p in anc[p] &&
              anc[p] <= kids.Keys
    ensures p !in kids[p] && loose <= kids.Keys
  {
    assert ListOk(nodes, kids, anc, loose, p);
    forall k | 0 <= k < |kids[p]| ensures kids[p][k] != p {
      assert ChildOk(nodes, kids, anc, loose, p, kids[p], k);
    }
  }

  // ----- freeing a subtree ------------------------------------------------------------

  /** The slots under the first `j` slots of `ks`. */
  ghost function Under(anc: Ancestors, ks: seq<nat>, j: nat): set<nat>
    requires j <= |ks|
  {
    set x | x in anc && exists m :: 0 <= m < j && ks[m] in anc[x]
  }

  lemma UnderStep(anc: Ancestors, anc': Ancestors, ks: seq<nat>, j: nat)
    requires j < |ks| && anc' == anc - Under(anc, ks, j)
    ensures Under(anc, ks, j + 1) == Under(anc, ks, j) + Subtree(anc', ks[j])
    ensures anc' - Subtree(anc', ks[j]) == anc - Under(anc, ks, j + 1)
  {
    forall x | x in anc ensures x in Under(anc, ks, j + 1) <==> x in Under(anc, ks, j) || x in Subtree(anc', ks[j]) {
      if x in Under(anc, ks, j + 1) {
        var m :| 0 <= m < j + 1 && ks[m] in anc[x];
      }
      if x in Subtree(anc', ks[j]) { assert ks[j] in anc[x]; }
    }
  }

  /** A subtree is its top and the subtrees under the top's children. */
  lemma SubtreeByChildren(nodes: seq<Node>, kids: Kids, anc: Ancestors, loose: set<nat>, i: nat)
    requires Forest(nodes, kids, anc, loose) && i in kids
    requires forall y | y in Subtree(anc, i) && y != i :: y !in loose
    ensures i in anc && i !in Under(anc, kids[i], |kids[i]|)
    ensures Subtree(anc, i) == Under(anc, kids[i], |kids[i]|) + {i}
  {
    hide ListOk, ChildOk;
    var ks := kids[i];
    FirstChild(nodes, kids, anc, loose, i);
    forall m | 0 <= m < |ks| ensures ks[m] in anc && ks[m] !in anc[i] && i in anc[ks[m]] {
      ChildBelow(nodes, kids, anc, loose, i, m);
    }
    forall x | x in Subtree(anc, i) && x != i ensures x in Under(anc, ks, |ks|) {
      var c := ChildOnPath(nodes, kids, anc, loose, i, x);
      var m :| 0 <= m < |ks| && ks[m] == c;
      assert ks[m] in anc[x];
    }
    UnderInside(anc, ks, i);
  }

  lemma UnderInside(anc: Ancestors, ks: seq<nat>, i: nat)
    requires Nested(anc) && forall m | 0 <= m < |ks| :: ks[m] in anc && i in anc[ks[m]]
    ensures Under(anc, ks, |ks|) <= Subtree(anc, i)
  {
    forall x | x in Under(anc, ks, |ks|) ensures i in anc[x] {
      var m :| 0 <= m < |ks| && ks[m] in anc[x];
      assert anc[ks[m]] <= anc[x];
    }
  }

  lemma ChildBelow(nodes: seq<Node>, kids: Kids, anc: Ancestors, loose: set<nat>, i: nat, m: nat)
    requires Forest(nodes, kids, anc, loose) && i in kids && m < |kids[i]|
    ensures kids[i][m] in anc && i in anc && kids[i][m] !in anc[i] && i in anc[i] && i in anc[kids[i][m]]
    ensures anc[kids[i][m]] == anc[i] + {kids[i][m]}
  {
    ChildAt(nodes, kids, anc, loose, i, m);
  }

  // ----- lists without a slot ---------------------------------------------------------

  function Removed(ks: seq<nat>, c: nat): seq<nat> {
    if ks == [] then [] else (if ks[0] == c then [] else [ks[0]]) + Removed(ks[1..], c)
  }

  lemma {:induction false} RemovedAbsent(ks: seq<nat>, c: nat)
    requires c !in ks
    ensures Removed(ks, c) == ks
  {
    if ks != [] { RemovedAbsent(ks[1..], c); }
  }

  lemma {:induction false} RemovedAt(ks: seq<nat>, j: nat)
    requires j < |ks| && forall k | 0 <= k < |ks| && k != j :: ks[k] != ks[j]
    ensures Removed(ks, ks[j]) == Without(ks, j)
  {
    if j == 0 {
      RemovedAbsent(ks[1..], ks[0]);
    } else {
      RemovedAt(ks[1..], j - 1);
      assert [ks[0]] + Without(ks[1..], j - 1) == Without(ks, j);
    }
  }

  /** Every slot outside the subtree under `i` keeps its inode, and its list but
      for `i` itself; the subtree's slots are gone. */
  ghost predicate Freed(nodes0: seq<Node>, kids0: Kids, anc0: Ancestors, nodes: seq<Node>, kids: Kids, anc: Ancestors,
                        i: nat) {
    && |nodes0| == |nodes| == SLOTS && anc == anc0 - Subtree(anc0, i)
    && forall x | x in kids && x in kids0 && x < SLOTS ::
      SameInode(nodes[x], nodes0[x]) && kids[x] == Removed(kids0[x], i)
  }
}

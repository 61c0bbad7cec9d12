/** Cluster chains in a FAT16 allocation table (fs/fat16_disk.c:469-555; the
    "FAT Data Structure" section of Microsoft's FAT specification v1.03). */
module FatChain {

  const END := 0xFFF8 // FAT16_CLUSTER_EOF: this and above end a chain
  const BAD := 0xFFF7
  const FREE := 0

  type U16 = x: int | 0 <= x < 65536
  type Table = seq<U16>

  /** The guard of the chain-walking loops: `c >= 2 && c < FAT16_CLUSTER_EOF`. */
  predicate Continues(c: U16) {
    2 <= c < END
  }

  /** Links stay inside the table: a data cluster, or one of the marks. */
  ghost predicate LinksInRange(fat: Table, n: nat) {
    && 2 <= n <= |fat| && n <= BAD
    && forall c | 2 <= c < n :: fat[c] < n || fat[c] >= BAD
  }

  // ----- free_chain on any table, cyclic ones included ----------------------

  predicate Frees(c: U16) {
    Continues(c) && c != BAD
  }

  /** The k-th cluster the links lead to from `start`. */
  ghost function Follow(fat: Table, start: U16, k: nat): U16 {
    if k == 0 then start
    else
      var c := Follow(fat, start, k - 1);
      if Frees(c) && c < |fat| then fat[c] else 0
  }

  ghost predicate Reaches(fat: Table, start: U16, x: U16) {
    Frees(x) && exists k: nat :: Follow(fat, start, k) == x
  }

  /** The clusters met in the first `k` steps. */
  ghost predicate MetBefore(fat: Table, start: U16, k: nat, x: U16) {
    Frees(x) && exists j: nat :: j < k && Follow(fat, start, j) == x
  }

  /** Once the walk is over, or back at a cluster it has met, it has met all it
      can reach. */
  lemma {:induction false} WalkClosed(fat: Table, start: U16, k: nat, j: nat)
    requires !Frees(Follow(fat, start, k)) || MetBefore(fat, start, k, Follow(fat, start, k))
    ensures Frees(Follow(fat, start, j)) ==> MetBefore(fat, start, k, Follow(fat, start, j))
  {
    if j > 0 {
      WalkClosed(fat, start, k, j - 1);
      var c := Follow(fat, start, j - 1);
      if Frees(c) && c < |fat| {
        var i: nat :| i < k && Follow(fat, start, i) == c;
        assert Follow(fat, start, i + 1) == fat[c] == Follow(fat, start, j);
        if i + 1 < k && Frees(fat[c]) { assert MetBefore(fat, start, k, fat[c]); }
      }
    }
  }

  lemma WalkComplete(fat: Table, start: U16, k: nat)
    requires !Frees(Follow(fat, start, k)) || MetBefore(fat, start, k, Follow(fat, start, k))
    ensures forall x: U16 :: Reaches(fat, start, x) <==> MetBefore(fat, start, k, x)
  {
    forall x: U16 ensures Reaches(fat, start, x) <==> MetBefore(fat, start, k, x) {
      if Reaches(fat, start, x) {
        var j: nat :| Follow(fat, start, j) == x;
        WalkClosed(fat, start, k, j);
      }
    }
  }

  // ----- well-formed chains --------------------------------------------------

  /** `xs` is the whole chain starting at xs[0], over data clusters 2..n-1. */
  ghost predicate IsChain(fat: Table, n: nat, xs: seq<U16>) {
    && n <= |fat| && n <= BAD
    && (forall i | 0 <= i < |xs| :: 2 <= xs[i] < n)
    && (forall i | 0 <= i < |xs| - 1 :: fat[xs[i]] == xs[i + 1])
    && (xs != [] ==> fat[xs[|xs| - 1]] >= END)
  }

  ghost predicate Distinct(xs: seq<U16>) {
    forall i, j | 0 <= i < j < |xs| :: xs[i] != xs[j]
  }

  /** Every chain can be followed: position i of the chain is i links away. */
  lemma {:induction false} ChainFollow(fat: Table, n: nat, xs: seq<U16>, k: nat)
    requires IsChain(fat, n, xs) && xs != []
    ensures k < |xs| ==> Follow(fat, xs[0], k) == xs[k]
    ensures k >= |xs| ==> !Frees(Follow(fat, xs[0], k))
  {
    if k > 0 { ChainFollow(fat, n, xs, k - 1); }
  }

  /** On a well-formed chain the reachable clusters are those of the chain. */
  lemma ChainReaches(fat: Table, n: nat, xs: seq<U16>)
    requires IsChain(fat, n, xs) && xs != []
    ensures forall x: U16 :: Reaches(fat, xs[0], x) <==> x in xs
  {
    forall x: U16 ensures Reaches(fat, xs[0], x) <==> x in xs {
      if Reaches(fat, xs[0], x) {
        var k: nat :| Follow(fat, xs[0], k) == x;
        ChainFollow(fat, n, xs, k);
      }
      if x in xs {
        var k: nat :| k < |xs| && xs[k] == x;
        ChainFollow(fat, n, xs, k);
      }
    }
  }

  /** A chain depends only on the entries of its own clusters. */
  lemma ChainKept(fat: Table, fat': Table, n: nat, xs: seq<U16>)
    requires IsChain(fat, n, xs) && |fat'| == |fat|
    requires forall i | 0 <= i < |xs| :: fat'[xs[i]] == fat[xs[i]]
    ensures IsChain(fat', n, xs)
  {
  }

  /** Appending a cluster: the old last entry is pointed at it. */
  lemma ChainExtend(fat: Table, n: nat, xs: seq<U16>, c: U16)
    requires IsChain(fat, n, xs) && Distinct(xs) && xs != [] && c !in xs && 2 <= c < n && fat[c] >= END
    ensures IsChain(fat[xs[|xs| - 1] := c], n, xs + [c]) && Distinct(xs + [c])
  {
  }

  /** The chain goes on behind its first `k` clusters exactly if there are more. */
  lemma NextInChain(fat: Table, n: nat, xs: seq<U16>, k: nat)
    requires IsChain(fat, n, xs) && 0 < k <= |xs|
    ensures Continues(fat[xs[k - 1]]) <==> k < |xs|
    ensures k < |xs| ==> fat[xs[k - 1]] == xs[k]
  {
    if k < |xs| { assert fat[xs[k - 1]] == xs[k - 1 + 1]; }
  }

  /** Cutting after the first `k` clusters. */
  lemma ChainCut(fat: Table, n: nat, xs: seq<U16>, k: nat)
    requires IsChain(fat, n, xs) && Distinct(xs) && 0 < k <= |xs|
    ensures IsChain(fat[xs[k - 1] := END], n, xs[..k]) && Distinct(xs[..k])
    ensures IsChain(fat[xs[k - 1] := END], n, xs[k..])
  {
  }

  // ----- the walk stays inside the table ------------------------------------

  ghost predicate WalkInRange(fat: Table, n: nat, start: U16) {
    n <= |fat| && forall k: nat :: Frees(Follow(fat, start, k)) ==> Follow(fat, start, k) < n
  }

  lemma {:induction false} FollowInRange(fat: Table, n: nat, start: U16, k: nat)
    requires LinksInRange(fat, n) && (start < n || start >= BAD)
    ensures Follow(fat, start, k) < n || Follow(fat, start, k) >= BAD
  {
    if k > 0 { FollowInRange(fat, n, start, k - 1); }
  }

  /** In-range links are all it takes, however they are arranged. */
  lemma LinksGiveWalk(fat: Table, n: nat, start: U16)
    requires LinksInRange(fat, n) && (start < n || start >= BAD)
    ensures WalkInRange(fat, n, start)
  {
    forall k: nat ensures Frees(Follow(fat, start, k)) ==> Follow(fat, start, k) < n {
      FollowInRange(fat, n, start, k);
    }
  }

  lemma ChainGivesWalk(fat: Table, n: nat, xs: seq<U16>)
    requires IsChain(fat, n, xs) && xs != []
    ensures WalkInRange(fat, n, xs[0])
  {
    forall k: nat ensures Frees(Follow(fat, xs[0], k)) ==> Follow(fat, xs[0], k) < n {
      ChainFollow(fat, n, xs, k);
    }
  }

  lemma MetStep(fat: Table, start: U16, k: nat, x: U16)
    requires Frees(Follow(fat, start, k))
    ensures MetBefore(fat, start, k + 1, x) <==> MetBefore(fat, start, k, x) || x == Follow(fat, start, k)
  {
    hide Follow;
  }

  lemma FollowZero(fat: Table, n: nat, start: U16)
    ensures Follow(fat, start, 0) == start
    ensures forall x: U16 :: !MetBefore(fat, start, 0, x)
  {
  }

  lemma WalkStep(fat: Table, n: nat, start: U16, k: nat)
    requires WalkInRange(fat, n, start) && Frees(Follow(fat, start, k))
    ensures Follow(fat, start, k) < n <= |fat|
    ensures Follow(fat, start, k + 1) == fat[Follow(fat, start, k)]
  {
  }

  lemma ChainNotFree(fat: Table, n: nat, xs: seq<U16>)
    requires IsChain(fat, n, xs)
    ensures forall i | 0 <= i < |xs| :: fat[xs[i]] != FREE
  {
    forall i | 0 <= i < |xs| ensures fat[xs[i]] != FREE {
      if i < |xs| - 1 { assert xs[i + 1] >= 2; }
    }
  }
}

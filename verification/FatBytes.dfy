/** The bytes along a cluster chain, and what reading and overlaying them means. */
module FatBytes {
  import opened Bytes
  import opened FatChain

  type Clusters = seq<seq<Byte>>

  ghost predicate Sized(data: Clusters, cb: nat, xs: seq<U16>) {
    forall i | 0 <= i < |xs| :: xs[i] < |data| && |data[xs[i]]| == cb
  }

  /** All bytes of the chain's clusters, in order. */
  ghost function Raw(data: Clusters, cb: nat, xs: seq<U16>): (s: seq<Byte>)
    requires Sized(data, cb, xs)
  {
    if xs == [] then [] else Raw(data, cb, xs[..|xs| - 1]) + data[xs[|xs| - 1]]
  }

  lemma {:induction false} RawLength(data: Clusters, cb: nat, xs: seq<U16>)
    requires Sized(data, cb, xs)
    ensures |Raw(data, cb, xs)| == |xs| * cb
  {
    if xs != [] {
      RawLength(data, cb, xs[..|xs| - 1]);
      assert |xs| * cb == (|xs| - 1) * cb + cb;
    }
  }

  lemma {:induction false} RawSame(data: Clusters, data': Clusters, cb: nat, xs: seq<U16>)
    requires Sized(data, cb, xs) && |data'| == |data|
    requires forall i | 0 <= i < |xs| :: data'[xs[i]] == data[xs[i]]
    ensures Sized(data', cb, xs) && Raw(data', cb, xs) == Raw(data, cb, xs)
  {
    if xs != [] { RawSame(data, data', cb, xs[..|xs| - 1]); }
  }

  lemma FitMore(s: seq<Byte>, m: nat, k: nat)
    requires |s| <= m
    ensures Fit(s, m) + Zeros(k) == Fit(s, m + k)
  {
  }

  lemma FitLess(s: seq<Byte>, t: seq<Byte>, m: nat)
    requires m <= |s|
    ensures Fit(s + t, m) == Fit(s, m)
  {
  }

  lemma FitSame(s: seq<Byte>)
    ensures Fit(s, |s|) == s
  {
  }

  /** A chain of which a common part was kept and the rest cleared. */
  lemma {:induction false} RawResized(data: Clusters, data': Clusters, cb: nat, xs: seq<U16>, ys: seq<U16>)
    requires Sized(data, cb, xs) && Sized(data', cb, ys)
    requires forall i | 0 <= i < |xs| && i < |ys| :: ys[i] == xs[i] && data'[xs[i]] == data[xs[i]]
    requires forall i | |xs| <= i < |ys| :: data'[ys[i]] == Zeros(cb)
    ensures Raw(data', cb, ys) == Fit(Raw(data, cb, xs), |ys| * cb)
    decreases |xs| + |ys|
  {
    hide Fit, Zeros;
    RawLength(data, cb, xs);
    if |xs| > |ys| {
      var px := xs[..|xs| - 1];
      RawResized(data, data', cb, px, ys);
      RawLength(data, cb, px);
      LengthsOrdered(|ys|, |px|, cb);
      FitLess(Raw(data, cb, px), data[xs[|xs| - 1]], |ys| * cb);
    } else if |ys| > |xs| {
      var py := ys[..|ys| - 1];
      RawResized(data, data', cb, xs, py);
      LengthsOrdered(|xs|, |py|, cb);
      OneMore(|py|, cb);
      FitMore(Raw(data, cb, xs), |py| * cb, cb);
    } else {
      SameClusters(data, data', cb, xs, ys);
      FitSame(Raw(data, cb, xs));
    }
  }

  lemma SameClusters(data: Clusters, data': Clusters, cb: nat, xs: seq<U16>, ys: seq<U16>)
    requires Sized(data, cb, xs) && Sized(data', cb, ys) && |xs| == |ys|
    requires forall i | 0 <= i < |xs| :: ys[i] == xs[i] && data'[xs[i]] == data[xs[i]]
    ensures Raw(data', cb, ys) == Raw(data, cb, xs)
  {
    if xs != [] { SameClusters(data, data', cb, xs[..|xs| - 1], ys[..|ys| - 1]); }
  }

  lemma OneMore(k: nat, cb: nat)
    ensures (k + 1) * cb == k * cb + cb
  {
  }

  lemma LengthsOrdered(a: nat, b: nat, cb: nat)
    requires a <= b
    ensures a * cb <= b * cb
  {
  }

  // ----- reading ---------------------------------------------------------------

  lemma SliceAppend(a: seq<Byte>, b: seq<Byte>, off: nat, count: nat)
    ensures Slice(a + b, off, count) ==
              Slice(a, off, count) + Slice(b, if off <= |a| then 0 else off - |a|, count - |Slice(a, off, count)|)
  {
  }

  lemma RawPrefixes(data: Clusters, cb: nat, xs: seq<U16>)
    requires Sized(data, cb, xs)
    ensures Raw(data, cb, xs[..0]) == []
    ensures xs[..|xs|] == xs
  {
  }

  lemma RawStep(data: Clusters, cb: nat, xs: seq<U16>, i: nat)
    requires Sized(data, cb, xs) && i < |xs|
    ensures Raw(data, cb, xs[..i + 1]) == Raw(data, cb, xs[..i]) + data[xs[i]]
    ensures |Raw(data, cb, xs[..i])| == i * cb
    ensures (i + 1) * cb == i * cb + cb
  {
    assert xs[..i + 1][..i] == xs[..i];
    RawLength(data, cb, xs[..i]);
  }

  lemma {:induction false} RawPrefix(data: Clusters, cb: nat, xs: seq<U16>, i: nat)
    requires Sized(data, cb, xs) && i <= |xs|
    ensures Raw(data, cb, xs[..i]) <= Raw(data, cb, xs)
    decreases |xs| - i
  {
    if i < |xs| {
      RawPrefix(data, cb, xs, i + 1);
      RawStep(data, cb, xs, i);
    } else {
      assert xs[..i] == xs;
    }
  }

  /** A read that stopped early has all it wanted. */
  lemma SliceOfPrefix(data: Clusters, cb: nat, xs: seq<U16>, i: nat, size: nat, off: nat, count0: nat, count: nat)
    requires Sized(data, cb, xs) && i <= |xs| && off < size <= |Raw(data, cb, xs)|
    requires count == if count0 > size - off then size - off else count0
    requires i == |xs| || |Slice(Raw(data, cb, xs[..i]), off, count)| >= count
    ensures Slice(Raw(data, cb, xs[..i]), off, count) == Slice(Raw(data, cb, xs)[..size], off, count0)
  {
    RawPrefix(data, cb, xs, i);
    if i == |xs| { assert xs[..i] == xs; }
  }

  lemma SliceNone(s: seq<Byte>, off: nat, count: nat)
    ensures off >= |s| ==> Slice(s, off, count) == []
    ensures |Slice(s, off, count)| <= count
  {
  }

  // ----- overlaying --------------------------------------------------------------

  /** `buf` laid over `s` so that it starts at byte `off` of `s`; parts that fall
      outside `s` are dropped. */
  function Over(s: seq<Byte>, off: int, buf: seq<Byte>): (t: seq<Byte>)
    ensures |t| == |s|
  {
    seq(|s|, k requires 0 <= k < |s| => if off <= k < off + |buf| then buf[k - off] else s[k])
  }

  lemma OverAppend(a: seq<Byte>, b: seq<Byte>, off: int, buf: seq<Byte>)
    ensures Over(a + b, off, buf) == Over(a, off, buf) + Over(b, off - |a|, buf)
  {
  }

  lemma OverMisses(s: seq<Byte>, off: int, buf: seq<Byte>)
    requires off >= |s| || off + |buf| <= 0
    ensures Over(s, off, buf) == s
  {
  }

  /** The inner loop of `fat16_read_file`: the first `skip` bytes of the cluster
      are passed over, the rest appended until `count` bytes are in. */
  method CopyOut(cluster: seq<Byte>, skip0: nat, out0: seq<Byte>, count: nat) returns (skip: nat, out: seq<Byte>)
    requires |out0| < count
    ensures out == out0 + Slice(cluster, skip0, count - |out0|)
    ensures |out| < count ==> skip == if skip0 <= |cluster| then 0 else skip0 - |cluster|
  {
    skip, out := skip0, out0;
    var coff := 0;
    while coff < |cluster| && |out| < count
      invariant coff <= |cluster| && |out| <= count
      invariant skip == if skip0 <= coff then 0 else skip0 - coff
      invariant out == out0 + (if skip0 <= coff then cluster[skip0..coff] else [])
    {
      if skip > 0 {
        skip := skip - 1;
        assert skip0 == coff + 1 ==> cluster[skip0..coff + 1] == [];
      } else {
        assert cluster[skip0..coff] + [cluster[coff]] == cluster[skip0..coff + 1];
        out := out + [cluster[coff]];
      }
      coff := coff + 1;
    }
  }

  /** The inner loop of `fat16_write_file`: bytes of `buf` from `done0` on are
      laid over the cluster behind its first `skip` bytes. */
  method CopyIn(cluster: seq<Byte>, skip0: nat, buf: seq<Byte>, done0: nat) returns (skip: nat, done: nat,
                out: seq<Byte>)
    requires done0 < |buf| && (skip0 == 0 || done0 == 0)
    ensures out == Over(cluster, skip0 - done0, buf)
    ensures done0 <= done <= |buf|
    ensures done < |buf| ==> skip - done == skip0 - done0 - |cluster| && (skip == 0 || done == 0)
    ensures done == |buf| ==> skip0 - done0 + |buf| <= |cluster|
    ensures done == done0 ==> out == cluster
  {
    skip, done, out := skip0, done0, cluster;
    var coff := 0;
    while coff < |cluster| && done < |buf|
      invariant coff <= |cluster| && |out| == |cluster| && done0 <= done <= |buf|
      invariant skip == if skip0 <= coff then 0 else skip0 - coff
      invariant done == if skip0 <= coff then done0 + (coff - skip0) else done0
      invariant forall k | 0 <= k < |cluster| ::
                  out[k] == if k < coff && skip0 <= k then buf[done0 + (k - skip0)] else cluster[k]
    {
      if skip > 0 {
        skip := skip - 1;
      } else {
        out := out[coff := buf[done]];
        done := done + 1;
      }
      coff := coff + 1;
    }
  }

  /** Laying `buf` over the first clusters of a chain one by one. */
  lemma OverStep(data: Clusters, data': Clusters, cb: nat, xs: seq<U16>, i: nat, off: int, buf: seq<Byte>)
    requires Sized(data, cb, xs) && Sized(data', cb, xs) && i < |xs|
    requires Raw(data', cb, xs[..i]) == Over(Raw(data, cb, xs[..i]), off, buf)
    requires data'[xs[i]] == Over(data[xs[i]], off - i * cb, buf)
    ensures Raw(data', cb, xs[..i + 1]) == Over(Raw(data, cb, xs[..i + 1]), off, buf)
  {
    RawStep(data, cb, xs, i);
    RawStep(data', cb, xs, i);
    OverAppend(Raw(data, cb, xs[..i]), data[xs[i]], off, buf);
  }

  /** Once `buf` is used up the rest of the chain stays as it is. */
  lemma {:induction false} OverRest(data: Clusters, data': Clusters, cb: nat, xs: seq<U16>, i: nat, off: int,
                                    buf: seq<Byte>)
    requires Sized(data, cb, xs) && Sized(data', cb, xs) && i <= |xs|
    requires Raw(data', cb, xs[..i]) == Over(Raw(data, cb, xs[..i]), off, buf)
    requires forall j | i <= j < |xs| :: data'[xs[j]] == data[xs[j]]
    requires i < |xs| ==> off + |buf| <= i * cb
    ensures Raw(data', cb, xs) == Over(Raw(data, cb, xs), off, buf)
    decreases |xs| - i
  {
    if i < |xs| {
      OverMisses(data[xs[i]], off - i * cb, buf);
      OverStep(data, data', cb, xs, i, off, buf);
      assert i * cb <= (i + 1) * cb;
      OverRest(data, data', cb, xs, i + 1, off, buf);
    } else {
      assert xs[..i] == xs;
    }
  }

  lemma OverNothing(data: Clusters, cb: nat, xs: seq<U16>, off: int, buf: seq<Byte>)
    requires Sized(data, cb, xs)
    ensures Raw(data, cb, xs[..0]) == Over(Raw(data, cb, xs[..0]), off, buf)
    ensures Over(Raw(data, cb, xs), off, []) == Raw(data, cb, xs)
  {
  }
}

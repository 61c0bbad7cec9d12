/** User memory as the loader and a starting program see it: bytes at addresses,
    little-endian 64-bit words, NUL-terminated strings. */
module ExecMemory {
  import opened Bytes

  type Memory = nat -> Byte

  function At(m: Memory, a: nat): Byte {
    m(a)
  }

  /** `copy_to_user_region_in_directory(pml4, a, bs, |bs|)` on mapped memory. */
  function Put(m: Memory, a: nat, bs: seq<Byte>): Memory {
    (x: nat) => if a <= x < a + |bs| then bs[x - a] else m(x)
  }

  lemma PutAt(m: Memory, a: nat, bs: seq<Byte>, x: nat)
    ensures At(Put(m, a, bs), x) == if a <= x < a + |bs| then bs[x - a] else At(m, x)
  {
  }

  ghost predicate SameOn(m: Memory, m': Memory, lo: nat, hi: nat) {
    forall x | lo <= x < hi :: At(m', x) == At(m, x)
  }

  /** Bytes outside [lo, hi) are the same. */
  ghost predicate SameOutside(m: Memory, m': Memory, lo: nat, hi: nat) {
    forall x: nat :: x < lo || x >= hi ==> At(m', x) == At(m, x)
  }

  // ----- words -----------------------------------------------------------------

  function Le(v: nat, k: nat): (bs: seq<Byte>)
    ensures |bs| == k
  {
    if k == 0 then [] else [v % 256] + Le(v / 256, k - 1)
  }

  function FromLe(bs: seq<Byte>): nat {
    if bs == [] then 0 else bs[0] + 256 * FromLe(bs[1..])
  }

  function Pow256(k: nat): nat {
    if k == 0 then 1 else 256 * Pow256(k - 1)
  }

  lemma {:induction false} LeRoundTrip(v: nat, k: nat)
    requires v < Pow256(k)
    ensures FromLe(Le(v, k)) == v
  {
    if k > 0 {
      LeRoundTrip(v / 256, k - 1);
      assert Le(v, k)[1..] == Le(v / 256, k - 1);
    }
  }

  const U64_LIMIT := 0x1_0000_0000_0000_0000

  lemma Pow256At8()
    ensures Pow256(8) == U64_LIMIT
  {
    assert Pow256(4) == 0x1_0000_0000;
  }

  function Get(m: Memory, a: nat, n: nat): (bs: seq<Byte>)
    ensures |bs| == n
  {
    seq<Byte>(n, i requires 0 <= i < n => At(m, a + i))
  }

  function WordAt(m: Memory, a: nat): nat {
    FromLe(Get(m, a, 8))
  }

  lemma WordPut(m: Memory, a: nat, v: nat)
    requires v < U64_LIMIT
    ensures WordAt(Put(m, a, Le(v, 8)), a) == v
  {
    Pow256At8();
    LeRoundTrip(v, 8);
    var m', bs := Put(m, a, Le(v, 8)), Le(v, 8);
    forall i | 0 <= i < 8 ensures Get(m', a, 8)[i] == bs[i] {
      PutAt(m, a, bs, a + i);
    }
    assert Get(m', a, 8) == bs;
  }

  lemma WordKept(m: Memory, m': Memory, a: nat)
    requires SameOn(m, m', a, a + 8)
    ensures WordAt(m', a) == WordAt(m, a)
  {
    assert Get(m', a, 8) == Get(m, a, 8);
  }

  /** `ws` stored as consecutive words from `a`. */
  ghost predicate WordsAt(m: Memory, a: nat, ws: seq<nat>) {
    forall i | 0 <= i < |ws| :: WordAt(m, a + 8 * i) == ws[i]
  }

  lemma WordsKept(m: Memory, m': Memory, a: nat, ws: seq<nat>)
    requires WordsAt(m, a, ws) && SameOn(m, m', a, a + 8 * |ws|)
    ensures WordsAt(m', a, ws)
  {
    hide WordAt;
    forall i | 0 <= i < |ws| ensures WordAt(m', a + 8 * i) == ws[i] {
      WordKept(m, m', a + 8 * i);
    }
  }

  lemma WordsJoin(m: Memory, a: nat, x: seq<nat>, y: seq<nat>)
    ensures WordsAt(m, a, x + y) <==> WordsAt(m, a, x) && WordsAt(m, a + 8 * |x|, y)
  {
    hide WordAt;
    if WordsAt(m, a, x + y) {
      forall i | 0 <= i < |x| ensures WordAt(m, a + 8 * i) == x[i] {
        assert (x + y)[i] == x[i];
      }
      forall i | 0 <= i < |y| ensures WordAt(m, (a + 8 * |x|) + 8 * i) == y[i] {
        assert WordAt(m, a + 8 * (|x| + i)) == (x + y)[|x| + i];
      }
    }
    if WordsAt(m, a, x) && WordsAt(m, a + 8 * |x|, y) {
      forall i | 0 <= i < |x + y| ensures WordAt(m, a + 8 * i) == (x + y)[i] {
        if i >= |x| { assert WordAt(m, (a + 8 * |x|) + 8 * (i - |x|)) == y[i - |x|]; }
      }
    }
  }

  // ----- strings ----------------------------------------------------------------

  ghost predicate NoNul(s: seq<Byte>) {
    forall i | 0 <= i < |s| :: s[i] != 0
  }

  /** `s` and its terminating NUL stored at `p`. */
  ghost predicate StoredAt(m: Memory, p: nat, s: seq<Byte>) {
    (forall i | 0 <= i < |s| :: At(m, p + i) == s[i]) && At(m, p + |s|) == 0
  }

  ghost predicate StringsAt(m: Memory, ps: seq<nat>, ss: seq<seq<Byte>>) {
    |ps| == |ss| && forall i | 0 <= i < |ps| :: StoredAt(m, ps[i], ss[i])
  }

  /** All pointers into [lo, hi), with room for their strings. */
  ghost predicate Within(ps: seq<nat>, ss: seq<seq<Byte>>, lo: nat, hi: nat) {
    |ps| == |ss| && forall i | 0 <= i < |ps| :: lo <= ps[i] && ps[i] + |ss[i]| < hi
  }

  lemma StringsKept(m: Memory, m': Memory, ps: seq<nat>, ss: seq<seq<Byte>>, lo: nat, hi: nat)
    requires StringsAt(m, ps, ss) && Within(ps, ss, lo, hi) && SameOn(m, m', lo, hi)
    ensures StringsAt(m', ps, ss)
  {
  }

  // ----- a program's own reader ---------------------------------------------------

  /** The C string at `a`, read no further than `top`. */
  function ReadString(m: Memory, a: nat, top: nat): seq<Byte>
    decreases top - a
  {
    if a >= top || At(m, a) == 0 then [] else [At(m, a)] + ReadString(m, a + 1, top)
  }

  lemma {:induction false} ReadStored(m: Memory, p: nat, s: seq<Byte>, top: nat)
    requires StoredAt(m, p, s) && NoNul(s) && p + |s| < top
    ensures ReadString(m, p, top) == s
    decreases |s|
  {
    if s != [] {
      assert At(m, p + 0) == s[0];
      forall i | 0 <= i < |s[1..]| ensures At(m, (p + 1) + i) == s[1..][i] {
        assert At(m, p + (i + 1)) == s[i + 1];
      }
      ReadStored(m, p + 1, s[1..], top);
    }
  }

  /** The words from `a` up to a NULL. */
  function ReadVector(m: Memory, a: nat, top: nat): seq<nat>
    decreases top - a
  {
    if a + 8 > top || WordAt(m, a) == 0 then [] else [WordAt(m, a)] + ReadVector(m, a + 8, top)
  }

  lemma {:induction false} ReadWords(m: Memory, a: nat, ws: seq<nat>, top: nat)
    requires WordsAt(m, a, ws + [0]) && a + 8 * (|ws| + 1) <= top
    requires forall i | 0 <= i < |ws| :: ws[i] != 0
    ensures ReadVector(m, a, top) == ws
    decreases |ws|
  {
    hide WordAt;
    assert WordAt(m, a + 8 * 0) == (ws + [0])[0];
    if ws != [] {
      forall i | 0 <= i < |ws[1..] + [0]| ensures WordAt(m, (a + 8) + 8 * i) == (ws[1..] + [0])[i] {
        assert WordAt(m, a + 8 * (i + 1)) == (ws + [0])[i + 1];
      }
      ReadWords(m, a + 8, ws[1..], top);
    }
  }

  datatype Aux = Aux(kind: nat, val: nat)

  /** The auxiliary vector from `a` up to its AT_NULL entry. */
  function ReadAuxv(m: Memory, a: nat, top: nat): seq<Aux>
    decreases top - a
  {
    if a + 16 > top || WordAt(m, a) == 0 then []
    else [Aux(WordAt(m, a), WordAt(m, a + 8))] + ReadAuxv(m, a + 16, top)
  }

  function AuxWords(xs: seq<Aux>): (ws: seq<nat>)
    ensures |ws| == 2 * |xs|
  {
    if xs == [] then [] else [xs[0].kind, xs[0].val] + AuxWords(xs[1..])
  }

  lemma {:induction false} ReadAuxWords(m: Memory, a: nat, xs: seq<Aux>, top: nat)
    requires WordsAt(m, a, AuxWords(xs) + [0, 0]) && a + 16 * (|xs| + 1) <= top
    requires forall i | 0 <= i < |xs| :: xs[i].kind != 0
    ensures ReadAuxv(m, a, top) == xs
    decreases |xs|
  {
    hide WordAt;
    var ws := AuxWords(xs) + [0, 0];
    assert WordAt(m, a + 8 * 0) == ws[0] && WordAt(m, a + 8 * 1) == ws[1];
    if xs != [] {
      var ws' := AuxWords(xs[1..]) + [0, 0];
      forall i | 0 <= i < |ws'| ensures WordAt(m, (a + 16) + 8 * i) == ws'[i] {
        assert WordAt(m, a + 8 * (i + 2)) == ws[i + 2];
      }
      ReadAuxWords(m, a + 16, xs[1..], top);
    }
  }
}

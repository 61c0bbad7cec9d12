/** Whole runs of tmpfs operations. */
module TmpfsRuns {
  import opened Bytes
  import opened Outcomes
  import opened PathNames
  import opened TmpfsTree
  import opened TmpfsSpec
  import TmpfsNames
  import V = TmpfsVolume

  datatype Op =
    | Mkdir(rel: string)
    | Create(rel: string)
    | Unlink(rel: string)
    | Rmdir(rel: string)
    | Write(rel: string, off: int, data: seq<Byte>)
    | Truncate(rel: string, size: nat)

  ghost function SpecStep(t: Tree, op: Op): (Tree, Errno) {
    match op
    case Mkdir(rel) => TmpfsSpec.Make(t, rel, Dir)
    case Create(rel) => TmpfsSpec.Make(t, rel, File([]))
    case Unlink(rel) => TmpfsSpec.Unlink(t, rel)
    case Rmdir(rel) => TmpfsSpec.Rmdir(t, rel)
    case Write(rel, off, data) => TmpfsSpec.Write(t, rel, off, data)
    case Truncate(rel, n) => TmpfsSpec.Truncate(t, rel, n)
  }

  ghost function SpecRun(t: Tree, ops: seq<Op>): (Tree, seq<Errno>) {
    if ops == [] then (t, [])
    else
      var (t1, sts) := SpecRun(t, ops[..|ops| - 1]);
      var (t2, st) := SpecStep(t1, ops[|ops| - 1]);
      (t2, sts + [st])
  }

  method Step(v: V.Volume, op: Op) returns (st: Errno)
    requires v.Valid()
    modifies v
    ensures v.Valid() && (v.Tree(), st) == SpecStep(old(v.Tree()), op)
  {
    hide TmpfsNames.Good, TmpfsNames.TreeOf, TmpfsSpec.Make, TmpfsSpec.Unlink, TmpfsSpec.Rmdir, TmpfsSpec.Write,
         TmpfsSpec.Truncate;
    match op
    case Mkdir(rel) => st := v.Make(rel, true);
    case Create(rel) => st := v.Make(rel, false);
    case Unlink(rel) => st := v.Unlink(rel);
    case Rmdir(rel) => st := v.Rmdir(rel);
    case Write(rel, off, data) => st := v.Write(rel, off, data);
    case Truncate(rel, n) => st := v.Truncate(rel, n);
  }

  /** From mount on, every run answers and ends as the map of paths does. */
  method Run(ops: seq<Op>) returns (v: V.Volume, sts: seq<Errno>)
    ensures fresh(v) && v.Valid()
    ensures (v.Tree(), sts) == SpecRun(map[[] := Dir], ops)
  {
    hide SpecStep, TmpfsNames.Good, TmpfsNames.TreeOf;
    v := new V.Volume();
    sts := [];
    var i := 0;
    while i < |ops|
      invariant 0 <= i <= |ops| && fresh(v) && v.Valid()
      invariant (v.Tree(), sts) == SpecRun(map[[] := Dir], ops[..i])
    {
      var st := Step(v, ops[i]);
      assert ops[..i + 1][..i] == ops[..i];
      sts := sts + [st];
      i := i + 1;
    }
    assert ops[..i] == ops;
  }

  // ----- what the map of paths promises ------------------------------------------------

  /** Every path but the root lies in a directory, and there are never more paths
      than slots. */
  ghost predicate WellFormed(t: Tree) {
    && [] in t && t[[]] == Dir && |t| <= SLOTS
    && forall p | p in t && p != [] :: Dirname(p) in t && t[Dirname(p)] == Dir
  }

  lemma PutWellFormed(t: Tree, p: Path, e: Entry)
    requires WellFormed(t) && p != [] && Dirname(p) in t && t[Dirname(p)] == Dir
    requires (p !in t && |t| < SLOTS) || (p in t && t[p] != Dir && e != Dir)
    ensures WellFormed(t[p := e])
  {
    hide Dirname;
  }

  lemma DropWellFormed(t: Tree, p: Path)
    requires WellFormed(t) && p in t && p != [] && (t[p] != Dir || !HasChild(t, p))
    ensures WellFormed(t - {p})
  {
    hide Dirname;
    var t' := t - {p};
    assert t == t'[p := t[p]];
    forall q | q in t' && q != [] ensures Dirname(q) in t' && t'[Dirname(q)] == Dir {
      assert Dirname(q) == p ==> HasChild(t, p);
    }
  }

  lemma StepWellFormed(t: Tree, op: Op)
    requires WellFormed(t)
    ensures WellFormed(SpecStep(t, op).0)
  {
    hide Comps, Written, Fit, Dirname, HasChild;
    var p := PathOf(op.rel);
    WellFormedAt(t, p);
    if SpecStep(t, op).1 == OK && p != [] {
      match op
      case Mkdir(_) => PutWellFormed(t, p, Dir);
      case Create(_) => PutWellFormed(t, p, File([]));
      case Unlink(_) => DropWellFormed(t, p);
      case Rmdir(_) => DropWellFormed(t, p);
      case Write(_, off, data) => PutWellFormed(t, p, File(Written(t[p].data, off, data)));
      case Truncate(_, n) => PutWellFormed(t, p, File(Fit(t[p].data, n)));
    }
  }

  lemma WellFormedAt(t: Tree, p: Path)
    requires WellFormed(t)
    ensures |t| <= SLOTS && [] in t && t[[]] == Dir
    ensures p in t && p != [] ==> Dirname(p) in t && t[Dirname(p)] == Dir
  {
  }

  lemma {:induction false} RunWellFormed(ops: seq<Op>)
    ensures WellFormed(SpecRun(map[[] := Dir], ops).0)
    ensures |SpecRun(map[[] := Dir], ops).1| == |ops|
  {
    hide SpecStep;
    if ops != [] {
      RunWellFormed(ops[..|ops| - 1]);
      StepWellFormed(SpecRun(map[[] := Dir], ops[..|ops| - 1]).0, ops[|ops| - 1]);
    }
  }

  /** What mkdir makes is a directory: unlink refuses it, and names can be made below it.
      What create makes is an empty file: rmdir refuses it, it reads as nothing,
      and nothing can be made below it. */
  lemma MadeKinds(t: Tree, rel: string)
    ensures var (t', st) := SpecStep(t, Mkdir(rel));
            st == OK ==>
              && PathOf(rel) !in t && t' == t[PathOf(rel) := Dir] && SpecStep(t', Unlink(rel)).1 == EISDIR
              && forall sub | Dirname(PathOf(sub)) == PathOf(rel) && PathOf(sub) !in t' && !NoLastName(sub) &&
                |t'| < SLOTS ::
                   SpecStep(t', Create(sub)).1 == OK
    ensures var (t', st) := SpecStep(t, Create(rel));
            st == OK ==>
              && PathOf(rel) !in t && t' == t[PathOf(rel) := File([])] && SpecStep(t', Rmdir(rel)).1 == ENOTDIR
              && (forall off, count: nat :: TmpfsSpec.Read(t', rel, off, count) == ([], OK))
              && forall sub | Dirname(PathOf(sub)) == PathOf(rel) && PathOf(sub) !in t' && !NoLastName(sub) ::
                   SpecStep(t', Create(sub)).1 == ENOENT
  {
    hide Comps;
  }

  /** What was created can be removed again, and then nothing has changed. */
  lemma MakeThenRemove(t: Tree, rel: string)
    requires WellFormed(t)
    ensures TmpfsSpec.Make(t, rel, File([])).1 == OK ==>
              TmpfsSpec.Unlink(TmpfsSpec.Make(t, rel, File([])).0, rel) == (t, OK)
    ensures TmpfsSpec.Make(t, rel, Dir).1 == OK ==> TmpfsSpec.Rmdir(TmpfsSpec.Make(t, rel, Dir).0, rel) == (t, OK)
  {
    hide Comps;
    var p := PathOf(rel);
    if TmpfsSpec.Make(t, rel, Dir).1 == OK {
      assert t[p := Dir] - {p} == t && t[p := File([])] - {p} == t;
    }
  }

  /** A write is read back, and the bytes around it are the old ones, with zeros
      in a gap. */
  lemma WriteThenRead(t: Tree, rel: string, off: nat, data: seq<Byte>)
    requires TmpfsSpec.Write(t, rel, off, data).1 == OK
    ensures var t' := TmpfsSpec.Write(t, rel, off, data).0; var p := PathOf(rel);
            && TmpfsSpec.Read(t', rel, off, |data|) == (data, OK)
            && |t'[p].data| == (if off + |data| > |t[p].data| then off + |data| else |t[p].data|)
            && (forall q | q in t && q != p :: q in t' && t'[q] == t[q])
            && (forall k | 0 <= k < |t'[p].data| && !(off <= k < off + |data|) ::
                  t'[p].data[k] == if k < |t[p].data| then t[p].data[k] else 0)
  {
    hide Comps;
  }

  /** Cutting a file and growing it again shows zeros, never its old bytes. */
  lemma CutThenGrow(t: Tree, rel: string, m: nat, n: nat)
    requires TmpfsSpec.Truncate(t, rel, n).1 == OK && m <= |t[PathOf(rel)].data| && m <= n
    ensures var t1 := TmpfsSpec.Truncate(t, rel, m).0;
            TmpfsSpec.Truncate(t1, rel, n) == (t[PathOf(rel) := File(t[PathOf(rel)].data[..m] + Zeros(n - m))], OK)
  {
    hide Comps;
    var p := PathOf(rel);
    var c := t[p].data;
    assert Fit(Fit(c, m), n) == c[..m] + Zeros(n - m);
    assert t[p := File(Fit(c, m))][p := File(c[..m] + Zeros(n - m))] == t[p := File(c[..m] + Zeros(n - m))];
  }
}

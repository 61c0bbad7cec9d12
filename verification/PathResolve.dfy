/** What `normalize_path` (fs/path.c:17-109) does to the components of a path. A ".."
    takes the last component away and leaves the slashes in front of it, so the
    next name is written behind one slash too many; and where two or more slashes
    stand at the end, the next ".." takes only one of them away. */
module PathResolve {
  import opened Outcomes
  import opened PathNames
  import opened PathJail

  // ----- the reference: a stack of names -----------------------------------------------------

  function DropLast(names: seq<string>): seq<string> {
    if names == [] then [] else names[..|names| - 1]
  }

  /** What the components of a path stand for. */
  function Resolve(cs: seq<string>): seq<string> {
    if cs == [] then []
    else
      var names, c := Resolve(cs[..|cs| - 1]), cs[|cs| - 1];
      if c == "." then names else if c == ".." then DropLast(names) else names + [c]
  }

  // ----- what the code computes, on components alone -----------------------------------------

  /** The names in the buffer, how many slashes stand in front of each, and how many at
      the end. */
  datatype Trail = Trail(names: seq<string>, gaps: seq<nat>, tail: nat)

  const NOTHING := Trail([], [], 0)

  /** One component. The first name of a relative path keeps its first character. */
  function Go(t: Trail, c: string, abs: bool): Trail
    requires |t.gaps| == |t.names|
  {
    if c == "." || (c == ".." && t.names == []) then t
    else if c == ".." then
      var n := |t.names| - 1;
      if t.tail >= 2 then t.(tail := t.tail - 1)
      else if n > 0 then Trail(t.names[..n], t.gaps[..n], t.gaps[n])
      else if abs then NOTHING
      else Trail([t.names[0][..if t.names[0] == "" then 0 else 1]], t.gaps, 0)
    else if t.names == [] then Trail([c], [0], 0)
    else Trail(t.names + [c], t.gaps + [t.tail + 1], 0)
  }

  function Gone(cs: seq<string>, abs: bool): (t: Trail)
    ensures |t.gaps| == |t.names|
  {
    if cs == [] then NOTHING else Go(Gone(cs[..|cs| - 1], abs), cs[|cs| - 1], abs)
  }

  // ----- the buffer ----------------------------------------------------------------------------

  function Slashes(n: nat): string {
    seq(n, _ => '/')
  }

  /** The buffer that holds these names behind these slashes. */
  function Written(names: seq<string>, gaps: seq<nat>, abs: bool): string
    requires |gaps| == |names|
  {
    if names == [] then if abs then "/" else ""
    else
      var n := |names| - 1;
      Written(names[..n], gaps[..n], abs) + Slashes(gaps[n]) + names[n]
  }

  function Buffer(t: Trail, abs: bool): string
    requires |t.gaps| == |t.names|
  {
    Written(t.names, t.gaps, abs) + Slashes(t.tail)
  }

  /** Names are components, and the slashes are where the code puts them. */
  ghost predicate Sound(t: Trail) {
    && |t.gaps| == |t.names| && (t.names == [] ==> t.tail == 0)
    && (forall i | 0 <= i < |t.names| :: IsComp(t.names[i]) && (i == 0 ==> t.gaps[i] == 0) && (i > 0 ==> t.gaps[i] > 0))
  }

  lemma GoSound(t: Trail, c: string, abs: bool)
    requires Sound(t) && IsComp(c)
    ensures Sound(Go(t, c, abs))
  {
  }

  /** Where the way back over the buffer ends. */
  lemma {:induction false} UpToIs(d: string, p: nat, q: nat)
    requires 1 <= q <= p <= |d| && (q == 1 || d[q - 1] == '/') && forall j | q <= j < p :: d[j] != '/'
    ensures UpTo(d, p) == q
    decreases p
  {
    if p > q { UpToIs(d, p - 1, q); }
  }

  lemma WrittenStart(t: Trail, abs: bool)
    requires Sound(t)
    ensures abs ==> Abs(Written(t.names, t.gaps, abs))
    ensures t.names != [] ==> NeedsSlash(Buffer(t, abs)) && Buffer(t, abs) != ""
    ensures t.names == [] ==> Buffer(t, abs) == if abs then "/" else ""
    decreases |t.names|
  {
    if t.names != [] {
      var n := |t.names| - 1;
      var t' := Trail(t.names[..n], t.gaps[..n], 0);
      WrittenStart(t', abs);
      assert Buffer(t', abs) == Written(t'.names, t'.gaps, abs);
    }
  }

  lemma PushBuffer(t: Trail, c: string, abs: bool)
    requires Sound(t) && IsComp(c) && c != "." && c != ".."
    ensures var d := Buffer(t, abs);
            Buffer(Go(t, c, abs), abs) == (if NeedsSlash(d) then d + "/" else d) + c
  {
    WrittenStart(t, abs);
    var t' := Go(t, c, abs);
    var n := |t'.names| - 1;
    assert t'.names[..n] == t.names && t'.gaps[..n] == t.gaps;
    assert Slashes(t.tail + 1) == Slashes(t.tail) + "/";
    assert Slashes(0) == "";
  }

  /** One slash of several goes. */
  lemma UpSlash(t: Trail, abs: bool)
    requires Sound(t) && t.tail >= 2
    ensures Up(Buffer(t, abs)) == Buffer(Go(t, "..", abs), abs)
  {
    var d := Buffer(t, abs);
    assert d[|d| - 2] == '/';
    UpToIs(d, |d| - 1, |d| - 1);
    assert Slashes(t.tail)[..t.tail - 1] == Slashes(t.tail - 1);
  }

  /** The last name goes. */
  lemma UpName(t: Trail, abs: bool)
    requires Sound(t) && t.tail < 2 && t.names != []
    ensures Up(Buffer(t, abs)) == Buffer(Go(t, "..", abs), abs)
  {
    hide Written, UpTo;
    var n := |t.names| - 1;
    var d, c := Buffer(t, abs), t.names[n];
    var t' := Trail(t.names[..n], t.gaps[..n], if n == 0 then 0 else t.gaps[n]);
    WrittenLast(t, abs);
    var w := Buffer(t', abs);
    assert d == w + c + Slashes(t.tail);
    WrittenStart(t', abs);
    assert n > 0 ==> w[|w| - 1] == '/';
    if n > 0 || abs {
      UpToIs(d, |d| - 1, |w|);
      assert d[..|w|] == w;
    } else if |d| > 1 {
      UpToIs(d, |d| - 1, 1);
      FirstOnly(t, abs);
    } else {
      FirstOnly(t, abs);
    }
  }

  lemma WrittenLast(t: Trail, abs: bool)
    requires Sound(t) && t.names != []
    ensures var n := |t.names| - 1;
            Written(t.names, t.gaps, abs) ==
              Buffer(Trail(t.names[..n], t.gaps[..n], if n == 0 then 0 else t.gaps[n]), abs) + t.names[n]
  {
    assert t.gaps[0] == 0;
  }

  lemma FirstOnly(t: Trail, abs: bool)
    requires Sound(t) && |t.names| == 1 && t.tail < 2 && !abs
    ensures Buffer(t, abs) == t.names[0] + Slashes(t.tail)
    ensures Buffer(Go(t, "..", abs), abs) == t.names[0][..1]
  {
    var t' := Go(t, "..", abs);
    var none: seq<string> := [];
    assert t.names[..0] == none && t'.names[..0] == none && Slashes(0) == "" && t.gaps[0] == 0;
    assert Written(none, t.gaps[..0], abs) == "";
  }

  /** One component of the code is one component of the trail, and it is refused exactly if
      the buffer is too small for the outcome. */
  lemma StepBuffer(t: Trail, c: string, abs: bool, size: nat)
    requires Sound(t) && IsComp(c) && |Buffer(t, abs)| < size
    ensures Step(Buffer(t, abs), c, size) ==
              if |Buffer(Go(t, c, abs), abs)| < size then Some(Buffer(Go(t, c, abs), abs)) else None
  {
    hide Buffer, Up;
    if c == "." {
    } else if c == ".." {
      UpShorter(Buffer(t, abs));
      if t.names == [] {
        UpNothing(t, abs);
      } else if t.tail >= 2 {
        UpSlash(t, abs);
      } else {
        UpName(t, abs);
      }
    } else {
      PushBuffer(t, c, abs);
    }
  }

  lemma UpShorter(d: string)
    ensures |Up(d)| <= |d|
  {
  }

  lemma UpNothing(t: Trail, abs: bool)
    requires Sound(t) && t.names == []
    ensures Up(Buffer(t, abs)) == Buffer(t, abs)
  {
    WrittenStart(t, abs);
  }

  lemma GoneStep(cs: seq<string>, i: nat, abs: bool)
    requires i < |cs|
    ensures Gone(cs[..i + 1], abs) == Go(Gone(cs[..i], abs), cs[i], abs)
  {
    assert cs[..i + 1][..i] == cs[..i];
  }

  lemma {:induction false} GoneSound(cs: seq<string>, abs: bool)
    requires forall i | 0 <= i < |cs| :: IsComp(cs[i])
    ensures Sound(Gone(cs, abs))
  {
    if cs != [] {
      GoneSound(cs[..|cs| - 1], abs);
      GoSound(Gone(cs[..|cs| - 1], abs), cs[|cs| - 1], abs);
    }
  }

  /** The buffer is large enough for every step after the first `i`. */
  ghost predicate Fitting(cs: seq<string>, i: nat, abs: bool, size: nat) {
    forall j | i < j <= |cs| :: |Buffer(Gone(cs[..j], abs), abs)| < size
  }

  /** From the trail of the first `i` components on. */
  lemma {:induction false} FoldIsGone(cs: seq<string>, i: nat, abs: bool, size: nat)
    requires i <= |cs| && (forall j | 0 <= j < |cs| :: IsComp(cs[j])) && |Buffer(Gone(cs[..i], abs), abs)| < size
    ensures Fold(Buffer(Gone(cs[..i], abs), abs), cs[i..], size) ==
              if Fitting(cs, i, abs, size) then Some(Buffer(Gone(cs, abs), abs)) else None
    decreases |cs| - i
  {
    hide Buffer, Gone, Step;
    if i < |cs| {
      GoneSound(cs[..i], abs);
      StepBuffer(Gone(cs[..i], abs), cs[i], abs, size);
      GoneStep(cs, i, abs);
      assert cs[i..][0] == cs[i] && cs[i..][1..] == cs[i + 1..];
      if |Buffer(Gone(cs[..i + 1], abs), abs)| < size { FoldIsGone(cs, i + 1, abs, size); }
    } else {
      assert cs[..i] == cs && cs[i..] == [];
    }
  }

  /** `normalize_path` of every absolute path: the buffer the trail of its components
      gives, if and only if that is never too long on the way. */
  lemma NormIsGone(src: string, size: nat)
    requires Abs(src) && (size <= BUF || Short(Comps(src))) && size >= 2
    ensures Norm(src, size) ==
              if Fitting(Comps(src), 0, true, size) then Some(Buffer(Gone(Comps(src), true), true)) else None
  {
    hide Buffer, Norm, Fold, Comps, Gone, Fitting;
    var cs := Comps(src);
    StartBuffer(true);
    assert cs[..0] == [] && cs[0..] == cs;
    NormIsFold(src, size);
    FoldIsGone(cs, 0, true, size);
  }

  /** `join_paths`: the components of the second path behind those of the first, or alone
      if it is absolute. */
  lemma JoinIsGone(base: string, rel: string, size: nat)
    requires Abs(base) && 2 <= size <= BUF
    ensures var cs := if Abs(rel) then Comps(rel) else Comps(base) + Comps(rel);
            JoinPaths(base, rel, size) ==
              if (!Abs(rel) && |base| + 1 + |rel| >= COMBINED) || !Fitting(cs, 0, true, size) then None
              else Some(Buffer(Gone(cs, true), true))
  {
    hide Buffer, Norm, Comps, Gone, Fitting;
    if Abs(rel) {
      NormIsGone(rel, size);
    } else {
      var b := base + (if base[|base| - 1] != '/' then "/" else "");
      CompsOfSlash();
      CompsCut(base, "/");
      assert b == base || b == base + "/";
      assert Comps(b) == Comps(base);
      CompsCut(b, rel);
      NormIsGone(b + rel, size);
      assert base + (if base != "" && base[|base| - 1] != '/' then "/" else "") + rel == b + rel;
    }
  }

  lemma NothingFits(size: nat)
    ensures Fitting([], 0, false, size)
  {
  }

  lemma StartBuffer(abs: bool)
    ensures Buffer(Gone([], abs), abs) == if abs then "/" else ""
  {
  }

  /** And of every relative one whose components fit theirs. */
  lemma RelativeIsGone(src: string, size: nat)
    requires !Abs(src) && Short(Comps(src)) && size >= 2
    ensures var d := Buffer(Gone(Comps(src), false), false);
            Norm(src, size) == if !Fitting(Comps(src), 0, false, size) then None else Some(if d == "" then "/" else d)
  {
    hide Buffer, Walk, Fold, Comps, Gone, Fitting;
    var cs := Comps(src);
    if src == "" {
      NoComps();
      NothingFits(size);
    }
    StartBuffer(false);
    assert cs[..0] == [] && cs[0..] == cs;
    RelativeFold("", src, size);
    FoldIsGone(cs, 0, false, size);
  }

  lemma {:induction false} RelativeFold(dest: string, s: string, size: nat)
    requires Short(Comps(s))
    ensures var r := Fold(dest, Comps(s), size);
            Walk(dest, s, size) == if r == Some("") then Some("/") else r
    decreases |s|
  {
    hide CompEnd;
    if s == "" {
    } else if s[0] == '/' {
      RelativeFold(dest, s[1..], size);
    } else {
      var e := CompEnd(s, 0);
      FoldFirst(dest, s, size);
      RestShort(s);
      assert Comps(s)[0] == s[..e];
      var d := Step(dest, s[..e], size);
      if d.Some? { RelativeFold(d.value, s[e..], size); }
    }
  }

  // ----- the names ------------------------------------------------------------------------------

  lemma {:induction false} SlashesNone(n: nat)
    ensures Comps(Slashes(n)) == []
  {
    if n > 0 {
      SlashesNone(n - 1);
      assert Slashes(n)[1..] == Slashes(n - 1);
    }
  }

  lemma {:induction false} WrittenComps(t: Trail)
    requires Sound(t)
    ensures Comps(Buffer(t, true)) == t.names
    decreases |t.names|, t.tail
  {
    hide Comps, Written;
    SlashesNone(t.tail);
    if t.names == [] {
      WrittenStart(t, true);
      NoComps();
    } else {
      var n := |t.names| - 1;
      var t' := Trail(t.names[..n], t.gaps[..n], if n == 0 then 0 else t.gaps[n]);
      WrittenComps(t');
      WrittenLast(t, true);
      WrittenStart(t', true);
      var w, c := Buffer(t', true), t.names[n];
      assert w != "" && w[|w| - 1] == '/';
      CompsOfComp(c);
      CompsCut(w, c);
      CompsCut(w + c, Slashes(t.tail));
    }
  }

  /** What a ".." does to the components of any clean buffer: it takes the last away if and
      only if the buffer does not end in two slashes, or there is none. */
  lemma UpComps(d: string)
    requires Clean(d)
    ensures Comps(Up(d)) == if EndsInTwo(d) then Comps(d) else DropLast(Comps(d))
    ensures EndsInTwo(d) ==> Comps(d) != []
  {
    hide Comps;
    if d == "/" {
      NoComps();
    } else {
      var q := UpTo(d, |d| - 1);
      UpToStops(d, |d| - 1);
      assert d == d[..q] + d[q..];
      CompsCut(d[..q], d[q..]);
      LastPart(d, q);
      if EndsInTwo(d) { RootAlone(d); }
    }
  }

  lemma {:induction false} UpToStops(d: string, p: nat)
    requires p <= |d|
    ensures forall j | UpTo(d, p) <= j < p :: d[j] != '/'
  {
    if p > 1 && d[p - 1] != '/' { UpToStops(d, p - 1); }
  }

  /** What is behind the place: a slash, or a name and at most one slash. */
  lemma LastPart(d: string, q: nat)
    requires Clean(d) && 1 <= q < |d| && (q > 1 ==> d[q - 1] == '/') && forall j | q <= j < |d| - 1 :: d[j] != '/'
    requires q == UpTo(d, |d| - 1)
    ensures if EndsInTwo(d) then Comps(d[q..]) == [] else |Comps(d[q..])| == 1
  {
    hide Comps;
    var n := |d| - 1;
    var rest := d[q..];
    if d[n] != '/' {
      CompsOfComp(rest);
    } else if q == n {
      assert rest == "/";
      NoComps();
    } else {
      var c := d[q..n];
      assert rest == c + "/" && d[n - 1] != '/';
      CompsOfComp(c);
      NoComps();
      CompsCut(c, "/");
    }
  }

  lemma RootAlone(d: string)
    requires Clean(d) && d != "/"
    ensures Comps(d) != []
  {
    hide Comps;
    RootOnly(d);
  }

  predicate EndsInTwo(d: string) {
    |d| >= 2 && d[|d| - 1] == '/' && d[|d| - 2] == '/'
  }

  /** In the trail those are the buffers with two or more slashes at the end. */
  lemma EndsTwice(t: Trail)
    requires Sound(t) && t.names != []
    ensures EndsInTwo(Buffer(t, true)) <==> t.tail >= 2
  {
    hide Written;
    var n := |t.names| - 1;
    WrittenLast(t, true);
    var t' := Trail(t.names[..n], t.gaps[..n], if n == 0 then 0 else t.gaps[n]);
    WrittenStart(t', true);
    var d, c := Buffer(t, true), t.names[n];
    var w := Buffer(t', true);
    assert d == w + c + Slashes(t.tail) && w != "";
    assert d[|w| + |c| - 1] == c[|c| - 1] != '/';
  }

  /** A ".." meets at most one slash at the end of the buffer. */
  ghost predicate NoneSwallowed(cs: seq<string>) {
    forall k | 0 <= k < |cs| && cs[k] == ".." :: Gone(cs[..k], true).tail < 2
  }

  /** The code resolves a path, at every step, if and only if no ".." is swallowed by a
      slash that an earlier one left behind. */
  lemma {:induction false} ResolvesIff(cs: seq<string>)
    requires forall i | 0 <= i < |cs| :: IsComp(cs[i])
    ensures (forall k | 0 <= k <= |cs| :: Gone(cs[..k], true).names == Resolve(cs[..k])) <==> NoneSwallowed(cs)
  {
    hide Gone, Resolve;
    GoneNothing();
    var i := 0;
    assert cs[..0] == [];
    while i < |cs| && Gone(cs[..i + 1], true).names == Resolve(cs[..i + 1])
      invariant i <= |cs|
      invariant forall k | 0 <= k <= i :: Gone(cs[..k], true).names == Resolve(cs[..k])
      invariant forall k | 0 <= k < i && cs[k] == ".." :: Gone(cs[..k], true).tail < 2
    {
      ResolveStep(cs, i);
      i := i + 1;
    }
    if i < |cs| {
      ResolveStep(cs, i);
      assert cs[i] == ".." && Gone(cs[..i], true).tail >= 2;
    }
  }

  lemma GoneNothing()
    ensures Gone([], true).names == Resolve([])
  {
  }

  lemma ResolveStep(cs: seq<string>, i: nat)
    requires i < |cs| && Gone(cs[..i], true).names == Resolve(cs[..i]) && forall j | 0 <= j < |cs| :: IsComp(cs[j])
    ensures Gone(cs[..i + 1], true).names == Resolve(cs[..i + 1]) <==> !(cs[i] == ".." && Gone(cs[..i], true).tail >= 2)
  {
    hide Gone;
    GoneStep(cs, i, true);
    GoneSound(cs[..i], true);
    assert cs[..i + 1][..i] == cs[..i];
  }

  /** No name stands behind a "..". */
  predicate NamesFirst(cs: seq<string>) {
    forall i, j | 0 <= i < j < |cs| && cs[i] == ".." :: cs[j] == "." || cs[j] == ".."
  }

  /** Then no slash is left behind. */
  lemma {:induction false} NamesFirstTail(cs: seq<string>, k: nat)
    requires NamesFirst(cs) && k <= |cs|
    ensures Gone(cs[..k], true).tail < 2
    ensures forall i | 0 <= i < |Gone(cs[..k], true).gaps| :: Gone(cs[..k], true).gaps[i] < 2
    ensures NoDotDot(cs[..k]) ==> Gone(cs[..k], true).tail == 0
  {
    hide Gone;
    if k == 0 {
      GoneZero();
      assert cs[..0] == [];
    } else {
      NamesFirstTail(cs, k - 1);
      GoneStep(cs, k - 1, true);
      if cs[k - 1] != "." && cs[k - 1] != ".." { NoneBefore(cs, k - 1); }
      if NoDotDot(cs[..k]) { NoneYet(cs, k - 1); }
    }
  }

  lemma NoneBefore(cs: seq<string>, k: nat)
    requires NamesFirst(cs) && k < |cs| && cs[k] != "." && cs[k] != ".."
    ensures NoDotDot(cs[..k])
  {
  }

  lemma NoneYet(cs: seq<string>, k: nat)
    requires k < |cs| && NoDotDot(cs[..k + 1])
    ensures NoDotDot(cs[..k]) && cs[k] != ".."
  {
    assert cs[..k + 1][k] == cs[k] && cs[..k + 1][..k] == cs[..k];
  }

  lemma GoneZero()
    ensures Gone([], true) == NOTHING
  {
  }

  lemma NamesFirstFine(cs: seq<string>)
    requires NamesFirst(cs)
    ensures NoneSwallowed(cs)
  {
    forall k | 0 <= k < |cs| && cs[k] == ".." ensures Gone(cs[..k], true).tail < 2 {
      NamesFirstTail(cs, k);
    }
  }

  /** So every absolute path that fits is normalised to what its components stand for, if no
      ".." of it is swallowed; none is if its names stand in front of its "..". */
  lemma NormResolves(src: string)
    requires Abs(src) && Norm(src, BUF).Some? && (NoneSwallowed(Comps(src)) || NamesFirst(Comps(src)))
    ensures Comps(Norm(src, BUF).value) == Resolve(Comps(src))
  {
    hide Norm, Comps, Gone, Resolve, Buffer, NoneSwallowed, NamesFirst;
    var cs := Comps(src);
    NormIsGone(src, BUF);
    GoneSound(cs, true);
    WrittenComps(Gone(cs, true));
    if NamesFirst(cs) { NamesFirstFine(cs); }
    ResolvesIff(cs);
    assert cs[..|cs|] == cs;
  }

  /** One that is: the slash that "b" left in front of "c" takes the last "..". */
  lemma Swallowed()
    ensures Comps("/a/b/../c/../..") == ["a", "b", "..", "c", "..", ".."]
    ensures Norm("/a/b/../c/../..", BUF) == Some("/a/") && Resolve(Comps("/a/b/../c/../..")) == []
  {
    hide Norm, Comps, Resolve, Fold;
    SwallowedComps();
    SwallowedFold();
    SwallowedResolve();
    NormIsFold("/a/b/../c/../..", BUF);
  }

  lemma SwallowedComps()
    ensures Comps("/a/b/../c/../..") == ["a", "b", "..", "c", "..", ".."]
  {
    hide Comps, Slashed;
    var x, y := ["a", "b", ".."], ["c", "..", ".."];
    DotDotSlashed();
    OneSlashed("c");
    OneSlashed("..");
    SlashedAppend(["c"], [".."]);
    SlashedAppend(["c"] + [".."], [".."]);
    SlashedAppend(x, y);
    CompsOfSlashed(x + y);
    assert ["c"] + [".."] + [".."] == y && x + y == ["a", "b", "..", "c", "..", ".."];
    assert "/a/b/.." + ("/" + "c" + ("/" + "..") + ("/" + "..")) == "/a/b/../c/../..";
  }

  lemma DotDotSlashed()
    ensures Slashed(["a", "b", ".."]) == "/a/b/.."
  {
    hide Slashed;
    OneSlashed("a");
    OneSlashed("b");
    OneSlashed("..");
    SlashedAppend(["a"], ["b"]);
    SlashedAppend(["a"] + ["b"], [".."]);
    assert ["a"] + ["b"] + [".."] == ["a", "b", ".."];
    assert "/" + "a" + ("/" + "b") + ("/" + "..") == "/a/b/..";
  }

  lemma SwallowedResolve()
    ensures Resolve(["a", "b", "..", "c", "..", ".."]) == []
  {
    assert ["a", "b", "..", "c", "..", ".."][..5] == ["a", "b", "..", "c", ".."];
    assert ["a", "b", "..", "c", ".."][..4] == ["a", "b", "..", "c"];
    assert ["a", "b", "..", "c"][..3] == ["a", "b", ".."];
    assert ["a", "b", ".."][..2] == ["a", "b"] && ["a", "b"][..1] == ["a"] && ["a"][..0] == [];
    assert Resolve(["a"]) == ["a"] && Resolve(["a", "b"]) == ["a", "b"];
    assert Resolve(["a", "b", ".."]) == ["a"] && Resolve(["a", "b", "..", "c"]) == ["a", "c"];
    assert Resolve(["a", "b", "..", "c", ".."]) == ["a"];
  }

  lemma UpStep(d: string, q: nat)
    requires 1 <= q < |d| && (q == 1 || d[q - 1] == '/') && forall j | q <= j < |d| - 1 :: d[j] != '/'
    ensures Step(d, "..", BUF) == Some(d[..q])
  {
    UpToIs(d, |d| - 1, q);
  }

  lemma SwallowedFold()
    ensures Fold("/", ["a", "b", "..", "c", "..", ".."], BUF) == Some("/a/")
  {
    hide Step;
    var cs := ["a", "b", "..", "c", "..", ".."];
    StepValue("/", "a", "/a");
    StepValue("/a", "b", "/a/b");
    UpStep("/a/b", 3);
    StepValue("/a/", "c", "/a//c");
    UpStep("/a//c", 4);
    UpStep("/a//", 3);
    assert "/a/b"[..3] == "/a/" && "/a//c"[..4] == "/a//" && "/a//"[..3] == "/a/";
    assert cs[1..] == ["b", "..", "c", "..", ".."] && cs[1..][1..] == ["..", "c", "..", ".."];
    assert ["..", "c", "..", ".."][1..] == ["c", "..", ".."] && ["c", "..", ".."][1..] == ["..", ".."];
    assert ["..", ".."][1..] == [".."] && [".."][1..] == [];
  }
}

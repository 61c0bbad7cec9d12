/** Path normalisation and the chroot jail built on it (fs/path.c). */
module PathJail {
  import opened Outcomes
  import opened PathNames

  const COMP_MAX := 255 // sizeof(comp) - 1
  const BUF := 256      // the local buffers of the jail functions
  const COMBINED := 512

  // ----- normalize_path -------------------------------------------------------

  /** Where the ".." handling stops: behind the previous slash, so that slash
      stays in the buffer. */
  function UpTo(dest: string, p: nat): (q: nat)
    requires p <= |dest|
    ensures q <= p && (p >= 1 ==> q >= 1)
    ensures q > 1 ==> dest[q - 1] == '/'
  {
    if p > 1 && dest[p - 1] != '/' then UpTo(dest, p - 1) else p
  }

  function Up(dest: string): string {
    if |dest| > 1 then dest[..UpTo(dest, |dest| - 1)] else dest
  }

  /** What one component does to the buffer. */
  function Step(dest: string, comp: string, size: nat): Option<string> {
    if comp == "." then Some(dest)
    else if comp == ".." then Some(Up(dest))
    else if NeedsSlash(dest) && |dest| + 1 >= size then None
    else
      var d := if NeedsSlash(dest) then dest + "/" else dest;
      if |d| + |comp| >= size then None else Some(d + comp)
  }

  predicate NeedsSlash(dest: string) {
    |dest| > 1 || (|dest| == 1 && dest[0] != '/')
  }

  /** The main loop: `s` is what is left of the source. A component longer than
      the component buffer is taken in pieces. */
  function Walk(dest: string, s: string, size: nat): Option<string>
    decreases |s|
  {
    if s == "" then Some(if dest == "" then "/" else dest)
    else if s[0] == '/' then Walk(dest, s[1..], size)
    else
      var k := Piece(s);
      var d := Step(dest, s[..k], size);
      if d.None? then None else Walk(d.value, s[k..], size)
  }

  function Piece(s: string): (k: nat)
    requires s != "" && s[0] != '/'
    ensures 0 < k <= |s|
  {
    var e := CompEnd(s, 0);
    if e < COMP_MAX then e else COMP_MAX
  }

  function Norm(src: string, size: nat): Option<string> {
    if src == "" then Some("/")
    else if src[0] == '/' then Walk("/", src[1..], size)
    else Walk("", src, size)
  }

  /** Copy the next component, as far as its buffer goes. */
  method ScanComp(src: string, start: nat) returns (comp: string)
    requires start < |src| && src[start] != '/'
    ensures comp == src[start..][..Piece(src[start..])]
  {
    ghost var s := src[start..];
    var i := start;
    comp := "";
    while i < |src| && src[i] != '/' && |comp| < COMP_MAX
      invariant start <= i <= |src| && comp == src[start..i] && |comp| <= COMP_MAX
      invariant forall j | 0 <= j < i - start :: s[j] != '/'
    {
      comp := comp + [src[i]];
      i := i + 1;
    }
    PieceIs(s, |comp|);
  }

  /** Apply one component to the buffer. */
  method ApplyComp(dest: string, comp: string, size: nat) returns (r: Option<string>)
    ensures r == Step(dest, comp, size)
  {
    if comp == "." {
      return Some(dest);
    } else if comp == ".." {
      if |dest| > 1 {
        var p := |dest| - 1;
        while p > 1 && dest[p - 1] != '/'
          invariant 1 <= p < |dest| && UpTo(dest, p) == UpTo(dest, |dest| - 1)
        {
          p := p - 1;
        }
        return Some(dest[..p]);
      }
      return Some(dest);
    }
    var d := dest;
    if |dest| > 1 || (|dest| == 1 && dest[0] != '/') {
      if |dest| + 1 >= size { return None; }
      d := dest + "/";
    }
    if |d| + |comp| >= size { return None; }
    return Some(d + comp);
  }

  /** `normalize_path`. An absolute path needs a buffer for "/" and its end; any
      other is refused when the buffer is smaller. */
  method NormalizePath(src: string, size: nat) returns (r: Option<string>)
    requires size == 1 ==> !Abs(src)
    ensures r == if size < 2 then None else Norm(src, size)
  {
    hide Piece, Step;
    if size == 0 { return None; }
    if src == "" { return if size < 2 then None else Some("/"); }
    var dest, i := "", 0;
    if src[0] == '/' { dest, i := "/", 1; }
    assert src[0..] == src;
    while i < |src|
      invariant i <= |src| && Walk(dest, src[i..], size) == Norm(src, size)
      invariant size < 2 ==> dest == ""
      decreases |src| - i
    {
      if src[i] == '/' {
        assert src[i..][1..] == src[i + 1..];
        i := i + 1;
        continue;
      }
      ghost var s := src[i..];
      var comp := ScanComp(src, i);
      assert s[Piece(s)..] == src[i + |comp|..];
      var d := ApplyComp(dest, comp, size);
      TinyStep(comp, size);
      if d.None? { return None; }
      dest, i := d.value, i + |comp|;
    }
    if |dest| == 0 {
      if size < 2 { return None; }
      dest := "/";
    }
    return Some(dest);
  }

  /** Nothing goes into a buffer of one byte. */
  lemma TinyStep(comp: string, size: nat)
    requires comp != ""
    ensures size < 2 ==> Step("", comp, size) == None || Step("", comp, size) == Some("")
  {
  }

  lemma PieceIs(s: string, n: nat)
    requires s != "" && s[0] != '/' && n <= |s| && n <= COMP_MAX && forall j | 0 <= j < n :: s[j] != '/'
    requires n == |s| || s[n] == '/' || n >= COMP_MAX
    ensures n == Piece(s)
  {
  }

  // ----- component by component ---------------------------------------------------

  /** The same walk over whole components. */
  function Fold(dest: string, cs: seq<string>, size: nat): Option<string>
    decreases |cs|
  {
    if cs == [] then Some(dest)
    else
      var d := Step(dest, cs[0], size);
      if d.None? then None else Fold(d.value, cs[1..], size)
  }

  predicate Abs(s: string) {
    s != "" && s[0] == '/'
  }

  lemma StepAbs(dest: string, comp: string, size: nat)
    requires Abs(dest)
    ensures Step(dest, comp, size).Some? ==> Abs(Step(dest, comp, size).value)
  {
  }

  predicate Short(cs: seq<string>) {
    forall i | 0 <= i < |cs| :: |cs[i]| < COMP_MAX
  }

  /** Cutting long components into pieces never matters for an absolute path: if
      one occurs, either way the buffer is too small. */
  lemma {:induction false} WalkIsFold(dest: string, s: string, size: nat)
    requires Abs(dest) && (size <= BUF || Short(Comps(s)))
    ensures Walk(dest, s, size) == Fold(dest, Comps(s), size)
    decreases |s|
  {
    hide CompEnd;
    if s == "" {
    } else if s[0] == '/' {
      WalkIsFold(dest, s[1..], size);
    } else {
      var e := CompEnd(s, 0);
      if e < COMP_MAX {
        FoldFirst(dest, s, size);
        StepAbs(dest, s[..e], size);
        var d := Step(dest, s[..e], size);
        if d.Some? {
          RestShort(s);
          WalkIsFold(d.value, s[e..], size);
        }
      } else {
        FoldFirst(dest, s, size);
        assert Comps(s)[0] == s[..e];
      }
    }
  }

  lemma FoldFirst(dest: string, s: string, size: nat)
    requires s != "" && s[0] != '/'
    ensures CompEnd(s, 0) > 0 && Comps(s) == [s[..CompEnd(s, 0)]] + Comps(s[CompEnd(s, 0)..])
    ensures Fold(dest, Comps(s), size) ==
              var d := Step(dest, s[..CompEnd(s, 0)], size);
              if d.None? then None else Fold(d.value, Comps(s[CompEnd(s, 0)..]), size)
  {
    hide Step;
  }

  lemma RestShort(s: string)
    requires s != "" && s[0] != '/'
    ensures CompEnd(s, 0) > 0 && (Short(Comps(s)) ==> Short(Comps(s[CompEnd(s, 0)..])))
  {
    var e := CompEnd(s, 0);
    var rest := Comps(s[e..]);
    assert Comps(s) == [s[..e]] + rest;
    if Short(Comps(s)) {
      forall i | 0 <= i < |rest| ensures |rest[i]| < COMP_MAX {
        assert Comps(s)[i + 1] == rest[i];
      }
    }
  }

  lemma NormIsFold(src: string, size: nat)
    requires Abs(src) && (size <= BUF || Short(Comps(src)))
    ensures Norm(src, size) == Fold("/", Comps(src), size)
  {
    WalkIsFold("/", src[1..], size);
  }

  // ----- components without ".." -----------------------------------------------------

  function NoDot(cs: seq<string>): (r: seq<string>) {
    if cs == [] then [] else (if cs[0] == "." then [] else [cs[0]]) + NoDot(cs[1..])
  }

  predicate NoDotDot(cs: seq<string>) {
    forall i | 0 <= i < |cs| :: cs[i] != ".."
  }

  predicate Plain(cs: seq<string>) {
    forall i | 0 <= i < |cs| :: IsComp(cs[i]) && cs[i] != "." && cs[i] != ".."
  }

  lemma StepPlain(xs: seq<string>, c: string, size: nat)
    requires Plain(xs) && Plain([c])
    ensures Step(Join(xs), c, size) == if |Join(xs + [c])| < size then Some(Join(xs + [c])) else None
  {
    CompsOfSlashed(xs);
    assert Plain([c]) && [c][0] == c;
    assert (xs + [c])[..|xs|] == xs;
    assert xs == [] ==> Slashed(xs + [c]) == "" + "/" + c;
    var d := Step(Join(xs), c, size);
    assert d.Some? ==> d.value == Join(xs + [c]);
  }

  lemma JoinGrows(xs: seq<string>, ys: seq<string>)
    ensures |Join(xs)| <= |Join(xs + ys)|
  {
    SlashedAppend(xs, ys);
    if xs + ys == [] { assert xs == []; }
    if xs == [] && ys != [] { assert xs + ys == ys; }
    assert ys == [] ==> xs + ys == xs;
  }

  /** Without "..", normalising is splitting and joining again. */
  lemma {:induction false} FoldPlain(xs: seq<string>, cs: seq<string>, size: nat)
    requires Plain(xs) && |Join(xs)| < size && NoDotDot(cs) && forall i | 0 <= i < |cs| :: IsComp(cs[i])
    ensures Plain(xs + NoDot(cs))
    ensures Fold(Join(xs), cs, size) == if |Join(xs + NoDot(cs))| < size then Some(Join(xs + NoDot(cs))) else None
    decreases |cs|
  {
    hide Join, Step;
    if cs == [] {
      assert xs + NoDot(cs) == xs;
    } else {
      var c, rest := cs[0], cs[1..];
      if c == "." {
        StepDot(Join(xs), size);
        FoldPlain(xs, rest, size);
        assert NoDot(cs) == NoDot(rest);
      } else {
        assert Plain([c]);
        StepPlain(xs, c, size);
        assert xs + NoDot(cs) == (xs + [c]) + NoDot(rest);
        JoinGrows(xs + [c], NoDot(rest));
        if |Join(xs + [c])| < size {
          FoldPlain(xs + [c], rest, size);
        } else {
          NoDotPlain(rest);
        }
      }
    }
  }

  lemma StepDot(dest: string, size: nat)
    ensures Step(dest, ".", size) == Some(dest)
  {
  }

  lemma {:induction false} NoDotPlain(cs: seq<string>)
    requires NoDotDot(cs) && forall i | 0 <= i < |cs| :: IsComp(cs[i])
    ensures Plain(NoDot(cs))
    ensures Plain(cs) ==> NoDot(cs) == cs
  {
    hide IsComp;
    if cs != [] {
      var c, rest := cs[0], cs[1..];
      NoDotPlain(rest);
      assert cs == [c] + rest;
      if c != "." {
        var r := [c] + NoDot(rest);
        assert NoDot(cs) == r;
        assert forall i | 0 < i < |r| :: r[i] == NoDot(rest)[i - 1];
        assert Plain(r);
      }
    }
  }

  // ----- any components ----------------------------------------------------------------

  /** The buffer never holds a "." or ".." component, though it may hold stray
      slashes; it never starts with two slashes. */
  ghost predicate Clean(dest: string) {
    Abs(dest) && Plain(Comps(dest)) && (|dest| > 1 ==> dest[1] != '/')
  }

  lemma StepClean(dest: string, c: string, size: nat)
    requires Clean(dest) && IsComp(c) && |dest| < size
    ensures var d := Step(dest, c, size); d.Some? ==> Clean(d.value) && |d.value| < size
  {
    hide Comps, UpTo;
    if c == "." {
    } else if c == ".." {
      UpClean(dest);
    } else if Step(dest, c, size).Some? {
      var d := if NeedsSlash(dest) then dest + "/" else dest;
      CompsOfComp(c);
      CompsOfSlash();
      CompsCut(dest, "/");
      assert dest == "/" || NeedsSlash(dest);
      CompsCut(d, c);
      assert d == dest + "/" || d == "/";
    }
  }

  lemma CompsOfSlash()
    ensures Comps("/") == []
  {
    assert "/"[1..] == "";
  }

  lemma UpClean(dest: string)
    requires Clean(dest)
    ensures Clean(Up(dest)) && |Up(dest)| <= |dest|
  {
    hide Comps;
    if |dest| > 1 {
      var q := UpTo(dest, |dest| - 1);
      assert dest == dest[..q] + dest[q..];
      CompsCut(dest[..q], dest[q..]);
      forall i | 0 <= i < |Comps(dest[..q])| ensures Comps(dest[..q])[i] == Comps(dest)[i] {
      }
    }
  }

  lemma {:induction false} FoldClean(dest: string, cs: seq<string>, size: nat)
    requires Clean(dest) && |dest| < size && forall i | 0 <= i < |cs| :: IsComp(cs[i])
    ensures var r := Fold(dest, cs, size); r.Some? ==> Clean(r.value) && |r.value| < size
    decreases |cs|
  {
    hide Clean, Step;
    if cs != [] {
      StepClean(dest, cs[0], size);
      var d := Step(dest, cs[0], size);
      if d.Some? { FoldClean(d.value, cs[1..], size); }
    }
  }

  // ----- the jail ----------------------------------------------------------------------------

  /** `join_paths` */
  function JoinPaths(base: string, rel: string, size: nat): Option<string> {
    if Abs(rel) then Norm(rel, size)
    else if |base| + 1 + |rel| >= COMBINED then None
    else Norm(base + (if base != "" && base[|base| - 1] != '/' then "/" else "") + rel, size)
  }

  /** The roots that mean "no jail". */
  predicate NoJail(root: string) {
    root == "" || root == "/"
  }

  /** `ir0_path_apply_root` */
  function ApplyRoot(root: string, user: string, size: nat): Option<string> {
    var u := Norm(user, BUF);
    if u.None? then None
    else if NoJail(root) then Norm(u.value, size)
    else
      var r := Norm(root, BUF);
      if r.None? then None
      else if u.value == "/" then Norm(r.value, size)
      else if u.value == "" then None
      else JoinPaths(r.value, u.value[1..], size)
  }

  /** `ir0_path_under_root` */
  predicate UnderRoot(root: string, cwd: string) {
    && Abs(cwd)
    && (NoJail(root)
        || var r, c := Norm(root, BUF), Norm(cwd, BUF);
           && r.Some? && c.Some?
           && (c.value == r.value || (r.value <= c.value && |r.value| < |c.value| && c.value[|r.value|] == '/')))
  }

  /** `ir0_path_getcwd_visible`. A root with stray slashes can be longer than a path below
      it. What is shown then is what the buffer holds behind the path's end:
      nothing if its last step was to add a component, which fills the rest with
      NULs, and otherwise `left` over from components that ".." took away. */
  function Visible(root: string, cwd: string, size: nat, left: string): Option<string> {
    var c := Norm(cwd, BUF);
    if c.None? then None
    else if NoJail(root) then Fits(c.value, size)
    else
      var r := Norm(root, BUF);
      if r.None? then None
      else if !UnderRoot(r.value, c.value) then Fits(c.value, size)
      else if c.value == r.value then Fits("/", size)
      else if |r.value| <= |c.value| then Fits(c.value[|r.value|..], size)
      else Fits(if NoDotDot(Comps(cwd)) then "" else left, size)
  }

  function Fits(s: string, size: nat): Option<string> {
    if |s| >= size then None else Some(s)
  }

  lemma {:induction false} CompLengths(s: string, i: nat)
    requires i < |Comps(s)|
    ensures |Comps(s)[i]| <= |s| && (Abs(s) ==> |Comps(s)[i]| < |s|)
    decreases |s|
  {
    hide CompEnd;
    if s == "" {
    } else if s[0] == '/' {
      CompLengths(s[1..], i);
    } else {
      var k := CompEnd(s, 0);
      if i > 0 { CompLengths(s[k..], i - 1); }
    }
  }

  lemma BufferComps(s: string)
    requires Abs(s) && |s| < BUF
    ensures Short(Comps(s))
  {
    forall i | 0 <= i < |Comps(s)| ensures |Comps(s)[i]| < COMP_MAX {
      CompLengths(s, i);
    }
  }

  /** What normalising any absolute path gives. */
  lemma NormClean(src: string)
    requires Abs(src)
    ensures var u := Norm(src, BUF); u.Some? ==> Clean(u.value) && |u.value| < BUF
  {
    hide Fold;
    NormIsFold(src, BUF);
    CompsOfSlash();
    FoldClean("/", Comps(src), BUF);
  }

  /** Normalising a clean path only tidies its slashes. */
  lemma NormOfClean(s: string, size: nat)
    requires Clean(s) && (size <= BUF || Short(Comps(s))) && size >= 2
    ensures Norm(s, size) == if |Join(Comps(s))| < size then Some(Join(Comps(s))) else None
  {
    hide Fold, Norm, Comps;
    NormIsFold(s, size);
    FoldPlain([], Comps(s), size);
    NoDotPlain(Comps(s));
    assert [] + NoDot(Comps(s)) == Comps(s);
  }

  lemma NormOfRoot(root: string)
    requires Abs(root) && NoDotDot(Comps(root))
    ensures var rs := NoDot(Comps(root));
            Plain(rs) && Norm(root, BUF) == if |Join(rs)| < BUF then Some(Join(rs)) else None
  {
    hide Fold, Norm, Comps;
    NormIsFold(root, BUF);
    FoldPlain([], Comps(root), BUF);
    assert [] + NoDot(Comps(root)) == NoDot(Comps(root));
  }

  lemma JoinClean(cs: seq<string>)
    requires Plain(cs)
    ensures Clean(Join(cs)) && Comps(Join(cs)) == cs
  {
    CompsOfSlash();
    CompsOfSlashed(cs);
    if cs != [] { JoinSecond(cs); }
  }

  lemma {:induction false} JoinSecond(cs: seq<string>)
    requires Plain(cs) && cs != []
    ensures |Slashed(cs)| > 1 && Slashed(cs)[1] != '/'
  {
    var n := |cs| - 1;
    if n > 0 {
      JoinSecond(cs[..n]);
    } else {
      assert cs[..0] == [] && Slashed(cs) == "" + "/" + cs[0];
    }
  }

  /** A normalised path without stray slashes, which is what normalising leaves
      unless the input had "..". */
  predicate Tidy(r: string) {
    r == Join(Comps(r))
  }

  lemma RootIsTidy(root: string)
    requires Abs(root) && NoDotDot(Comps(root)) && Norm(root, BUF).Some?
    ensures Tidy(Norm(root, BUF).value)
  {
    hide Norm, Comps, Join;
    NormOfRoot(root);
    JoinClean(NoDot(Comps(root)));
  }

  /** The path the jail hands on: the root's components, then the user's. It is
      refused exactly if one of the two, or both together, do not fit. */
  lemma ApplyRootIs(root: string, user: string, size: nat)
    requires Abs(root) && !NoJail(root) && Abs(user) && size >= 2
    ensures var r, u := Norm(root, BUF), Norm(user, BUF);
            && (r.Some? ==> Clean(r.value) && |r.value| < BUF)
            && (u.Some? ==> Clean(u.value) && |u.value| < BUF)
            && (r.Some? && u.Some? ==> Plain(Comps(r.value) + Comps(u.value)))
            && ApplyRoot(root, user, size) ==
                 if r.None? || u.None? then None else Fits(Join(Comps(r.value) + Comps(u.value)), size)
  {
    hide Norm, Comps, Join;
    NormClean(user);
    NormClean(root);
    if Norm(root, BUF).Some? && Norm(user, BUF).Some? {
      var r, u := Norm(root, BUF).value, Norm(user, BUF).value;
      BufferComps(r);
      BufferComps(u);
      if u == "/" {
        CompsOfSlash();
        assert Comps(r) + Comps(u) == Comps(r);
        NormOfClean(r, size);
      } else {
        CombinedClean(r, u);
        NormOfClean(r + (if r[|r| - 1] != '/' then "/" else "") + u[1..], size);
      }
    }
  }

  /** Putting a clean user path behind a clean root gives a clean path. */
  lemma CombinedClean(r: string, u: string)
    requires Clean(r) && Clean(u) && u != "/" && Short(Comps(r)) && Short(Comps(u))
    ensures !Abs(u[1..])
    ensures var s := r + (if r[|r| - 1] != '/' then "/" else "") + u[1..];
            Clean(s) && Comps(s) == Comps(r) + Comps(u) && Short(Comps(s))
  {
    hide Comps;
    var base := r + (if r[|r| - 1] != '/' then "/" else "");
    CompsOfSlash();
    CompsCut(r, "/");
    CompsCut("/", u[1..]);
    assert u == "/" + u[1..];
    assert base == r || base == r + "/";
    assert Comps(base) == Comps(r) && Comps(u[1..]) == Comps(u);
    CompsCut(base, u[1..]);
    assert base + u[1..] == r + (if r[|r| - 1] != '/' then "/" else "") + u[1..];
  }

  /** Tidying a path never makes it longer. */
  lemma {:induction false} TidyShorter(x: string)
    requires x == "" || x[0] == '/'
    ensures |Slashed(Comps(x))| <= |x| && (|Slashed(Comps(x))| == |x| ==> x == Slashed(Comps(x)))
    decreases |x|
  {
    hide CompEnd, Comps, Slashed, IsComp;
    NoComps();
    NoneSlashed();
    if |x| > 1 {
      var y := x[1..];
      CompsHead(x);
      if y[0] == '/' {
        TidyShorter(y);
      } else {
        var k := CompEnd(y, 0);
        CompsHead(y);
        TidyShorter(y[k..]);
        SlashedAppend([y[..k]], Comps(y[k..]));
        OneSlashed(y[..k]);
        assert x == "/" + y[..k] + y[k..];
      }
    } else if |x| == 1 {
      assert x == "/";
    }
  }

  lemma NoneSlashed()
    ensures Slashed([]) == ""
  {
  }

  lemma OneSlashed(c: string)
    ensures Slashed([c]) == "/" + c
  {
    assert [c][..0] == [];
  }

  /** What a tidy path has in front of one of its slashes is tidy. */
  lemma PrefixTidy(c: string, k: nat)
    requires c == Slashed(Comps(c)) && 0 < k < |c| && c[0] == '/' && c[k] == '/'
    ensures c[..k] == Slashed(Comps(c[..k])) && Comps(c[..k]) != []
  {
    hide Comps, Slashed;
    var a, b := c[..k], c[k..];
    assert c == a + b;
    CompsCut(a, b);
    SlashedAppend(Comps(a), Comps(b));
    TidyShorter(a);
    TidyShorter(b);
    assert |Slashed(Comps(a))| == |a|;
    assert c[..k] == Slashed(Comps(a));
    NoneSlashed();
  }

  /** Inside the jail: for every absolute root, the result is accepted by the root
      check if and only if it fits the check's own buffer, the normalised root has
      no stray slash, and that root is below "/" or nothing was added to it. */
  lemma JailHolds(root: string, user: string, size: nat)
    requires Abs(root) && !NoJail(root) && Abs(user) && size >= 2
    requires ApplyRoot(root, user, size).Some?
    ensures var p, r := ApplyRoot(root, user, size).value, Norm(root, BUF);
            r.Some? && (UnderRoot(root, p) <==> |p| < BUF && Tidy(r.value) && (r.value != "/" || p == "/"))
  {
    hide Norm, Comps, ApplyRoot, Join;
    ApplyRootIs(root, user, size);
    var r := Norm(root, BUF).value;
    var rs, us := Comps(r), Comps(Norm(user, BUF).value);
    var p := Join(rs + us);
    JoinClean(rs + us);
    NormOfClean(p, BUF);
    JoinExtends(rs, us);
    JoinRootOnly(rs);
    JoinRootOnly(rs + us);
    RootOnly(r);
    if |p| < BUF && UnderRoot(root, p) { UnderIsTidy(r, p); }
  }

  lemma RootOnly(r: string)
    requires Clean(r)
    ensures Comps(r) == [] <==> r == "/"
  {
    CompsOfSlash();
    if |r| > 1 { assert r[1..][0] != '/'; }
    if |r| == 1 { assert r == "/"; }
  }

  lemma UnderIsTidy(r: string, p: string)
    requires Clean(r) && Clean(p) && Tidy(p) && (p == r || (r <= p && |r| < |p| && p[|r|] == '/'))
    ensures Tidy(r)
  {
    hide Comps, Slashed;
    if p != r {
      RootOnly(p);
      PrefixTidy(p, |r|);
      assert r == p[..|r|];
    }
  }

  /** The check accepts nothing outside: whatever it accepts has the root's
      components first. Without stray slashes it accepts all of that, except
      below a root that normalises to "/". */
  lemma UnderIffPrefix(root: string, cwd: string)
    requires Abs(root) && !NoJail(root) && Abs(cwd)
    ensures var r, c := Norm(root, BUF), Norm(cwd, BUF);
            && (UnderRoot(root, cwd) ==> r.Some? && c.Some? && Comps(r.value) <= Comps(c.value))
            && (r.Some? && c.Some? && Tidy(r.value) && Tidy(c.value) ==>
                  (UnderRoot(root, cwd) <==> Comps(r.value) <= Comps(c.value) && (r.value != "/" || c.value == "/")))
  {
    hide Norm, Comps, Join;
    NormClean(root);
    NormClean(cwd);
    if Norm(root, BUF).Some? && Norm(cwd, BUF).Some? {
      var r, c := Norm(root, BUF).value, Norm(cwd, BUF).value;
      if UnderRoot(root, cwd) { PrefixComps(r, c); }
      RootOnly(r);
      RootOnly(c);
      if Comps(r) <= Comps(c) && Tidy(r) && Tidy(c) { TidyPrefix(r, c); }
    }
  }

  lemma PrefixComps(r: string, c: string)
    requires Clean(r) && Clean(c) && (c == r || (r <= c && |r| < |c| && c[|r|] == '/'))
    ensures Comps(r) <= Comps(c) && (r == "/" ==> c == "/")
  {
    hide Comps;
    if c != r {
      assert c == r + c[|r|..];
      CompsCut(r, c[|r|..]);
    }
  }

  lemma TidyPrefix(r: string, c: string)
    requires Clean(r) && Clean(c) && Tidy(r) && Tidy(c) && Comps(r) <= Comps(c)
    ensures var us := Comps(c)[|Comps(r)|..];
            c == r || r == "/" || (r <= c && |r| < |c| && c[|r|] == '/' && c[|r|..] == Join(us))
    ensures c == r <==> Comps(c)[|Comps(r)|..] == []
  {
    hide Comps, Slashed;
    var rs, us := Comps(r), Comps(c)[|Comps(r)|..];
    assert Comps(c) == rs + us;
    JoinExtends(rs, us);
    RootOnly(r);
    if us != [] && rs != [] { assert c == r + Join(us); }
    if us == [] { assert Comps(c) == rs; }
  }

  /** What getcwd shows, in components: below the root what follows it, and outside the
      whole path. */
  lemma VisibleIs(root: string, cwd: string, size: nat, left: string)
    requires Abs(root) && !NoJail(root) && Abs(cwd) && Norm(root, BUF).Some? && Norm(cwd, BUF).Some?
    requires var r, c := Norm(root, BUF).value, Norm(cwd, BUF).value; Tidy(r) && Tidy(c) && r != "/"
    ensures var rs, cs := Comps(Norm(root, BUF).value), Comps(Norm(cwd, BUF).value);
            Visible(root, cwd, size, left) == Fits(Join(if rs <= cs then cs[|rs|..] else cs), size)
  {
    hide Norm, Comps, Join;
    NormClean(root);
    NormClean(cwd);
    var r, c := Norm(root, BUF).value, Norm(cwd, BUF).value;
    NormOfClean(r, BUF);
    NormOfClean(c, BUF);
    UnderIffPrefix(r, c);
    RootOnly(r);
    RootNorm();
    if Comps(r) <= Comps(c) { TidyPrefix(r, c); }
  }

  /** The joined path continues the root's with a slash, unless nothing is added
      or the root is "/". */
  lemma JoinExtends(rs: seq<string>, us: seq<string>)
    requires Plain(rs + us)
    ensures us == [] ==> rs + us == rs
    ensures us != [] && rs != [] ==> Join(rs + us) == Join(rs) + Join(us) && Join(us) != "" && Join(us)[0] == '/'
    ensures us != [] && rs == [] ==> |Join(us)| > 1 && Join(us)[1] != '/' && rs + us == us && Join(us) != "/"
  {
    SlashedAppend(rs, us);
    if us != [] {
      assert Plain(us) by {
        forall i | 0 <= i < |us| ensures IsComp(us[i]) && us[i] != "." && us[i] != ".." {
          assert (rs + us)[|rs| + i] == us[i];
        }
      }
      CompsOfSlashed(us);
      JoinSecond(us);
    }
    if us == [] { assert rs + us == rs; }
    if rs == [] { assert rs + us == us; }
  }

  lemma JoinRootOnly(cs: seq<string>)
    requires Plain(cs)
    ensures Join(cs) == "/" <==> cs == []
  {
    CompsOfSlashed(cs);
  }

  /** The jailed task sees its own path again: what getcwd shows for the result is
      the user's path normalised twice, exactly under the same condition. */
  lemma JailIsInvisible(root: string, user: string, size: nat, size': nat, left: string)
    requires Abs(root) && !NoJail(root) && Abs(user) && size >= 2
    requires ApplyRoot(root, user, size).Some? && |ApplyRoot(root, user, size).value| < BUF
    ensures Norm(root, BUF).Some? && Norm(user, BUF).Some? && Norm(Norm(user, BUF).value, BUF).Some?
    ensures var p, r, u := ApplyRoot(root, user, size).value, Norm(root, BUF).value,
              Norm(Norm(user, BUF).value, BUF).value;
            && (Tidy(r) && (r != "/" || p == "/") ==> Visible(root, p, size', left) == Fits(u, size'))
            && (size' >= BUF && Visible(root, p, size', left) == Some(u) ==> Tidy(r) && (r != "/" || p == "/"))
  {
    hide Norm, Comps, ApplyRoot, Join;
    ApplyRootIs(root, user, size);
    var r, u := Norm(root, BUF).value, Norm(user, BUF).value;
    var rs, us := Comps(r), Comps(u);
    var p := Join(rs + us);
    JoinClean(rs + us);
    NormOfClean(p, BUF);
    NormOfClean(u, BUF);
    NormOfClean(r, BUF);
    JoinExtends(rs, us);
    JoinClean(rs);
    JoinRootOnly(rs);
    JoinRootOnly(rs + us);
    JoinRootOnly(us);
    RootOnly(r);
    JoinShorter(r);
    assert Tidy(p);
    PlainIsNoDotDot(rs + us);
    if !Tidy(r) && size' >= BUF { UntidyCut(r, p, us, size', left); }
  }

  /** With a stray slash in the root, getcwd cuts off too much. */
  lemma UntidyCut(r: string, p: string, us: seq<string>, size': nat, left: string)
    requires Clean(r) && !Tidy(r) && p == Join(Comps(r) + us) && Tidy(p) && |r| < BUF && |p| < BUF <= size' &&
              Plain(Comps(r) + us)
    requires Norm(r, BUF) == Some(Join(Comps(r))) && Norm(p, BUF) == Some(p)
    ensures forall root: string | !NoJail(root) && Norm(root, BUF) == Some(r) ::
              Visible(root, p, size', left) != Some(Join(us))
  {
    hide Norm, Comps, Join;
    var rs := Comps(r);
    RootOnly(r);
    JoinRootOnly(rs);
    JoinExtends(rs, us);
    JoinShorter(r);
    RootNorm();
    PlainIsNoDotDot(rs + us);
    JoinClean(rs + us);
    assert rs != [] && |Join(rs)| < |r|;
    forall root: string | !NoJail(root) &&
         Norm(root, BUF) == Some(r) ensures Visible(root, p, size', left) != Some(Join(us)) {
      var v := Visible(root, p, size', left);
      if us == [] {
        assert p == Join(rs);
      } else {
        assert |p| == |Join(rs)| + |Join(us)|;
      }
    }
  }

  lemma RootNorm()
    ensures Join([]) == "/" && Tidy("/")
  {
    CompsOfSlash();
  }

  lemma JoinShorter(r: string)
    requires Clean(r)
    ensures |Join(Comps(r))| <= |r| && (|Join(Comps(r))| == |r| ==> Tidy(r))
  {
    hide Comps, Slashed;
    TidyShorter(r);
    RootOnly(r);
  }

  /** A user path without ".." is already in that form. */
  lemma NormTwice(user: string)
    requires Abs(user) && NoDotDot(Comps(user)) && Norm(user, BUF).Some?
    ensures Norm(Norm(user, BUF).value, BUF) == Norm(user, BUF)
  {
    hide Norm, Comps;
    NormOfRoot(user);
    var us := NoDot(Comps(user));
    JoinClean(us);
    NormOfClean(Join(us), BUF);
  }

  /** With the trivial roots there is no jail: the result is the user's path
      normalised twice, if that fits, and every absolute path is under the root. */
  lemma NoJailIsTransparent(root: string, user: string, size: nat, left: string)
    requires NoJail(root) && Abs(user) && size >= 2
    ensures var u, p := Norm(user, BUF), ApplyRoot(root, user, size);
            && p == (if u.None? then None else Fits(Join(Comps(u.value)), size))
            && (p.Some? ==> Norm(u.value, size) == p == Visible(root, p.value, BUF, left) && UnderRoot(root, p.value))
  {
    hide Norm, Comps;
    NormClean(user);
    if Norm(user, BUF).Some? {
      var u := Norm(user, BUF).value;
      BufferComps(u);
      NormOfClean(u, size);
      JoinClean(Comps(u));
      JoinShorter(u);
      NormOfClean(Join(Comps(u)), BUF);
    }
  }

  lemma PlainIsNoDotDot(cs: seq<string>)
    requires Plain(cs)
    ensures NoDotDot(cs)
  {
  }

  /** A root that only normalises to "/" is where the condition bites: the check
      then refuses a path that apply_root itself produced, and getcwd drops the
      leading slash. */
  lemma DoubleSlashRoot()
    ensures ApplyRoot("//", "/x", BUF) == Some("/x")
    ensures !UnderRoot("//", "/x")
    ensures forall left: string :: Visible("//", "/x", BUF, left) == Some("x")
  {
    assert Walk("/", "x", BUF) == Some("/x") by {
      assert CompEnd("x", 0) == 1;
      assert "x"[1..] == "" && "x"[..1] == "x";
      assert Step("/", "x", BUF).value == "/x";
    }
    assert "/x"[1..] == "x" && "//"[1..] == "/" && "/"[1..] == "";
    assert Norm("/x", BUF) == Some("/x");
    assert Norm("//", BUF) == Some("/");
    assert "/" + "" + "x" == "/x";
  }

  /** And a root with ".." keeps a stray slash: "/a/b/.." is taken as "/a/". */
  lemma DotDotRoot()
    ensures Norm("/a/b/..", BUF) == Some("/a/") && !Tidy("/a/")
    ensures ApplyRoot("/a/b/..", "/x", BUF) == Some("/a/x") && !UnderRoot("/a/b/..", "/a/x")
  {
    hide Norm, UnderRoot, Comps, Fold, Tidy;
    DotDotComps();
    DotDotFold();
    NormIsFold("/a/b/..", BUF);
    StraySlash();
    ShortPaths();
    assert "/x"[1..] == "x" && "/a/" + "" + "x" == "/a/x";
    JailHolds("/a/b/..", "/x", BUF);
  }

  /** There getcwd shows an empty string for the root directory itself. */
  lemma DotDotCwd(left: string)
    ensures ApplyRoot("/a/b/..", "/", BUF) == Some("/a") && Visible("/a/b/..", "/a", BUF, left) == Some("")
  {
    hide Norm, Comps, Fold, Tidy;
    DotDotComps();
    DotDotFold();
    NormIsFold("/a/b/..", BUF);
    RootPaths();
    PlainIsNoDotDot(["a"]);
    assert Norm("/a/b/..", BUF) == Some("/a/");
  }

  lemma RootPaths()
    ensures Comps("/a") == ["a"] && Norm("/", BUF) == Some("/") && Norm("/a", BUF) == Some("/a") && Norm("/a/", BUF) == Some("/a")
  {
    hide Step, Norm;
    CompsOfSlash();
    CompsOfComp("a");
    CompsCut("/", "a");
    CompsCut("/a", "/");
    assert "/" + "a" == "/a" && "/a" + "/" == "/a/";
    NormIsFold("/", BUF);
    NormIsFold("/a", BUF);
    NormIsFold("/a/", BUF);
    StepValue("/", "a", "/a");
    assert ["a"][1..] == [];
  }

  lemma ShortPaths()
    ensures Norm("/x", BUF) == Some("/x") && Norm("/a/x", BUF) == Some("/a/x")
  {
    hide Norm, Step, Comps, Slashed;
    ShortComps();
    NormIsFold("/x", BUF);
    NormIsFold("/a/x", BUF);
    StepValue("/", "x", "/x");
    StepValue("/", "a", "/a");
    StepValue("/a", "x", "/a/x");
    assert ["a", "x"][1..] == ["x"] && ["x"][1..] == [];
  }

  lemma ShortComps()
    ensures Comps("/x") == ["x"] && Comps("/a/x") == ["a", "x"]
  {
    hide Comps, Slashed;
    OneSlashed("a");
    OneSlashed("x");
    SlashedAppend(["a"], ["x"]);
    CompsOfSlashed(["x"]);
    CompsOfSlashed(["a", "x"]);
    assert "/" + "a" + ("/" + "x") == "/a/x" && "/" + "x" == "/x" && ["a"] + ["x"] == ["a", "x"];
  }

  lemma DotDotComps()
    ensures Comps("/a/b/..") == ["a", "b", ".."]
  {
    var cs := ["a", "b", ".."];
    CompsOfSlashed(cs);
    OneSlashed("a");
    SlashedAppend(["a"], ["b"]);
    OneSlashed("b");
    SlashedAppend(["a"] + ["b"], [".."]);
    OneSlashed("..");
    assert ["a"] + ["b"] + [".."] == cs;
    assert "/" + "a" + ("/" + "b") + ("/" + "..") == "/a/b/..";
  }

  lemma DotDotFold()
    ensures Fold("/", ["a", "b", ".."], BUF) == Some("/a/")
  {
    hide Step;
    var cs := ["a", "b", ".."];
    assert cs[1..] == ["b", ".."] && cs[1..][1..] == [".."] && cs[1..][1..][1..] == [];
    StepValue("/", "a", "/a");
    StepValue("/a", "b", "/a/b");
    UpValue();
  }

  lemma StepValue(d: string, c: string, r: string)
    requires c != "." && c != ".." && |r| < BUF && r == (if NeedsSlash(d) then d + "/" else d) + c
    ensures Step(d, c, BUF) == Some(r)
  {
    assert Step(d, c, BUF).value == r;
  }

  lemma UpValue()
    ensures Step("/a/b", "..", BUF) == Some("/a/")
  {
    assert UpTo("/a/b", 3) == 3;
    assert "/a/b"[..3] == "/a/";
    assert Step("/a/b", "..", BUF).value == "/a/";
  }

  lemma StraySlash()
    ensures !Tidy("/a/")
  {
    CompsOfSlash();
    CompsOfComp("a");
    CompsCut("/", "a");
    CompsCut("/a", "/");
    assert "/" + "a" == "/a" && "/a" + "/" == "/a/";
    assert Comps("/a/") == ["a"];
    OneSlashed("a");
  }
}

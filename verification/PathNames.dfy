/** Path strings and their components. */
module PathNames {

  /** The non-empty stretches between slashes. */
  function Comps(s: string): (cs: seq<string>)
    ensures forall i | 0 <= i < |cs| :: IsComp(cs[i])
    decreases |s|
  {
    if s == "" then []
    else if s[0] == '/' then Comps(s[1..])
    else
      var k := CompEnd(s, 0);
      [s[..k]] + Comps(s[k..])
  }

  predicate IsComp(c: string) {
    c != "" && forall i | 0 <= i < |c| :: c[i] != '/'
  }

  /** The first slash at or behind `i`, or the end. */
  function CompEnd(s: string, i: nat): (k: nat)
    requires i <= |s|
    ensures i <= k <= |s| && (forall j | i <= j < k :: s[j] != '/') && (k < |s| ==> s[k] == '/')
    decreases |s| - i
  {
    if i == |s| || s[i] == '/' then i else CompEnd(s, i + 1)
  }

  /** "/a/b/c", or "/" for no components. */
  function Slashed(cs: seq<string>): string {
    if cs == [] then "" else Slashed(cs[..|cs| - 1]) + "/" + cs[|cs| - 1]
  }

  function Join(cs: seq<string>): string {
    if cs == [] then "/" else Slashed(cs)
  }

  lemma CompsOfComp(c: string)
    requires IsComp(c)
    ensures Comps(c) == [c]
  {
    assert CompEnd(c, 0) == |c|;
    assert c[..|c|] == c && c[|c|..] == "";
  }

  lemma CompsHead(s: string)
    requires s != ""
    ensures s[0] == '/' ==> Comps(s) == Comps(s[1..])
    ensures s[0] != '/' ==> Comps(s) == [s[..CompEnd(s, 0)]] + Comps(s[CompEnd(s, 0)..])
  {
  }

  /** A cut at a slash splits the components. */
  lemma {:induction false} CompsCut(a: string, b: string)
    requires b == "" || b[0] == '/' || (a != "" && a[|a| - 1] == '/') || a == ""
    ensures Comps(a + b) == Comps(a) + Comps(b)
    decreases |a|
  {
    hide CompEnd, Comps, IsComp;
    var s := a + b;
    if a == "" {
      assert s == b;
      NoComps();
    } else if b == "" {
      assert s == a;
      NoComps();
    } else if a[0] == '/' {
      CompsHead(s);
      CompsHead(a);
      AppendCut(a, b, 1);
      if a[1..] != "" || b[0] == '/' {
        CompsCut(a[1..], b);
      } else {
        assert a[1..] + b == b;
        NoComps();
      }
    } else {
      CompsHead(s);
      CompsHead(a);
      CompsCutHead(a, b);
      var k := CompEnd(a, 0);
      AppendCut(a, b, k);
      CompsCut(a[k..], b);
    }
  }

  lemma AppendCut(a: string, b: string, k: nat)
    requires k <= |a|
    ensures (a + b)[..k] == a[..k] && (a + b)[k..] == a[k..] + b
  {
  }

  lemma NoComps()
    ensures Comps("") == [] && Comps("/") == []
  {
    assert "/"[1..] == "";
  }

  lemma CompEndUnique(s: string, k: nat)
    requires k <= |s| && (forall j | 0 <= j < k :: s[j] != '/') && (k < |s| ==> s[k] == '/')
    ensures CompEnd(s, 0) == k
  {
  }

  lemma CompsCutHead(a: string, b: string)
    requires a != "" && a[0] != '/' && b != "" && (b[0] == '/' || a[|a| - 1] == '/')
    ensures CompEnd(a + b, 0) == CompEnd(a, 0) > 0
  {
    var s, k := a + b, CompEnd(a, 0);
    assert k == |a| ==> s[k] == b[0] && a[|a| - 1] != '/';
    CompEndUnique(s, k);
  }

  lemma {:induction false} CompsOfSlashed(cs: seq<string>)
    requires forall i | 0 <= i < |cs| :: IsComp(cs[i])
    ensures Comps(Slashed(cs)) == cs
    ensures cs != [] ==> Slashed(cs) != "" && Slashed(cs)[0] == '/' && |Slashed(cs)| > 1
  {
    if cs != [] {
      var n := |cs| - 1;
      CompsOfSlashed(cs[..n]);
      var head, tail := Slashed(cs[..n]), "/" + cs[n];
      assert Slashed(cs) == head + tail;
      CompsCut(head, tail);
      assert tail[1..] == cs[n];
      CompsOfComp(cs[n]);
    }
  }

  lemma {:induction false} SlashedAppend(a: seq<string>, b: seq<string>)
    ensures Slashed(a + b) == Slashed(a) + Slashed(b)
    decreases |b|
  {
    if b == [] {
      assert a + b == a;
    } else {
      var n := |b| - 1;
      assert (a + b)[..|a + b| - 1] == a + b[..n];
      SlashedAppend(a, b[..n]);
    }
  }
}

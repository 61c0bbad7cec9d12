/** What a tmpfs instance IS to its users: a map from paths to entries, with
    room for a fixed number of them. */
module TmpfsSpec {
  import opened Bytes
  import opened Outcomes
  import opened PathNames
  import opened TmpfsTree

  const MAX_FILE := 65536
  const MAX_PATH := 255

  datatype Entry = Dir | File(data: seq<Byte>)

  type Path = seq<string>
  type Tree = map<Path, Entry>

  /** What fits the buffer the path is copied into. */
  function Cut(p: string): string {
    if |p| > MAX_PATH then p[..MAX_PATH] else p
  }

  function PathOf(rel: string): Path {
    Comps(Cut(rel))
  }

  function Dirname(p: Path): Path {
    if p == [] then [] else p[..|p| - 1]
  }

  predicate NoLastName(rel: string) {
    var p := Cut(rel);
    p == "" || p[|p| - 1] == '/'
  }

  /** Create `e` under the path, in an existing directory. */
  function Make(t: Tree, rel: string, e: Entry): (Tree, Errno) {
    var p := PathOf(rel);
    if p in t then (t, EEXIST)
    else if NoLastName(rel) then (t, EINVAL)
    else if Dirname(p) !in t || t[Dirname(p)] != Dir then (t, ENOENT)
    else if |t| == SLOTS then (t, ENOSPC)
    else (t[p := e], OK)
  }

  function Unlink(t: Tree, rel: string): (Tree, Errno) {
    var p := PathOf(rel);
    if p !in t then (t, ENOENT)
    else if t[p] == Dir then (t, EISDIR)
    else (t - {p}, OK)
  }

  ghost predicate HasChild(t: Tree, p: Path) {
    exists q :: q in t && q != [] && Dirname(q) == p
  }

  ghost function Rmdir(t: Tree, rel: string): (Tree, Errno) {
    var p := PathOf(rel);
    if p !in t then (t, ENOENT)
    else if t[p] != Dir then (t, ENOTDIR)
    else if p == [] then (t, EINVAL)
    else if HasChild(t, p) then (t, ENOTEMPTY)
    else (t - {p}, OK)
  }

  /** The file grows to take the data, even none of it, with zeros in a gap. */
  function Written(c: seq<Byte>, off: nat, data: seq<Byte>): seq<Byte> {
    var p := if off + |data| > |c| then Fit(c, off + |data|) else c;
    p[..off] + data + p[off + |data|..]
  }

  function Write(t: Tree, rel: string, off: int, data: seq<Byte>): (Tree, Errno) {
    var p := PathOf(rel);
    if off < 0 then (t, EINVAL)
    else if p !in t then (t, ENOENT)
    else if t[p] == Dir then (t, EISDIR)
    else if off + |data| > MAX_FILE then (t, EFBIG)
    else (t[p := File(Written(t[p].data, off, data))], OK)
  }

  function Truncate(t: Tree, rel: string, n: nat): (Tree, Errno) {
    var p := PathOf(rel);
    if p !in t then (t, ENOENT)
    else if t[p] == Dir then (t, EISDIR)
    else if n > MAX_FILE then (t, EFBIG)
    else (t[p := File(Fit(t[p].data, n))], OK)
  }

  /** The bytes a read delivers; none beyond the end or before the start. */
  function Read(t: Tree, rel: string, off: int, count: nat): (seq<Byte>, Errno) {
    var p := PathOf(rel);
    if p !in t then ([], ENOENT)
    else if t[p] == Dir then ([], EISDIR)
    else (if off < 0 then [] else Slice(t[p].data, off, count), OK)
  }

  // ----- splitting a path at its last slash ------------------------------------------

  /** One past the last slash, or 0. */
  function NameStart(p: string): (k: nat)
    ensures k <= |p| && (k > 0 ==> p[k - 1] == '/') && forall j | k <= j < |p| :: p[j] != '/'
  {
    if p == "" then 0
    else if p[|p| - 1] == '/' then |p|
    else NameStart(p[..|p| - 1])
  }

  function ParentPart(p: string): string {
    var k := NameStart(p);
    if k <= 1 then "/" else p[..k - 1]
  }

  function NamePart(p: string): string {
    p[NameStart(p)..]
  }

  lemma SplitComps(p: string)
    ensures NamePart(p) == "" <==> p == "" || p[|p| - 1] == '/'
    ensures NamePart(p) != "" ==> Comps(p) == Comps(ParentPart(p)) + [NamePart(p)]
    ensures |NamePart(p)| <= |p|
  {
    var k, nm := NameStart(p), NamePart(p);
    assert p == p[..k] + nm;
    if nm != "" {
      CompsCut(p[..k], nm);
      CompsOfComp(nm);
      if k > 0 {
        assert p[..k] == p[..k - 1] + "/";
        CompsCut(p[..k - 1], "/");
        assert Comps("/") == [] by { assert "/"[1..] == ""; }
      }
    }
  }
}

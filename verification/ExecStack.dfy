/** The initial user stack that `elf_setup_stack` (kernel/elf_loader.c:620-915)
    builds: the process entry layout of section 3.4.1 of the System V AMD64
    psABI. */
module ExecStack {
  import opened Bytes
  import opened Outcomes
  import opened ExecMemory

  const ARG_MAX := 256
  const AUXV_PAIRS := 16
  const RANDOM_BYTES := 16
  const STACK_MARGIN := 256

  // the kinds of auxiliary entries
  const AT_PHDR := 3
  const AT_PHENT := 4
  const AT_PHNUM := 5
  const AT_PAGESZ := 6
  const AT_BASE := 7
  const AT_ENTRY := 9
  const AT_UID := 11
  const AT_EUID := 12
  const AT_GID := 13
  const AT_EGID := 14
  const AT_CLKTCK := 17
  const AT_SECURE := 23
  const AT_FLAGS := 24
  const AT_RANDOM := 25
  const AT_SYSINFO_EHDR := 33

  const CANARY := 0x4952304B414E3159
  const CANARY_COMPLEMENT := U64_LIMIT - 1 - CANARY

  type Str = seq<Byte>

  function Min(a: nat, b: nat): nat { if a < b then a else b }

  /** The strings of the vector that fit under the cap. */
  function Capped(ss: seq<Str>): (r: seq<Str>)
    ensures r <= ss && |r| <= ARG_MAX && (|r| < ARG_MAX ==> r == ss)
  {
    ss[..Min(|ss|, ARG_MAX)]
  }

  /** Bytes a list of strings takes, terminators included. */
  function StringBytes(ss: seq<Str>): nat {
    if ss == [] then 0 else StringBytes(ss[..|ss| - 1]) + |ss[|ss| - 1]| + 1
  }

  /** What the kernel tells the program besides its arguments. */
  datatype Process = Process(phdr: nat, phent: nat, phnum: nat, base: nat, entry: nat, vdso: nat,
                             uid: nat, euid: nat, gid: nat, egid: nat, secure: nat)

  ghost predicate Words64(p: Process) {
    && p.phdr < U64_LIMIT && p.phent < U64_LIMIT && p.phnum < U64_LIMIT && p.base < U64_LIMIT
    && p.entry < U64_LIMIT && p.vdso < U64_LIMIT && p.uid < U64_LIMIT && p.euid < U64_LIMIT
    && p.gid < U64_LIMIT && p.egid < U64_LIMIT && p.secure < U64_LIMIT
  }

  /** The auxiliary vector, without its AT_NULL terminator. */
  function AuxVector(p: Process, random: nat): (xs: seq<Aux>)
    ensures |xs| == AUXV_PAIRS - 1
    ensures forall i | 0 <= i < |xs| :: xs[i].kind != 0
  {
    [Aux(AT_PHDR, p.phdr), Aux(AT_PHENT, p.phent), Aux(AT_PHNUM, p.phnum), Aux(AT_UID, p.uid), Aux(AT_EUID, p.euid),
     Aux(AT_GID, p.gid), Aux(AT_EGID, p.egid), Aux(AT_CLKTCK, 100), Aux(AT_SECURE, p.secure), Aux(AT_FLAGS, 0),
     Aux(AT_RANDOM, random), Aux(AT_PAGESZ, 4096), Aux(AT_BASE, p.base), Aux(AT_ENTRY, p.entry),
     Aux(AT_SYSINFO_EHDR, p.vdso)]
  }

  /** How a C library looks an entry up: the first of that kind. */
  function AuxVal(xs: seq<Aux>, kind: nat): Option<nat> {
    if xs == [] then None
    else if xs[0].kind == kind then Some(xs[0].val)
    else AuxVal(xs[1..], kind)
  }

  /** What a program is told about itself, each under its own kind. */
  ghost predicate AuxTells(xs: seq<Aux>, p: Process, random: nat) {
    && AuxVal(xs, AT_PHDR) == Some(p.phdr) && AuxVal(xs, AT_PHENT) == Some(p.phent)
    && AuxVal(xs, AT_PHNUM) == Some(p.phnum) && AuxVal(xs, AT_BASE) == Some(p.base)
    && AuxVal(xs, AT_ENTRY) == Some(p.entry) && AuxVal(xs, AT_SYSINFO_EHDR) == Some(p.vdso)
    && AuxVal(xs, AT_UID) == Some(p.uid) && AuxVal(xs, AT_EUID) == Some(p.euid)
    && AuxVal(xs, AT_GID) == Some(p.gid) && AuxVal(xs, AT_EGID) == Some(p.egid)
    && AuxVal(xs, AT_SECURE) == Some(p.secure) && AuxVal(xs, AT_RANDOM) == Some(random)
    && AuxVal(xs, AT_PAGESZ) == Some(4096) && AuxVal(xs, AT_CLKTCK) == Some(100) && AuxVal(xs, AT_FLAGS) == Some(0)
  }

  /** No kind is given twice. */
  ghost predicate OncePerKind(xs: seq<Aux>) {
    forall i, j | 0 <= i < j < |xs| :: xs[i].kind != xs[j].kind
  }

  lemma {:induction false} AuxValAt(xs: seq<Aux>, i: nat)
    requires OncePerKind(xs) && i < |xs|
    ensures AuxVal(xs, xs[i].kind) == Some(xs[i].val)
  {
    if i > 0 {
      assert xs[1..][i - 1] == xs[i];
      AuxValAt(xs[1..], i - 1);
    }
  }

  lemma AuxVectorTells(p: Process, random: nat)
    ensures OncePerKind(AuxVector(p, random)) && AuxTells(AuxVector(p, random), p, random)
  {
    hide AuxVal;
    var xs := AuxVector(p, random);
    forall i | 0 <= i < |xs| ensures AuxVal(xs, xs[i].kind) == Some(xs[i].val) {
      AuxValAt(xs, i);
    }
    assert AuxVal(xs, xs[0].kind) == Some(xs[0].val) && AuxVal(xs, xs[1].kind) == Some(xs[1].val);
    assert AuxVal(xs, xs[2].kind) == Some(xs[2].val) && AuxVal(xs, xs[3].kind) == Some(xs[3].val);
    assert AuxVal(xs, xs[4].kind) == Some(xs[4].val) && AuxVal(xs, xs[5].kind) == Some(xs[5].val);
    assert AuxVal(xs, xs[6].kind) == Some(xs[6].val) && AuxVal(xs, xs[7].kind) == Some(xs[7].val);
    assert AuxVal(xs, xs[8].kind) == Some(xs[8].val) && AuxVal(xs, xs[9].kind) == Some(xs[9].val);
    assert AuxVal(xs, xs[10].kind) == Some(xs[10].val) && AuxVal(xs, xs[11].kind) == Some(xs[11].val);
    assert AuxVal(xs, xs[12].kind) == Some(xs[12].val) && AuxVal(xs, xs[13].kind) == Some(xs[13].val);
    assert AuxVal(xs, xs[14].kind) == Some(xs[14].val);
  }

  // ----- the layout ----------------------------------------------------------------

  function ImageBytes(argc: nat, envc: nat, strings: nat): nat {
    8 + 8 * (argc + 1) + 8 * (envc + 1) + AUXV_PAIRS * 2 * 8 + RANDOM_BYTES + strings + 16
  }

  /** `(top - size) & ~0xF` */
  function AlignedBase(top: nat, size: nat): nat
    requires size <= top
  {
    top - size - (top - size) % 16
  }

  datatype Layout = Layout(sp: nat, argv: nat, envp: nat, auxv: nat, random: nat, strings: nat, end: nat)

  function LayoutOf(top: nat, argc: nat, envc: nat, strings: nat): Layout
    requires ImageBytes(argc, envc, strings) <= top
  {
    var sp := AlignedBase(top, ImageBytes(argc, envc, strings));
    var argv := sp + 8;
    var envp := argv + 8 * (argc + 1);
    var auxv := envp + 8 * (envc + 1);
    var random := auxv + AUXV_PAIRS * 2 * 8;
    var str := random + RANDOM_BYTES;
    Layout(sp, argv, envp, auxv, random, str, str + strings)
  }

  /** `process_stack_size(process) - stack_margin`, in 64 bits without sign. */
  function Usable(size: nat): nat
    requires size < U64_LIMIT
  {
    (size - STACK_MARGIN) % U64_LIMIT
  }

  /** The regions follow one another without overlap from a 16-byte aligned sp,
      and at least 16 bytes stay free below the top of the stack. An image that
      passes the size test lies inside the stack exactly if the stack is no
      smaller than the margin. */
  lemma LayoutSound(start: nat, size: nat, argc: nat, envc: nat, strings: nat)
    requires size < U64_LIMIT && ImageBytes(argc, envc, strings) <= Usable(size)
    requires size < STACK_MARGIN ==> ImageBytes(argc, envc, strings) <= start + size
    ensures ImageBytes(argc, envc, strings) <= start + size
    ensures var l := LayoutOf(start + size, argc, envc, strings);
            && l.sp % 16 == 0 && (start <= l.sp <==> STACK_MARGIN <= size) && l.sp + 8 == l.argv
            && l.argv + 8 * (argc + 1) == l.envp && l.envp + 8 * (envc + 1) == l.auxv
            && l.auxv + 256 == l.random && l.random + 16 == l.strings && l.strings + strings == l.end
            && l.end + 16 <= start + size < l.end + 32
  {
  }

  // ----- what a program reads back ---------------------------------------------------

  datatype Image = Image(argc: nat, argv: seq<Str>, envp: seq<Str>, auxv: seq<Aux>)

  function ReadStrings(m: Memory, ps: seq<nat>, top: nat): (ss: seq<Str>)
    ensures |ss| == |ps|
  {
    if ps == [] then [] else ReadStrings(m, ps[..|ps| - 1], top) + [ReadString(m, ps[|ps| - 1], top)]
  }

  /** The psABI reader: argc, then the argv pointers and a NULL, then the envp
      pointers and a NULL, then the auxiliary vector. */
  function ReadImage(m: Memory, sp: nat, top: nat): Image {
    var argv := ReadVector(m, sp + 8, top);
    var envpAt := sp + 8 + 8 * (|argv| + 1);
    var envp := ReadVector(m, envpAt, top);
    var auxvAt := envpAt + 8 * (|envp| + 1);
    Image(WordAt(m, sp), ReadStrings(m, argv, top), ReadStrings(m, envp, top), ReadAuxv(m, auxvAt, top))
  }

  lemma ReadImageParts(m: Memory, l: Layout, top: nat, aps: seq<nat>, eps: seq<nat>, aux: seq<Aux>)
    requires l.sp + 8 == l.argv && l.argv + 8 * (|aps| + 1) == l.envp && l.envp + 8 * (|eps| + 1) == l.auxv
    requires ReadVector(m, l.argv, top) == aps && ReadVector(m, l.envp, top) == eps && ReadAuxv(m, l.auxv, top) == aux
    ensures ReadImage(m, l.sp, top) == Image(WordAt(m, l.sp), ReadStrings(m, aps, top), ReadStrings(m, eps, top), aux)
  {
    hide ReadVector, ReadAuxv, ReadStrings, WordAt;
  }

  lemma {:induction false} ReadStringsBack(m: Memory, ps: seq<nat>, ss: seq<Str>, lo: nat, top: nat)
    requires StringsAt(m, ps, ss) && Within(ps, ss, lo, top) && forall i | 0 <= i < |ss| :: NoNul(ss[i])
    ensures ReadStrings(m, ps, top) == ss
    decreases |ps|
  {
    if ps != [] {
      var k := |ps| - 1;
      ReadStringsBack(m, ps[..k], ss[..k], lo, top);
      ReadStored(m, ps[k], ss[k], top);
      assert ss == ss[..k] + [ss[k]];
    }
  }

  /** The pieces in memory make up exactly the image that was asked for. */
  lemma ImageReadsBack(m: Memory, l: Layout, top: nat, argv: seq<Str>, envp: seq<Str>, aps: seq<nat>, eps: seq<nat>,
                       aux: seq<Aux>)
    requires WordAt(m, l.sp) == |argv| && l.sp + 8 == l.argv
    requires WordsAt(m, l.argv, aps + [0]) && WordsAt(m, l.envp, eps + [0]) &&
              WordsAt(m, l.auxv, AuxWords(aux) + [0, 0])
    requires StringsAt(m, aps, argv) && StringsAt(m, eps, envp)
    requires 0 < l.strings && Within(aps, argv, l.strings, top) && Within(eps, envp, l.strings, top)
    requires l.argv + 8 * (|argv| + 1) == l.envp && l.envp + 8 * (|envp| + 1) == l.auxv &&
              l.auxv + 16 * (|aux| + 1) <= top
    requires forall i | 0 <= i < |argv| :: NoNul(argv[i])
    requires forall i | 0 <= i < |envp| :: NoNul(envp[i])
    requires forall i | 0 <= i < |aux| :: aux[i].kind != 0
    ensures ReadImage(m, l.sp, top) == Image(|argv|, argv, envp, aux)
  {
    hide WordAt, WordsAt, StringsAt, ReadImage, ReadStrings, ReadVector, ReadAuxv, NoNul, AuxWords;
    StringsPaired(m, aps, argv);
    StringsPaired(m, eps, envp);
    assert ReadVector(m, l.argv, top) == aps by { ReadWords(m, l.argv, aps, top); }
    assert ReadVector(m, l.envp, top) == eps by { ReadWords(m, l.envp, eps, top); }
    assert ReadAuxv(m, l.auxv, top) == aux by { ReadAuxWords(m, l.auxv, aux, top); }
    ReadImageParts(m, l, top, aps, eps, aux);
    assert ReadStrings(m, aps, top) == argv by { ReadStringsBack(m, aps, argv, l.strings, top); }
    assert ReadStrings(m, eps, top) == envp by { ReadStringsBack(m, eps, envp, l.strings, top); }
  }

  lemma StringsPaired(m: Memory, ps: seq<nat>, ss: seq<Str>)
    requires StringsAt(m, ps, ss)
    ensures |ps| == |ss|
  {
  }

  lemma NoStrings(m: Memory, base: nat)
    ensures StringsAt(m, [], []) && Within([], [], base, base) && SameOutside(m, m, base, base)
  {
  }

  lemma StringAppended(m: Memory, ps: seq<nat>, ss: seq<Str>, base: nat, end: nat, s: Str)
    requires StringsAt(m, ps, ss) && Within(ps, ss, base, end) && base <= end
    ensures var m' := Put(m, end, s + [0]);
            && StringsAt(m', ps + [end], ss + [s])
            && Within(ps + [end], ss + [s], base, end + |s| + 1)
            && SameOutside(m, m', end, end + |s| + 1)
  {
    StringsKept(m, Put(m, end, s + [0]), ps, ss, base, end);
  }

  lemma OutsideWidens(m: Memory, m1: Memory, m2: Memory, lo: nat, mid: nat, hi: nat)
    requires lo <= mid <= hi && SameOutside(m, m1, lo, mid) && SameOutside(m1, m2, mid, hi)
    ensures SameOutside(m, m2, lo, hi)
  {
  }

  lemma NoWords(m: Memory, a: nat)
    ensures WordsAt(m, a, []) && SameOutside(m, m, a, a)
  {
  }

  lemma GetPut(m: Memory, a: nat, bs: seq<Byte>)
    ensures Get(Put(m, a, bs), a, |bs|) == bs && SameOutside(m, Put(m, a, bs), a, a + |bs|)
  {
    forall i | 0 <= i < |bs| ensures Get(Put(m, a, bs), a, |bs|)[i] == bs[i] {
      PutAt(m, a, bs, a + i);
    }
  }

  lemma WordsBelow(m: Memory, m': Memory, a: nat, ws: seq<nat>, lo: nat)
    requires WordsAt(m, a, ws) && SameOutside(m, m', lo, lo + RANDOM_BYTES) && a + 8 * |ws| <= lo
    ensures WordsAt(m', a, ws)
  {
    WordsKept(m, m', a, ws);
  }

  lemma GetKept(m: Memory, m': Memory, lo: nat, hi: nat, n: nat)
    requires SameOutside(m, m', lo, hi)
    ensures Get(m', hi, n) == Get(m, hi, n)
  {
    forall i | 0 <= i < n ensures Get(m', hi, n)[i] == Get(m, hi, n)[i] {
      assert At(m', hi + i) == At(m, hi + i);
    }
  }

  lemma TableOutside(m0: Memory, m3: Memory, m4: Memory, m5: Memory, l: Layout)
    requires SameOutside(m0, m3, l.sp, l.auxv) && SameOutside(m3, m4, l.random, l.random + RANDOM_BYTES)
    requires SameOutside(m4, m5, l.auxv, l.random) && l.strings == l.random + RANDOM_BYTES && l.sp <= l.auxv <= l.random
    ensures SameOutside(m0, m5, l.sp, l.strings)
  {
  }

  lemma PointersFit(ps: seq<nat>, ss: seq<Str>, lo: nat, top: nat)
    requires Within(ps, ss, lo, top) && top < U64_LIMIT
    ensures |ps| == |ss| && forall i | 0 <= i < |ps| :: ps[i] < U64_LIMIT
  {
  }

  lemma {:induction false} AuxWordsFit(xs: seq<Aux>)
    requires forall i | 0 <= i < |xs| :: xs[i].kind < U64_LIMIT && xs[i].val < U64_LIMIT
    ensures forall i | 0 <= i < |AuxWords(xs)| :: AuxWords(xs)[i] < U64_LIMIT
  {
    if xs != [] { AuxWordsFit(xs[1..]); }
  }

  lemma AuxFits(p: Process, random: nat)
    requires Words64(p) && random < U64_LIMIT
    ensures var ws := AuxWords(AuxVector(p, random)) + [0, 0];
            |ws| == 2 * AUXV_PAIRS && forall i | 0 <= i < |ws| :: ws[i] < U64_LIMIT
  {
    hide AuxWords;
    AuxWordsFit(AuxVector(p, random));
  }

  /** What was written stays in place through the later writes, so the finished
      memory reads back as the whole image. m1: argument strings written; m2:
      environment strings; m3: tables; m4: guard words. */
  lemma ImageComplete(m1: Memory, m2: Memory, m3: Memory, m4: Memory, l: Layout, top: nat, mid: nat,
                      argv: seq<Str>, envp: seq<Str>, aps: seq<nat>, eps: seq<nat>, aux: seq<Aux>)
    requires StringsAt(m1, aps, argv) && Within(aps, argv, l.strings, mid) && SameOutside(m1, m2, mid, l.end)
    requires StringsAt(m2, eps, envp) && Within(eps, envp, mid, l.end) && SameOutside(m2, m3, l.sp, l.strings)
    requires WordsAt(m3, l.sp, [|argv|] + (aps + [0]) + (eps + [0]) + (AuxWords(aux) + [0, 0]))
    requires 16 <= top && SameOutside(m3, m4, top - 16, top)
    requires 0 < l.strings <= mid <= l.end <= top - 16 && l.sp + 8 == l.argv && l.auxv + 16 * (|aux| + 1) <= l.strings
    requires l.argv + 8 * (|argv| + 1) == l.envp && l.envp + 8 * (|envp| + 1) == l.auxv
    requires forall i | 0 <= i < |argv| :: NoNul(argv[i])
    requires forall i | 0 <= i < |envp| :: NoNul(envp[i])
    requires forall i | 0 <= i < |aux| :: aux[i].kind != 0
    ensures ReadImage(m4, l.sp, top) == Image(|argv|, argv, envp, aux)
  {
    hide WordAt, WordsAt, ReadImage, NoNul, AuxWords, StringsAt, Within, SameOutside;
    StringsPaired(m1, aps, argv);
    StringsPaired(m2, eps, envp);
    StringsStay(m1, m2, m3, m4, l, top, mid, argv, envp, aps, eps);
    TablesStay(m3, m4, l, top, |argv|, aps, eps, AuxWords(aux) + [0, 0]);
    ImageReadsBack(m4, l, top, argv, envp, aps, eps, aux);
  }

  lemma StringsStay(m1: Memory, m2: Memory, m3: Memory, m4: Memory, l: Layout, top: nat, mid: nat,
                    argv: seq<Str>, envp: seq<Str>, aps: seq<nat>, eps: seq<nat>)
    requires StringsAt(m1, aps, argv) && Within(aps, argv, l.strings, mid) && SameOutside(m1, m2, mid, l.end)
    requires StringsAt(m2, eps, envp) && Within(eps, envp, mid, l.end) && SameOutside(m2, m3, l.sp, l.strings)
    requires 16 <= top && SameOutside(m3, m4, top - 16, top) && l.sp <= l.strings <= mid <= l.end <= top - 16
    ensures StringsAt(m4, aps, argv) && StringsAt(m4, eps, envp)
    ensures Within(aps, argv, l.strings, top) && Within(eps, envp, l.strings, top)
  {
    hide StringsAt;
    StringsKept(m1, m2, aps, argv, l.strings, mid);
    StringsKept(m2, m3, aps, argv, l.strings, mid);
    StringsKept(m3, m4, aps, argv, l.strings, mid);
    StringsKept(m2, m3, eps, envp, mid, l.end);
    StringsKept(m3, m4, eps, envp, mid, l.end);
  }

  lemma TablesStay(m3: Memory, m4: Memory, l: Layout, top: nat, argc: nat, aps: seq<nat>, eps: seq<nat>, aux: seq<nat>)
    requires WordsAt(m3, l.sp, [argc] + (aps + [0]) + (eps + [0]) + aux)
    requires 16 <= top && SameOutside(m3, m4, top - 16, top) && l.auxv + 8 * |aux| <= top - 16
    requires l.sp + 8 == l.argv && l.argv + 8 * (|aps| + 1) == l.envp && l.envp + 8 * (|eps| + 1) == l.auxv
    ensures WordAt(m4, l.sp) == argc && WordsAt(m4, l.argv, aps + [0]) && WordsAt(m4, l.envp, eps + [0]) &&
              WordsAt(m4, l.auxv, aux)
  {
    hide WordAt;
    var a, b, c := [argc], aps + [0], eps + [0];
    WordsKept(m3, m4, l.sp, a + b + c + aux);
    WordsJoin(m4, l.sp, a + b + c, aux);
    WordsJoin(m4, l.sp, a + b, c);
    WordsJoin(m4, l.sp, a, b);
    assert WordAt(m4, l.sp + 8 * 0) == a[0];
  }

  lemma GetUnder(m: Memory, m': Memory, a: nat, lo: nat)
    requires SameOutside(m, m', lo, lo + 16) && a + RANDOM_BYTES <= lo
    ensures Get(m', a, RANDOM_BYTES) == Get(m, a, RANDOM_BYTES)
  {
    forall i | 0 <= i < RANDOM_BYTES ensures Get(m', a, RANDOM_BYTES)[i] == Get(m, a, RANDOM_BYTES)[i] {
      assert At(m', a + i) == At(m, a + i);
    }
  }

  lemma AllOutside(m0: Memory, m2: Memory, m3: Memory, m4: Memory, l: Layout, top: nat)
    requires 16 <= top && SameOutside(m0, m2, l.strings, l.end) && SameOutside(m2, m3, l.sp, l.strings) &&
              SameOutside(m3, m4, top - 16, top)
    requires l.sp <= l.strings <= l.end <= top - 16
    ensures SameOutside(m0, m4, l.sp, top)
  {
  }

  /** The size check's left-hand side. */
  function Need(argv: seq<Str>, envp: seq<Str>): nat {
    ImageBytes(|Capped(argv)|, |Capped(envp)|, StringBytes(Capped(argv)) + StringBytes(Capped(envp)))
  }

  /** What the psABI reader makes of the stack: the strings, and under each kind of
      auxiliary entry what the program is to know, the random bytes by their
      address. */
  ghost predicate ImageTells(m: Memory, i: Image, argv: seq<Str>, envp: seq<Str>, p: Process, random: seq<Byte>) {
    && i.argc == |argv| && i.argv == argv && i.envp == envp
    && OncePerKind(i.auxv) && |i.auxv| == AUXV_PAIRS - 1
    && exists a: nat :: AuxTells(i.auxv, p, a) && Get(m, a, RANDOM_BYTES) == random
  }

  lemma ImageTold(m: Memory, i: Image, argv: seq<Str>, envp: seq<Str>, p: Process, random: seq<Byte>, a: nat)
    requires i == Image(|argv|, argv, envp, AuxVector(p, a)) && Get(m, a, RANDOM_BYTES) == random
    ensures ImageTells(m, i, argv, envp, p, random)
  {
    hide AuxTells, OncePerKind, AuxVector, Get;
    AuxVectorTells(p, a);
  }

  // ----- the loader --------------------------------------------------------------------

  class Task {
    var mem: Memory
    var sp: nat
    var arg0: nat
    var arg1: nat
    var arg2: nat

    method CopyToUser(a: nat, bs: seq<Byte>)
      modifies this`mem
      ensures mem == Put(old(mem), a, bs)
    {
      mem := Put(mem, a, bs);
    }

    /** Copy the strings one after another from `base`, noting where each went. */
    method PutStrings(ss: seq<Str>, base: nat) returns (ps: seq<nat>, end: nat)
      modifies this`mem
      ensures end == base + StringBytes(ss)
      ensures StringsAt(mem, ps, ss) && Within(ps, ss, base, end)
      ensures SameOutside(old(mem), mem, base, end)
    {
      hide StringsAt, Within, SameOutside;
      ps, end := [], base;
      NoStrings(mem, base);
      for i := 0 to |ss|
        invariant end == base + StringBytes(ss[..i])
        invariant StringsAt(mem, ps, ss[..i]) && Within(ps, ss[..i], base, end)
        invariant SameOutside(old(mem), mem, base, end)
      {
        var bs := ss[i] + [0];
        StringAppended(mem, ps, ss[..i], base, end, ss[i]);
        ghost var m1 := mem;
        CopyToUser(end, bs);
        OutsideWidens(old(mem), m1, mem, base, end, end + |bs|);
        assert ss[..i + 1][..i] == ss[..i] && ss[..i] + [ss[i]] == ss[..i + 1];
        ps, end := ps + [end], end + |ss[i]| + 1;
      }
      assert ss[..|ss|] == ss;
    }

    method PutWord(a: nat, v: nat)
      requires v < U64_LIMIT
      modifies this`mem
      ensures WordAt(mem, a) == v && SameOutside(old(mem), mem, a, a + 8)
    {
      WordPut(mem, a, v);
      CopyToUser(a, Le(v, 8));
    }

    /** Store the words of `ws` one after another from `a`. */
    method PutWords(a: nat, ws: seq<nat>)
      requires forall i | 0 <= i < |ws| :: ws[i] < U64_LIMIT
      modifies this`mem
      ensures WordsAt(mem, a, ws) && SameOutside(old(mem), mem, a, a + 8 * |ws|)
    {
      hide WordAt;
      for i := 0 to |ws|
        invariant WordsAt(mem, a, ws[..i]) && SameOutside(old(mem), mem, a, a + 8 * i)
      {
        ghost var m1 := mem;
        PutWord(a + 8 * i, ws[i]);
        WordsKept(m1, mem, a, ws[..i]);
      }
      assert ws[..|ws|] == ws;
    }

    /** Store `ws` right behind the words `done` already stored from `a`. */
    method AppendWords(a: nat, ghost done: seq<nat>, at: nat, ws: seq<nat>)
      requires WordsAt(mem, a, done) && at == a + 8 * |done|
      requires forall i | 0 <= i < |ws| :: ws[i] < U64_LIMIT
      modifies this`mem
      ensures WordsAt(mem, a, done + ws) && SameOutside(old(mem), mem, at, at + 8 * |ws|)
    {
      hide WordAt;
      ghost var m1 := mem;
      PutWords(at, ws);
      WordsKept(m1, mem, a, done);
      WordsJoin(mem, a, done, ws);
    }

    /** argc, argv[], NULL, envp[], NULL, the AT_RANDOM bytes and auxv[], in the
        order the loader writes them. */
    method PutTables(l: Layout, argc: nat, aps: seq<nat>, eps: seq<nat>, random: seq<Byte>, aux: seq<nat>)
      requires l.argv == l.sp + 8 && l.envp == l.argv + 8 * (|aps| + 1) && l.auxv == l.envp + 8 * (|eps| + 1)
      requires l.random == l.auxv + 8 * |aux| && |random| == RANDOM_BYTES && l.strings == l.random + RANDOM_BYTES
      requires argc < U64_LIMIT
      requires forall i | 0 <= i < |aps| :: aps[i] < U64_LIMIT
      requires forall i | 0 <= i < |eps| :: eps[i] < U64_LIMIT
      requires forall i | 0 <= i < |aux| :: aux[i] < U64_LIMIT
      modifies this`mem
      ensures WordsAt(mem, l.sp, [argc] + (aps + [0]) + (eps + [0]) + aux)
      ensures Get(mem, l.random, RANDOM_BYTES) == random
      ensures SameOutside(old(mem), mem, l.sp, l.strings)
    {
      hide WordAt, WordsAt, SameOutside, Get;
      ghost var m0 := mem;
      NoWords(mem, l.sp);
      AppendWords(l.sp, [], l.sp, [argc]);
      assert [] + [argc] == [argc];
      ghost var m1 := mem;
      AppendWords(l.sp, [argc], l.argv, aps + [0]);
      OutsideWidens(m0, m1, mem, l.sp, l.argv, l.envp);
      ghost var m2, w2 := mem, [argc] + (aps + [0]);
      AppendWords(l.sp, w2, l.envp, eps + [0]);
      OutsideWidens(m0, m2, mem, l.sp, l.envp, l.auxv);
      ghost var m3, w3 := mem, w2 + (eps + [0]);
      CopyToUser(l.random, random);
      GetPut(m3, l.random, random);
      WordsBelow(m3, mem, l.sp, w3, l.random);
      ghost var m4 := mem;
      AppendWords(l.sp, w3, l.auxv, aux);
      GetKept(m4, mem, l.auxv, l.random, RANDOM_BYTES);
      TableOutside(m0, m3, m4, mem, l);
    }

    /** Write the strings, the tables and the guard words of an image that fits. */
    method WriteImage(l: Layout, top: nat, argv: seq<Str>, envp: seq<Str>, p: Process, random: seq<Byte>)
      requires 16 <= top < U64_LIMIT && |random| == RANDOM_BYTES && Words64(p) && |argv| < U64_LIMIT
      requires l.argv == l.sp + 8 && l.envp == l.argv + 8 * (|argv| + 1) && l.auxv == l.envp + 8 * (|envp| + 1)
      requires l.random == l.auxv + 256 && l.strings == l.random + RANDOM_BYTES
      requires l.end == l.strings + (StringBytes(argv) + StringBytes(envp)) && l.end + 16 <= top
      requires forall i | 0 <= i < |argv| :: NoNul(argv[i])
      requires forall i | 0 <= i < |envp| :: NoNul(envp[i])
      modifies this`mem
      ensures ReadImage(mem, l.sp, top) == Image(|argv|, argv, envp, AuxVector(p, l.random))
      ensures Get(mem, l.random, RANDOM_BYTES) == random
      ensures WordsAt(mem, top - 16, [CANARY, CANARY_COMPLEMENT])
      ensures SameOutside(old(mem), mem, l.sp, top)
    {
      hide WordAt, WordsAt, SameOutside, Get, StringsAt, ReadImage, StringBytes, AuxVector, AuxWords, NoNul, Within;
      ghost var m0 := mem;
      var aps, eps, mid, end;
      aps, mid := PutStrings(argv, l.strings);
      ghost var m1 := mem;
      eps, end := PutStrings(envp, mid);
      ghost var m2 := mem;
      OutsideWidens(m0, m1, m2, l.strings, mid, end);
      var aux := AuxVector(p, l.random);
      PointersFit(aps, argv, l.strings, mid);
      PointersFit(eps, envp, mid, end);
      AuxFits(p, l.random);
      PutTables(l, |argv|, aps, eps, random, AuxWords(aux) + [0, 0]);
      ghost var m3 := mem;
      PutWords(top - 16, [CANARY, CANARY_COMPLEMENT]);
      ImageComplete(m1, m2, m3, mem, l, top, mid, argv, envp, aps, eps, aux);
      GetUnder(m3, mem, l.random, top - 16);
      AllOutside(m0, m2, m3, mem, l, top);
    }

    /** `elf_setup_stack`. When the image fits, a program that follows the psABI
        from sp reads back exactly the capped argument and environment strings
        and the auxiliary vector; sp is 16-byte aligned, and the guard words fit
        in the 16 bytes left at its top. Everything lies inside the stack exactly
        if the stack has the margin: below that the size test wraps around and
        passes, and the image starts below the stack. */
    method SetupStack(start: nat, size: nat, argv0: seq<Str>, envp0: seq<Str>, p: Process, random: seq<Byte>)
      returns (err: Errno)
      requires 0 < start && start + size < U64_LIMIT && (size < STACK_MARGIN ==> Need(argv0, envp0) <= start + size)
      requires |random| == RANDOM_BYTES && Words64(p)
      requires forall i | 0 <= i < |argv0| :: NoNul(argv0[i])
      requires forall i | 0 <= i < |envp0| :: NoNul(envp0[i])
      modifies this
      ensures err == ENOMEM <==> Need(argv0, envp0) > Usable(size)
      ensures err == ENOMEM || err == OK
      ensures err == ENOMEM ==> unchanged(this)
      ensures err == OK ==> sp % 16 == 0 && sp < start + size && (start <= sp <==> STACK_MARGIN <= size)
      ensures err == OK ==>
                var argv, envp := Capped(argv0), Capped(envp0);
                var end := sp + 8 + 8 * (|argv| + 1) + 8 * (|envp| + 1) + 256 + 16 + StringBytes(argv) + StringBytes(envp);
                && end + 16 <= start + size < end + 32
                && arg0 == |argv| && arg1 == sp + 8 && arg2 == arg1 + 8 * (|argv| + 1)
                && ImageTells(mem, ReadImage(mem, sp, start + size), argv, envp, p, random)
                && WordsAt(mem, start + size - 16, [CANARY, CANARY_COMPLEMENT])
                && SameOutside(old(mem), mem, sp, start + size)
    {
      hide WordsAt, SameOutside, Get, ReadImage, StringBytes, AuxVector, NoNul, Words64, ImageBytes, LayoutOf, Usable,
           ImageTells;
      var argv, envp := Capped(argv0), Capped(envp0);
      var strings := StringBytes(argv) + StringBytes(envp);
      if ImageBytes(|argv|, |envp|, strings) > Usable(size) { return ENOMEM; }
      var top := start + size;
      LayoutSound(start, size, |argv|, |envp|, strings);
      var l := LayoutOf(top, |argv|, |envp|, strings);
      WriteImage(l, top, argv, envp, p, random);
      ImageTold(mem, ReadImage(mem, l.sp, top), argv, envp, p, random, l.random);
      sp, arg0, arg1, arg2 := l.sp, |argv|, l.argv, l.envp;
      return OK;
    }
  }
}

/** What resizing does to the bytes of a FAT16 file. Growing shows whatever lies
    behind the file's end in its last cluster, so a file is more than the bytes
    its size covers. */
module FatTidy {
  import opened Bytes
  import opened Outcomes
  import opened FatBytes
  import opened FatVolume

  /** A file: the bytes its size covers, and what lies behind them in its clusters, as
      far as that is not just zeros. */
  datatype Content = Content(bytes: seq<Byte>, slack: seq<Byte>)

  const EMPTY := Content([], [])

  /** Without the zeros at the end. */
  function Stripped(s: seq<Byte>): (t: seq<Byte>)
    ensures t <= s && (t == [] || t[|t| - 1] != 0) && forall k | |t| <= k < |s| :: s[k] == 0
  {
    if s == [] || s[|s| - 1] != 0 then s else Stripped(s[..|s| - 1])
  }

  lemma StrippedUnique(s: seq<Byte>, t: seq<Byte>)
    requires t <= s && (t == [] || t[|t| - 1] != 0) && forall k | |t| <= k < |s| :: s[k] == 0
    ensures Stripped(s) == t
  {
    var u := Stripped(s);
    assert |u| < |t| ==> s[|t| - 1] == 0;
    assert |t| < |u| ==> s[|u| - 1] == 0;
  }

  /** The file that clusters holding `raw` are, with `size` bytes. */
  function ContentOf(raw: seq<Byte>, size: nat): Content {
    Content(Fit(raw, size), if size <= |raw| then Stripped(raw[size..]) else [])
  }

  /** Everything in the clusters of a file. */
  function AllOf(c: Content): seq<Byte> {
    c.bytes + c.slack
  }

  // ----- what the operations do to a file -------------------------------------------------

  /** `fat16_ensure_size`: the clusters are cut to those `need` calls for, or filled up
      with zeros. */
  function ResizedTo(c: Content, need: nat, cb: nat): Content
    requires cb > 0
  {
    ContentOf(Fit(AllOf(c), Ceil(need, cb) * cb), need)
  }

  /** `fat16_write_file`: resized if the write ends past the file, then overlaid. */
  function WrittenTo(c: Content, off: nat, buf: seq<Byte>, cb: nat): Content
    requires cb > 0
  {
    var g := if off + |buf| > |c.bytes| then ResizedTo(c, off + |buf|, cb) else c;
    Content(Over(g.bytes, off, buf), g.slack)
  }

  lemma FitSuffix(x: seq<Byte>, y: seq<Byte>, m: nat)
    requires x <= y && forall k | |x| <= k < |y| :: y[k] == 0
    ensures Fit(x, m) == Fit(y, m)
  {
    assert forall k | 0 <= k < m :: Fit(x, m)[k] == Fit(y, m)[k];
  }

  /** All of a file's clusters, but for zeros at the end. */
  lemma AllOfContent(raw: seq<Byte>, size: nat, m: nat)
    requires size <= |raw|
    ensures Fit(AllOf(ContentOf(raw, size)), m) == Fit(raw, m)
  {
    hide Stripped;
    var c := ContentOf(raw, size);
    var rest := raw[size..];
    assert c.bytes == raw[..size] && raw == raw[..size] + rest;
    assert AllOf(c) <= raw;
    forall k | |AllOf(c)| <= k < |raw| ensures raw[k] == 0 {
      assert raw[k] == rest[k - size];
    }
    FitSuffix(AllOf(c), raw, m);
  }

  /** Zeros added behind a file do not change it. */
  lemma ContentGrown(raw: seq<Byte>, size: nat, m: nat)
    requires size <= |raw| <= m
    ensures ContentOf(Fit(raw, m), size) == ContentOf(raw, size)
  {
    hide Stripped;
    var g := Fit(raw, m);
    var x, y := raw[size..], g[size..];
    assert x <= y && forall k | |x| <= k < |y| :: y[k] == 0;
    StrippedUnique(y, Stripped(x));
    assert Fit(g, size) == Fit(raw, size);
  }

  lemma ContentResized(raw: seq<Byte>, size: nat, need: nat, cb: nat)
    requires size <= |raw| && cb > 0
    ensures ContentOf(Fit(raw, Ceil(need, cb) * cb), need) == ResizedTo(ContentOf(raw, size), need, cb)
  {
    hide Fit, ContentOf, AllOf;
    AllOfContent(raw, size, Ceil(need, cb) * cb);
  }

  /** An overlay below the size leaves what is behind. */
  lemma ContentOverlaid(raw: seq<Byte>, size: nat, off: nat, buf: seq<Byte>)
    requires size <= |raw| && off + |buf| <= size
    ensures ContentOf(Over(raw, off, buf), size) ==
              Content(Over(ContentOf(raw, size).bytes, off, buf), ContentOf(raw, size).slack)
  {
    hide Stripped;
    var w := Over(raw, off, buf);
    assert |w| == |raw| && w[size..] == raw[size..];
    assert Fit(w, size) == Over(Fit(raw, size), off, buf);
  }

  lemma ContentWritten(raw: seq<Byte>, size: nat, cb: nat, off: nat, buf: seq<Byte>)
    requires size <= |raw| && cb > 0
    ensures ContentOf(WrittenRaw(raw, size, cb, off, buf), if off + |buf| > size then off + |buf| else size)
         == WrittenTo(ContentOf(raw, size), off, buf, cb)
  {
    hide ContentOf, Over, ResizedTo;
    var end := off + |buf|;
    ContentBytes(raw, size);
    if end > size {
      CeilBounds(end, cb);
      FitLength(raw, Ceil(end, cb) * cb);
      ContentResized(raw, size, end, cb);
      ContentOverlaid(Fit(raw, Ceil(end, cb) * cb), end, off, buf);
    } else {
      ContentOverlaid(raw, size, off, buf);
    }
  }

  lemma FitLength(s: seq<Byte>, m: nat)
    ensures |Fit(s, m)| == m
  {
  }

  lemma ContentBytes(raw: seq<Byte>, size: nat)
    ensures ContentOf(raw, size).bytes == Fit(raw, size) && |ContentOf(raw, size).bytes| == size
  {
    hide Stripped;
  }

  // ----- zeros behind a file -----------------------------------------------------------------

  /** A write zero-pads up to `off` and then overlays `buf`. */
  function Written(c: seq<Byte>, off: nat, buf: seq<Byte>): seq<Byte> {
    Over(Fit(c, if off + |buf| > |c| then off + |buf| else |c|), off, buf)
  }

  /** Reading back returns what was written, and every byte below the old size
      that was not written is unchanged. */
  lemma WriteThenRead(c: seq<Byte>, off: nat, buf: seq<Byte>)
    ensures Slice(Written(c, off, buf), off, |buf|) == buf
    ensures |Written(c, off, buf)| == if off + |buf| > |c| then off + |buf| else |c|
    ensures forall k | 0 <= k < |Written(c, off, buf)| && !(off <= k < off + |buf|) ::
              Written(c, off, buf)[k] == if k < |c| then c[k] else 0
  {
    var w := Written(c, off, buf);
    assert |buf| > 0 ==> w[off..off + |buf|] == buf;
  }

  /** The same of any file: only below the old end is it sure what surrounds the
      written bytes. */
  lemma WrittenAnywhere(c: Content, off: nat, buf: seq<Byte>, cb: nat)
    requires cb > 0
    ensures var w := WrittenTo(c, off, buf, cb).bytes;
            && |w| == (if off + |buf| > |c.bytes| then off + |buf| else |c.bytes|)
            && Slice(w, off, |buf|) == buf
            && forall k | 0 <= k < |w| && !(off <= k < off + |buf|) ::
                 w[k] == if k < |AllOf(c)| && (k < |c.bytes| || k < Ceil(off + |buf|, cb) * cb) then AllOf(c)[k] else 0
  {
    hide Stripped, Ceil;
    var w := WrittenTo(c, off, buf, cb).bytes;
    if off + |buf| > |c.bytes| {
      CeilBounds(off + |buf|, cb);
      ContentBytes(Fit(AllOf(c), Ceil(off + |buf|, cb) * cb), off + |buf|);
    }
    assert |buf| > 0 ==> w[off..off + |buf|] == buf;
  }

  /** The bytes of a file behind `need` that stay in its clusters are zero: what a
      user can look at before cutting the file. */
  predicate CleanCut(file: seq<Byte>, need: nat, cb: nat)
    requires cb > 0
  {
    forall k | need <= k < |file| && k < Ceil(need, cb) * cb :: file[k] == 0
  }

  /** With zeros behind it a file is cut or zero-padded, and has zeros behind it again
      if and only if the cut is clean. */
  lemma ResizeTidy(c: Content, need: nat, cb: nat)
    requires c.slack == [] && cb > 0
    ensures ResizedTo(c, need, cb).bytes == Fit(c.bytes, need)
    ensures ResizedTo(c, need, cb).slack == [] <==> CleanCut(c.bytes, need, cb)
  {
    hide Ceil;
    CeilBounds(need, cb);
    var m := Ceil(need, cb) * cb;
    assert AllOf(c) == c.bytes;
    var raw := Fit(c.bytes, m);
    assert Fit(raw, need) == Fit(c.bytes, need);
    var rest := raw[need..];
    if CleanCut(c.bytes, need, cb) {
      assert forall k | 0 <= k < |rest| :: rest[k] == 0;
      StrippedUnique(rest, []);
    }
    if Stripped(rest) == [] {
      forall k | need <= k < |c.bytes| && k < m ensures c.bytes[k] == 0 {
        assert rest[k - need] == 0;
      }
    }
  }

  /** A write to such a file is the zero-padded overlay, and leaves it such a file. */
  lemma WriteTidy(c: Content, off: nat, buf: seq<Byte>, cb: nat)
    requires c.slack == [] && cb > 0
    ensures WrittenTo(c, off, buf, cb) == Content(Written(c.bytes, off, buf), [])
  {
    hide ResizedTo;
    var end := off + |buf|;
    if end > |c.bytes| {
      ResizeTidy(c, end, cb);
    } else {
      assert Fit(c.bytes, |c.bytes|) == c.bytes;
    }
  }

  /** Cutting a file to `a` and growing it again to `b` shows zeros if and only if its
      clusters held zeros from `a` to the end of those that were kept. */
  lemma CutThenGrowIff(c: Content, a: nat, b: nat, cb: nat)
    requires cb > 0 && a <= |c.bytes| && a <= b
    ensures ResizedTo(ResizedTo(c, a, cb), b, cb).bytes == Fit(c.bytes[..a], b)
       <==> forall k | a <= k < |AllOf(c)| && k < Ceil(a, cb) * cb && k < b :: AllOf(c)[k] == 0
  {
    hide Ceil, Stripped, ContentOf;
    var m := Ceil(a, cb) * cb;
    CeilBounds(a, cb);
    CeilBounds(b, cb);
    var raw := Fit(AllOf(c), m);
    AllOfContent(raw, a, Ceil(b, cb) * cb);
    ContentBytes(Fit(raw, Ceil(b, cb) * cb), b);
    var x, y := Fit(Fit(raw, Ceil(b, cb) * cb), b), Fit(c.bytes[..a], b);
    forall k | 0 <= k < b
      ensures x[k] == (if k < |AllOf(c)| && k < m then AllOf(c)[k] else 0)
      ensures y[k] == (if k < a then AllOf(c)[k] else 0)
    {
    }
    if x == y {
      forall k | a <= k < |AllOf(c)| && k < m && k < b ensures AllOf(c)[k] == 0 {
        assert x[k] == y[k];
      }
    }
    if forall k | a <= k < |AllOf(c)| && k < m && k < b :: AllOf(c)[k] == 0 {
      assert forall k | 0 <= k < b :: x[k] == y[k];
    }
  }

  // ----- on the volume -----------------------------------------------------------------------

  ghost function ContentsOf(raws: map<Ref, seq<Byte>>, ents: map<Ref, Dirent>): map<Ref, Content> {
    map r | r in raws && r in ents :: ContentOf(raws[r], ents[r].size)
  }

  /** The files of a volume. */
  ghost function Contents(v: Volume): map<Ref, Content>
    reads v
  {
    ContentsOf(v.Raws(), v.ents)
  }

  lemma FileOfRaw(v: Volume, r: Ref)
    requires v.Valid() && r in v.ents && !v.ents[r].isDir
    ensures r in v.Files() && r in v.Raws() && v.Raws()[r] == v.RawBytes(r)
    ensures v.ents[r].size <= |v.RawBytes(r)| && v.Files()[r] == Fit(v.RawBytes(r), v.ents[r].size) &&
              |v.Files()[r]| == v.ents[r].size
  {
    hide RawOf, Fit, EntryOk;
    EntryAt(v.fats[0], v.n, v.cb, v.owner, v.ents, v.chains, r);
    FileBytes(v.data, v.cb, v.ents, v.chains, r);
    RawsAt(v.data, v.cb, v.ents, v.chains, r);
    FileAt(v.data, v.cb, v.ents[r], v.chains[r]);
    RawBounds(v.fats[0], v.data, v.n, v.cb, v.owner, r, v.ents[r], v.chains[r]);
    FileSize(v.fats[0], v.data, v.n, v.cb, v.owner, r, v.ents[r], v.chains[r]);
  }

  lemma ContentAt(v: Volume, r: Ref)
    requires v.Valid() && r in v.ents && !v.ents[r].isDir
    ensures r in v.Files() && r in Contents(v) && Contents(v)[r] == ContentOf(v.RawBytes(r), v.ents[r].size)
    ensures Contents(v)[r].bytes == v.Files()[r]
    ensures v.ents[r].size <= |v.RawBytes(r)| && |v.Files()[r]| == v.ents[r].size && r in v.Raws() &&
              v.Raws()[r] == v.RawBytes(r)
  {
    hide RawsOf, FilesOf, Volume.RawBytes, Volume.Valid, ContentOf;
    FileOfRaw(v, r);
    ContentBytes(v.RawBytes(r), v.ents[r].size);
  }

  lemma ContentsUpdate(raws: map<Ref, seq<Byte>>, ents: map<Ref, Dirent>, r: Ref, raw: seq<Byte>, de: Dirent)
    ensures ContentsOf(raws[r := raw], ents[r := de]) == ContentsOf(raws, ents)[r := ContentOf(raw, de.size)]
  {
    hide ContentOf;
  }

  lemma ContentsGrown(raws: map<Ref, seq<Byte>>, raws': map<Ref, seq<Byte>>, ents: map<Ref, Dirent>, r: Ref)
    requires GrownRaw(raws, raws', r) && r in ents && ents[r].size <= |raws[r]|
    ensures ContentsOf(raws', ents) == ContentsOf(raws, ents)
  {
    hide ContentOf;
    var m: nat :| |raws[r]| <= m && raws' == raws[r := Fit(raws[r], m)];
    ContentGrown(raws[r], ents[r].size, m);
    assert ents[r := ents[r]] == ents;
    ContentsUpdate(raws, ents, r, Fit(raws[r], m), ents[r]);
  }

  /** `fat16_ensure_size`: the file is resized and no other changes; on failure none
      does. */
  method Resize(v: Volume, r: Ref, need: nat) returns (err: Errno)
    requires v.Valid() && r in v.ents && !v.ents[r].isDir
    modifies v
    ensures v.Valid() && (err == OK || err == ENOSPC) && r in old(Contents(v))
    ensures err == OK ==> r in v.ents && v.ents == old(v.ents)[r := Dirent(v.ents[r].cluster, need, false)]
    ensures err != OK ==> v.ents == old(v.ents)
    ensures err == ENOSPC <==> Ceil(need, v.cb) > old(v.ChainLen(r)) + old(v.Free())
    ensures Contents(v) == if err == OK then
              old(Contents(v))[r := ResizedTo(old(Contents(v))[r], need, v.cb)] else old(Contents(v))
  {
    hide FilesOf, RawsOf, RawOf, Fit, AllOk, Resized, Ceil, GrownRaw, ContentsOf, ContentOf, ResizedTo, FreeSet;
    ContentAt(v, r);
    ghost var raw, size, raws, ents := v.RawBytes(r), v.ents[r].size, v.Raws(), v.ents;
    err := v.EnsureSize(r, need);
    if err != OK {
      ContentsGrown(raws, v.Raws(), ents, r);
    } else {
      ContentResized(raw, size, need, v.cb);
      ContentsUpdate(raws, ents, r, Fit(raw, Ceil(need, v.cb) * v.cb), v.ents[r]);
    }
  }

  /** `fat16_write_file`: the file is written to and no other changes; on failure none
      does. */
  method Write(v: Volume, r: Ref, buf: seq<Byte>, off: int) returns (err: Errno, nwrote: nat)
    requires v.Valid() && r in v.ents && !v.ents[r].isDir
    modifies v
    ensures v.Valid() && r in old(Contents(v)) && err in {OK, EINVAL, EFBIG, ENOSPC}
    ensures err == EINVAL <==> off < 0
    ensures err == EFBIG <==> off >= 0 && off + |buf| > UINT32_MAX
    ensures err == ENOSPC <==>
              0 <= off && |old(Contents(v))[r].bytes| < off + |buf| <= UINT32_MAX &&
              Ceil(off + |buf|, v.cb) > old(v.ChainLen(r)) + old(v.Free())
    ensures err == OK ==> r in v.ents && v.ents == old(v.ents)[r := v.ents[r]] && !v.ents[r].isDir && nwrote == |buf|
    ensures err == OK ==> Contents(v) == old(Contents(v))[r := WrittenTo(old(Contents(v))[r], off, buf, v.cb)]
    ensures err != OK ==> Contents(v) == old(Contents(v)) && v.ents == old(v.ents)
  {
    hide FilesOf, RawsOf, RawOf, Fit, Over, AllOk, GrownRaw, WrittenRaw, ContentsOf, ContentOf, WrittenTo,
         FreeSet, Ceil;
    ContentAt(v, r);
    ghost var raw, size, raws, ents := v.RawBytes(r), v.ents[r].size, v.Raws(), v.ents;
    err, nwrote := v.WriteFile(r, buf, off);
    if err == ENOSPC { ContentsGrown(raws, v.Raws(), ents, r); }
    if err == OK {
      ContentWritten(raw, size, v.cb, off, buf);
      ContentsUpdate(raws, ents, r, WrittenRaw(raw, size, v.cb, off, buf), v.ents[r]);
    }
  }

  /** A user who cuts a file that is followed by zeros, and grows it again, sees zeros if
      and only if the file held zeros up to the end of the last cluster it kept. */
  method CutThenGrow(v: Volume, r: Ref, a: nat, b: nat) returns (err: Errno)
    requires v.Valid() && r in v.ents && !v.ents[r].isDir && a <= v.ents[r].size && a <= b
    requires r in Contents(v) && Contents(v)[r].slack == []
    modifies v
    ensures v.Valid() && (err == OK || err == ENOSPC)
    ensures r in old(v.Files()) && |old(v.Files())[r]| == old(v.ents)[r].size && r in v.Files()
    ensures err == OK ==>
              (v.Files()[r] == Fit(old(v.Files())[r][..a], b) <==>
              CleanCut(old(v.Files())[r][..Least(old(v.ents)[r].size, b)], a, v.cb))
  {
    hide FilesOf, RawsOf, RawOf, Fit, AllOk, Resized, Ceil, ContentsOf, ContentOf, ResizedTo;
    ContentAt(v, r);
    ghost var c := Contents(v)[r];
    err := Resize(v, r, a);
    ContentAt(v, r);
    if err != OK { return; }
    err := Resize(v, r, b);
    ContentAt(v, r);
    CutThenGrowIff(c, a, b, v.cb);
    assert AllOf(c) == c.bytes;
  }

  function Least(a: nat, b: nat): nat { if a < b then a else b }
}

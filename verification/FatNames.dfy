/** The 8.3 names of a FAT16 directory (fs/fat16_disk.c:337-460). */
module FatNames {
  import opened Bytes
  import opened Outcomes

  const MAX_NAME := 12 // FAT16_MAX_NAME, the terminating NUL included

  const SPACE: Byte := 0x20
  const DOT: Byte := 0x2E
  const GONE: Byte := 0xE5 // first byte of a deleted entry

  type Text = s: seq<Byte> | forall i | 0 <= i < |s| :: s[i] != 0 // a C string
  type Name11 = s: seq<Byte> | |s| == 11 witness seq(11, _ => 0)

  // ----- string helpers ---------------------------------------------------------------

  function UpperByte(c: Byte): Byte {
    if 0x61 <= c <= 0x7A then c - 0x20 else c
  }

  function Upper(s: seq<Byte>): (u: seq<Byte>)
    ensures |u| == |s| && forall i | 0 <= i < |s| :: u[i] == UpperByte(s[i])
  {
    seq(|s|, i requires 0 <= i < |s| => UpperByte(s[i]))
  }

  /** The part of `s` in front of the first `b`. */
  function Until(s: seq<Byte>, b: Byte): (t: seq<Byte>)
    ensures |t| <= |s| && t == s[..|t|] && b !in t && (|t| < |s| ==> s[|t|] == b)
  {
    if s == [] || s[0] == b then [] else [s[0]] + Until(s[1..], b)
  }

  /** What fits a name buffer. */
  function Cut(s: seq<Byte>): seq<Byte> {
    if |s| >= MAX_NAME then s[..MAX_NAME - 1] else s
  }

  /** How lookups see a name. */
  function Key(s: seq<Byte>): seq<Byte> {
    Upper(Cut(s))
  }

  function Padded(s: seq<Byte>, n: nat): seq<Byte>
    requires |s| <= n
  {
    s + seq(n - |s|, _ => SPACE)
  }

  // ----- the three operations -----------------------------------------------------------

  function BaseOf(nm: seq<Byte>): seq<Byte> {
    Until(nm, DOT)
  }

  /** All behind the first dot, further dots included. */
  function ExtOf(nm: seq<Byte>): seq<Byte> {
    if |BaseOf(nm)| < |nm| then nm[|BaseOf(nm)| + 1..] else []
  }

  /** `fat16_encode_83`; None for EINVAL. */
  function Encode(nm: Text): (r: Option<Name11>) {
    var base, ext := BaseOf(nm), ExtOf(nm);
    if nm == [] || nm == [DOT] || nm == [DOT, DOT] then None
    else if base == [] || |base| > 8 || |ext| > 3 then None
    else Some(Padded(Upper(base), 8) + Padded(Upper(ext), 3))
  }

  /** `fat16_format_dirent_name`; None when the name does not fit and the buffer
      is left as it was. */
  function Format(n: Name11): Option<seq<Byte>> {
    var base, ext := Until(Until(n[..8], SPACE), 0), Until(Until(n[8..], SPACE), 0);
    if ext == [] then Some(base)
    else if |base| + 1 + |ext| >= MAX_NAME then None
    else Some(base + [DOT] + ext)
  }

  const LFN := 0x0F

  predicate Live(n: Name11, attr: Byte) {
    n[0] != 0 && n[0] != GONE && attr != LFN
  }

  /** `fat16_name_match`. The buffer the entry's name is formatted into is not
      initialised: `junk` is what it held before. */
  predicate Match(want: Text, n: Name11, attr: Byte, junk: seq<Byte>) {
    && Live(n, attr)
    && Key(want) == match Format(n) case Some(f) => Key(f) case None => Key(junk)
  }

  // ----- encode, then match ---------------------------------------------------------------

  /** A name that survives being stored: no spaces, something behind the first
      dot, and not marked as deleted. */
  predicate Plain(nm: Text) {
    SPACE !in nm && nm != [] && nm[0] != GONE && (|BaseOf(nm)| < |nm| ==> ExtOf(nm) != [])
  }

  lemma {:induction false} UntilUnique(s: seq<Byte>, b: Byte, t: seq<Byte>)
    requires |t| <= |s| && t == s[..|t|] && b !in t && (|t| < |s| ==> s[|t|] == b)
    ensures Until(s, b) == t
  {
    if t != [] { UntilUnique(s[1..], b, t[1..]); }
  }

  /** The names that can be stored: one to eight characters, and with a dot up to three
      behind it. */
  lemma EncodableIff(base: Text, ext: Text)
    requires DOT !in base
    ensures Encode(base).Some? <==> 1 <= |base| <= 8
    ensures forall i | 0 <= i < |base + [DOT] + ext| :: (base + [DOT] + ext)[i] != 0
    ensures Encode(base + [DOT] + ext).Some? <==> 1 <= |base| <= 8 && |ext| <= 3
  {
    var nm: Text := base + [DOT] + ext;
    UntilUnique(base, DOT, base);
    assert nm[..|base|] == base;
    UntilUnique(nm, DOT, base);
    assert ExtOf(nm) == ext;
  }

  predicate SameLetter(a: Byte, b: Byte) {
    a == b || (0x61 <= a <= 0x7A && a == b + 0x20) || (0x61 <= b <= 0x7A && b == a + 0x20)
  }

  /** A lookup takes two names for one exactly if, as far as the buffer goes, they differ
      in the case of letters only. */
  lemma KeyIffSameLetters(a: seq<Byte>, b: seq<Byte>)
    ensures Key(a) == Key(b) <==>
              |Cut(a)| == |Cut(b)| && forall i | 0 <= i < |Cut(a)| :: SameLetter(a[i], b[i])
  {
    var x, y := Cut(a), Cut(b);
    if |x| == |y| {
      if Upper(x) == Upper(y) {
        forall i | 0 <= i < |x| ensures SameLetter(a[i], b[i]) {
          assert Upper(x)[i] == Upper(y)[i];
        }
      }
      if forall i | 0 <= i < |x| :: SameLetter(a[i], b[i]) {
        forall i | 0 <= i < |x| ensures Upper(x)[i] == Upper(y)[i] {
          assert SameLetter(a[i], b[i]);
        }
      }
    } else {
      UpperLength(x);
      UpperLength(y);
    }
  }

  /** Padding is what the space ends. */
  lemma UntilPadded(s: seq<Byte>, n: nat)
    requires |s| <= n
    ensures Until(Padded(s, n), SPACE) == Until(s, SPACE)
  {
    var t := Until(s, SPACE);
    assert t == Padded(s, n)[..|t|];
    UntilUnique(Padded(s, n), SPACE, t);
  }

  lemma NoNul(nm: Text)
    ensures Until(Until(Upper(nm), SPACE), 0) == Until(Upper(nm), SPACE)
    ensures BaseOf(nm) == nm[..|BaseOf(nm)|] && 0 !in BaseOf(nm) && 0 !in ExtOf(nm)
  {
    var t := Until(Upper(nm), SPACE);
    forall i | 0 <= i < |t| ensures t[i] != 0 { assert t[i] == UpperByte(nm[i]); }
    UntilUnique(t, 0, t);
  }

  /** What an encoded name looks like when formatted again. */
  lemma FormatEncoded(nm: Text)
    requires Encode(nm).Some? && |nm| < MAX_NAME
    ensures var base, ext := Until(Upper(BaseOf(nm)), SPACE), Until(Upper(ExtOf(nm)), SPACE);
            Format(Encode(nm).value) == Some(if ext == [] then base else base + [DOT] + ext)
  {
    var base: Text, ext: Text := BaseText(nm), ExtText(nm);
    var n := Encode(nm).value;
    assert n[..8] == Padded(Upper(base), 8) && n[8..] == Padded(Upper(ext), 3);
    UntilPadded(Upper(base), 8);
    UntilPadded(Upper(ext), 3);
    NoNul(base);
    NoNul(ext);
  }

  function BaseText(nm: Text): (t: Text)
    ensures t == BaseOf(nm)
  {
    BaseOf(nm)
  }

  function ExtText(nm: Text): (t: Text)
    ensures t == ExtOf(nm)
  {
    ExtOf(nm)
  }

  lemma NoSpaceUpper(s: seq<Byte>)
    ensures SPACE in Upper(s) <==> SPACE in s
    ensures SPACE !in s ==> Until(Upper(s), SPACE) == Upper(s)
  {
    forall i | 0 <= i < |s| ensures Upper(s)[i] == SPACE <==> s[i] == SPACE { }
    if SPACE in s { var i :| 0 <= i < |s| && s[i] == SPACE; assert Upper(s)[i] == SPACE; }
    if SPACE !in s { UntilUnique(Upper(s), SPACE, Upper(s)); }
  }

  /** Base, dot and extension together are the name. */
  lemma NameParts(nm: Text)
    ensures |BaseOf(nm)| < |nm| ==>
              nm == BaseOf(nm) + [DOT] + ExtOf(nm) && Upper(nm) == Upper(BaseOf(nm)) + [DOT] + Upper(ExtOf(nm))
    ensures |BaseOf(nm)| == |nm| ==> nm == BaseOf(nm) && ExtOf(nm) == []
  {
  }

  lemma KeyOfShort(s: seq<Byte>)
    requires |s| < MAX_NAME
    ensures Key(s) == Upper(s)
  {
  }

  lemma UpperTwice(s: seq<Byte>)
    ensures Upper(Upper(s)) == Upper(s)
  {
  }

  lemma EncodedLive(nm: Text, attr: Byte)
    requires Encode(nm).Some? && attr != LFN
    ensures Live(Encode(nm).value, attr) <==> nm[0] != GONE
  {
    assert Encode(nm).value[0] == Upper(BaseOf(nm))[0] == UpperByte(nm[0]);
  }

  lemma FormatPlain(nm: Text)
    requires Encode(nm).Some? && |nm| < MAX_NAME && Plain(nm)
    ensures Format(Encode(nm).value) == Some(Upper(nm))
  {
    hide Format, Encode, Until;
    FormatEncoded(nm);
    NameParts(nm);
    NoSpaceParts(nm);
    NoSpaceUpper(BaseOf(nm));
    NoSpaceUpper(ExtOf(nm));
  }

  lemma NoSpaceParts(nm: Text)
    ensures SPACE in nm <==> SPACE in BaseOf(nm) || SPACE in ExtOf(nm)
  {
    NameParts(nm);
  }

  /** For a plain name of at most 11 characters, encoding and then matching is
      comparing without regard to case, on the 11 characters a lookup sees. */
  lemma EncodeThenMatch(nm: Text, attr: Byte, want: Text, junk: seq<Byte>)
    requires Encode(nm).Some? && |nm| < MAX_NAME && Plain(nm) && attr != LFN
    ensures Match(want, Encode(nm).value, attr, junk) <==> Key(want) == Key(nm)
    ensures |want| < MAX_NAME ==> (Key(want) == Key(nm) <==> Upper(want) == Upper(nm))
  {
    hide Format, Encode, Plain, Live, Upper;
    FormatPlain(nm);
    EncodedLive(nm, attr);
    assert nm[0] != GONE by { PlainFirst(nm); }
    UpperTwice(nm);
    UpperLength(nm);
    KeyOfShort(Upper(nm));
    KeyOfShort(nm);
    if |want| < MAX_NAME { KeyOfShort(want); }
  }

  lemma UpperLength(s: seq<Byte>)
    ensures |Upper(s)| == |s|
  {
  }

  lemma PlainFirst(nm: Text)
    requires Plain(nm)
    ensures nm != [] && nm[0] != GONE
  {
  }

  /** And a name of at most 11 characters finds itself exactly when it is
      plain. */
  lemma FindsItselfIffPlain(nm: Text, attr: Byte, junk: seq<Byte>)
    requires Encode(nm).Some? && |nm| < MAX_NAME && attr != LFN
    ensures Match(nm, Encode(nm).value, attr, junk) <==> Plain(nm)
  {
    hide Format, Encode, Live, Until;
    if Plain(nm) {
      EncodeThenMatch(nm, attr, nm, junk);
    } else {
      EncodedLive(nm, attr);
      EncodeNonempty(nm);
      FormatEncoded(nm);
      NameParts(nm);
      NoSpaceParts(nm);
      KeyOfShort(nm);
      var base, ext := Until(Upper(BaseOf(nm)), SPACE), Until(Upper(ExtOf(nm)), SPACE);
      var f := if ext == [] then base else base + [DOT] + ext;
      KeyOfShort(f);
      if SPACE in nm {
        NoSpaceUpper(nm);
        NoSpaceUpper(f);
        assert SPACE !in f;
      } else {
        NoSpaceUpper(BaseOf(nm));
      }
    }
  }

  lemma EncodeNonempty(nm: Text)
    requires Encode(nm).Some?
    ensures nm != []
  {
  }

  /** A name of 8 and 3 characters does not fit the buffer it is formatted into:
      whether it matches depends on what the buffer held. */
  lemma FullNameIsUnreadable(nm: Text, attr: Byte, junk: seq<Byte>)
    requires Encode(nm).Some? && |nm| == MAX_NAME && Plain(nm) && attr != LFN
    ensures Format(Encode(nm).value) == None
    ensures Match(nm, Encode(nm).value, attr, junk) <==> Key(junk) == Key(nm)
  {
    hide Encode;
    var base: Text, ext: Text := BaseText(nm), ExtText(nm);
    NameParts(nm);
    NoSpaceParts(nm);
    EncodeIs(nm);
    var n := Encode(nm).value;
    assert n[..8] == Padded(Upper(base), 8) && n[8..] == Padded(Upper(ext), 3);
    UntilPadded(Upper(base), 8);
    UntilPadded(Upper(ext), 3);
    NoSpaceUpper(base);
    NoSpaceUpper(ext);
    NoNul(base);
    NoNul(ext);
    EncodedLive(nm, attr);
  }

  lemma EncodeIs(nm: Text)
    requires Encode(nm).Some?
    ensures |BaseOf(nm)| <= 8 && |ExtOf(nm)| <= 3
    ensures Encode(nm).value == Padded(Upper(BaseOf(nm)), 8) + Padded(Upper(ExtOf(nm)), 3)
  {
  }
}

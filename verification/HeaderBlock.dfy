/** The header block the writer emits, and the proof that the reader takes out of it what went in. */
module HeaderBlock {
  import opened Bytes
  import opened Numbers
  import opened Header

  /** "ustar", two blanks and a NUL */
  const MAGIC: seq<byte> := [117, 115, 116, 97, 114, 32, 32, 0]

  /** What the writer stores. The name already carries the slash of a directory. */
  datatype Fields = Fields(
    name: seq<byte>,
    mode: nat,
    uid: nat,
    gid: nat,
    size: nat,
    mtime: nat,
    typeflag: byte,
    linkname: seq<byte>)

  /** The block before it is stamped: blanks where the checksum goes. */
  predicate IsPlain(b: seq<byte>, h: Fields) {
    && |b| == BLOCK
    && b[..100] == StrNCpy(h.name, 100)
    && b[100..108] == OctalField(h.mode, 8)
    && b[108..116] == OctalField(h.uid, 8)
    && b[116..124] == OctalField(h.gid, 8)
    && b[124..136] == OctalField(h.size, 12)
    && b[136..148] == OctalField(h.mtime, 12)
    && b[148..156] == Repeat(BLANK, 8)
    && b[156] == h.typeflag
    && b[157..257] == StrNCpy(h.linkname, 100)
    && b[257..265] == MAGIC
    && b[265..] == Repeat(NUL, 247)
  }

  function Plain(h: Fields): (b: seq<byte>)
    ensures |b| == BLOCK
  {
    StrNCpy(h.name, 100) + OctalField(h.mode, 8) + OctalField(h.uid, 8) + OctalField(h.gid, 8)
    + OctalField(h.size, 12) + OctalField(h.mtime, 12) + Repeat(BLANK, 8) + [h.typeflag]
    + StrNCpy(h.linkname, 100) + MAGIC + Repeat(NUL, 247)
  }

  /** The layout determines the block. */
  lemma LayoutIsPlain(b: seq<byte>, h: Fields)
    requires IsPlain(b, h)
    ensures b == Plain(h)
  {
    hide StrNCpy, OctalField;
  }

  /** The block has the layout. */
  lemma PlainHasLayout(h: Fields)
    ensures IsPlain(Plain(h), h)
  {
    hide StrNCpy, OctalField;
  }

  // ---------------------------------------------------------------- checksum

  /** `chksum_and_xwrite`: the sum over the blanked block goes into the field: seven octal places, then a blank. */
  function Stamp(p: seq<byte>): (b: seq<byte>)
    requires |p| == BLOCK
    ensures |b| == BLOCK
  {
    p[..148] + OctalField(Sum(p), 7) + [BLANK] + p[156..]
  }

  lemma {:induction false} LeadingZero(v: nat, len: nat)
    requires len >= 1 && v < Pow(8, len - 1)
    ensures OctalDigits(v, len)[0] == DIGIT0
  {
    if len > 1 {
      assert Pow(8, len - 1) == 8 * Pow(8, len - 2);
      LeadingZero(v / 8, len - 1);
    }
  }

  /** Six digits, a NUL and a blank. */
  predicate ChecksumShape(f: seq<byte>) {
    && |f| == 8
    && (forall i :: 0 <= i < 6 ==> IsDigit(f[i], 8))
    && f[6] == NUL && f[7] == BLANK
  }

  lemma SixPlaces()
    ensures Pow(8, 6) == 262144 && Pow(8, 7) == 2097152
  {
  }

  lemma SixDigits(v: nat)
    requires v < 262144
    ensures OctalField(v, 7) == OctalDigits(v, 7)[1..] + [NUL]
    ensures DigitsValue(OctalDigits(v, 7)[1..], 8) == v
  {
    hide Pow, OctalDigits, DigitsValue;
    SixPlaces();
    LeadingZero(v, 7);
    DropLeadingZero(OctalDigits(v, 7));
    OctalDigitsValue(v, 7);
    ModBelow(v, 2097152, 2097152);
  }

  lemma StampTail(p: seq<byte>, f: seq<byte>, d: seq<byte>, b: seq<byte>)
    requires |p| == BLOCK && |d| == 6 && f == d + [NUL] && b == p[..148] + f + [BLANK] + p[156..]
    ensures b[148..156] == d + [NUL, BLANK]
    ensures b[148..] == d + ([NUL, BLANK] + p[156..])
  {
  }

  lemma StampedField(p: seq<byte>)
    requires |p| == BLOCK
    ensures Sum(p) < 262144
    ensures Stamp(p)[148..156] == OctalDigits(Sum(p), 7)[1..] + [NUL, BLANK]
    ensures Stamp(p)[148..] == OctalDigits(Sum(p), 7)[1..] + ([NUL, BLANK] + p[156..])
  {
    hide Sum, OctalDigits, OctalField, DigitsValue;
    var v := Sum(p);
    SixDigits(v);
    StampTail(p, OctalField(v, 7), OctalDigits(v, 7)[1..], Stamp(p));
  }

  lemma BlanksSum()
    ensures Sum(Repeat(BLANK, 8)) == 256
  {
    var s := Repeat(BLANK, 8);
    assert s == [BLANK, BLANK, BLANK, BLANK] + [BLANK, BLANK, BLANK, BLANK];
    SumAppend([BLANK, BLANK, BLANK, BLANK], [BLANK, BLANK, BLANK, BLANK]);
    assert Sum([BLANK]) == 32;
    assert Sum([BLANK, BLANK]) == 64 by { assert [BLANK, BLANK][..1] == [BLANK]; }
    assert [BLANK, BLANK, BLANK, BLANK] == [BLANK, BLANK] + [BLANK, BLANK];
    SumAppend([BLANK, BLANK], [BLANK, BLANK]);
  }

  lemma HeaderSumOfStamp(p: seq<byte>)
    requires |p| == BLOCK && p[148..156] == Repeat(BLANK, 8)
    ensures HeaderSum(Stamp(p)) == Sum(p)
  {
    var b := Stamp(p);
    assert b[..148] == p[..148] && b[156..] == p[156..];
    assert p == p[..148] + (p[148..156] + p[156..]);
    SumAppend(p[..148], p[148..156] + p[156..]);
    SumAppend(p[148..156], p[156..]);
    BlanksSum();
  }

  /** A block whose checksum field starts with the digits of its unsigned sum and a NUL is accepted. */
  lemma AcceptedWhenStored(b: seq<byte>, d: seq<byte>, rest: seq<byte>)
    requires |b| == BLOCK && b[148..] == d + rest && |d| == 6 && rest != [] && rest[0] == NUL
    requires forall i :: 0 <= i < |d| ==> IsDigit(d[i], 8)
    requires DigitsValue(d, 8) == HeaderSum(b) < 262144
    ensures StoredSum(b) == HeaderSum(b) && ChecksumOk(b)
  {
    hide HeaderSum, HeaderSignedSum, DigitsValue, StrTo;
    StrToDigits(d, rest, 8);
    assert ByteAt(b[148..], 6) == rest[0];
  }

  lemma StampShape(b: seq<byte>, d: seq<byte>)
    requires |b| == BLOCK && |d| == 6 && b[148..156] == d + [NUL, BLANK]
    requires forall i :: 0 <= i < 6 ==> IsDigit(d[i], 8)
    ensures ChecksumShape(b[148..156])
  {
  }

  lemma StampAccepted(p: seq<byte>, b: seq<byte>)
    requires |p| == BLOCK && b == Stamp(p) && HeaderSum(b) == Sum(p)
    ensures Sum(p) < 262144
    ensures ChecksumShape(b[148..156])
    ensures StoredSum(b) == HeaderSum(b)
    ensures ChecksumOk(b)
  {
    var tail := [NUL, BLANK] + p[156..];
    hide *;
    StampedField(p);
    SixDigits(Sum(p));
    var d := OctalDigits(Sum(p), 7)[1..];
    AcceptedWhenStored(b, d, tail);
    StampShape(b, d);
  }

  /** Whatever the header holds, the stamped field has six digits and the reader accepts it. */
  lemma ChecksumAgrees(p: seq<byte>)
    requires |p| == BLOCK && p[148..156] == Repeat(BLANK, 8)
    ensures Sum(p) < Pow(8, 6)
    ensures ChecksumShape(Stamp(p)[148..156])
    ensures StoredSum(Stamp(p)) == HeaderSum(Stamp(p)) == Sum(p)
    ensures ChecksumOk(Stamp(p))
  {
    hide Stamp, Sum, ChecksumOk, StoredSum, HeaderSum, ChecksumShape;
    HeaderSumOfStamp(p);
    StampAccepted(p, Stamp(p));
    SixPlaces();
  }

  // ---------------------------------------------------------------- reading back

  /** The block on the wire. */
  function Block(h: Fields): (b: seq<byte>)
    ensures |b| == BLOCK
  {
    Stamp(Plain(h))
  }

  /** What the reader can make sense of: a real name, and values the C types of the writer can hold. */
  predicate Storable(h: Fields) {
    && h.name != [] && |h.name| <= NAME_SIZE && NoNul(h.name) && NoNul(h.linkname)
    && h.mode < 4096 && h.uid < 0x1_0000 && h.gid < 0x1_0000 && h.size < TWO31 && h.mtime < TWO32
    && ParsesNames(h.typeflag)
  }

  lemma BlockFields(h: Fields)
    ensures var b := Block(h);
            && b[..100] == StrNCpy(h.name, 100)
            && b[100..108] == OctalField(h.mode, 8) && b[108..116] == OctalField(h.uid, 8)
            && b[116..124] == OctalField(h.gid, 8) && b[124..136] == OctalField(h.size, 12)
            && b[136..148] == OctalField(h.mtime, 12)
            && b[156] == h.typeflag && b[157..257] == StrNCpy(h.linkname, 100)
            && b[257..265] == MAGIC && b[265..] == Repeat(NUL, 247)
            && b[329] == NUL && b[345] == NUL
  {
    hide StrNCpy, OctalField;
    var p, b := Plain(h), Block(h);
    PlainHasLayout(h);
    assert b[..148] == p[..148];
    assert b[156..] == p[156..];
    assert b[..100] == p[..148][..100];
    assert b[157..257] == p[156..][1..101] == p[157..257];
    assert b[156] == p[156..][0];
    assert b[257..265] == p[156..][101..109] == p[257..265];
    assert b[265..] == p[156..][109..] == p[265..];
    assert b[329] == p[156..][173] == p[265..][64];
    assert b[345] == p[156..][189] == p[265..][80];
  }

  lemma BlockNumbers(h: Fields)
    requires Storable(h)
    ensures FieldValue(OctalField(h.mode, 8)) == Some(h.mode)
    ensures FieldValue(OctalField(h.uid, 8)) == Some(h.uid)
    ensures FieldValue(OctalField(h.gid, 8)) == Some(h.gid)
    ensures FieldValue(OctalField(h.size, 12)) == Some(h.size)
    ensures FieldValue(OctalField(h.mtime, 12)) == Some(h.mtime)
  {
    hide FieldValue, OctalField;
    assert Pow(8, 8) == 16777216;
    assert Pow(8, 12) == 68719476736;
    OctalRoundTrip(h.mode, 8);
    OctalRoundTrip(h.uid, 8);
    OctalRoundTrip(h.gid, 8);
    OctalRoundTrip(h.size, 12);
    OctalRoundTrip(h.mtime, 12);
  }

  /** The part of a link name that fits its field. */
  function Cut(s: seq<byte>): seq<byte> {
    if |s| > NAME_SIZE then s[..NAME_SIZE] else s
  }

  lemma CutReadsBack(s: seq<byte>)
    requires NoNul(s)
    ensures CStr(StrNCpy(s, NAME_SIZE)) == Cut(s)
    ensures StrNCpy(s, NAME_SIZE)[0] != NUL <==> s != []
  {
    if |s| <= NAME_SIZE {
      StrNCpyReadsBack(s, NAME_SIZE);
    } else {
      CStrIs(s[..NAME_SIZE], s[..NAME_SIZE]);
    }
  }

  lemma BlockDecodes(h: Fields)
    requires Storable(h)
    ensures PureDecode(Block(h)) == Some(Decoded(None, if h.linkname == [] then None else Some(Cut(h.linkname)),
                                                 h.mtime, h.size, h.gid, h.uid, h.mode, Some(h.name)))
  {
    hide FieldValue, OctalField, Block, StrNCpy, CStr;
    BlockFields(h);
    BlockNumbers(h);
    CutReadsBack(h.name);
    CutReadsBack(h.linkname);
    var b := Block(h);
    assert b[157] == b[157..257][0];
  }

  /** The reader gets back every field of a header the writer emitted. */
  lemma HeaderRoundTrip(h: Fields)
    requires Storable(h)
    ensures Classify(Block(h)) == Dispatch(h.typeflag, Decoded(
      None, if h.linkname == [] then None else Some(Cut(h.linkname)),
      h.mtime, h.size, h.gid, h.uid, h.mode, Some(h.name)))
  {
    hide FieldValue, OctalField, ChecksumOk, Plain, Stamp, StrNCpy, CStr, Dispatch, PureDecode;
    var b, p := Block(h), Plain(h);
    PlainHasLayout(h);
    ChecksumAgrees(p);
    BlockFields(h);
    BlockDecodes(h);
    CutReadsBack(h.name);
    assert b[0] == b[..100][0];
  }
}

/**
 * Headers as any program may write them: what the reader makes of a block with a given layout, and of extension headers
 * in front of an archive. Layout and type flags are given in plain numbers here.
 */
module OtherWriters {
  import opened Bytes
  import opened Numbers
  import opened Names
  import opened Header
  import opened HeaderBlock
  import opened Writer
  import opened Archive
  import opened Pax
  import opened Reader
  import opened ReaderLaws
  import opened RoundTrip

  // ---------------------------------------------------------------- numeric fields

  predicate AllSpace(s: seq<byte>) {
    forall i :: 0 <= i < |s| ==> s[i] == 32 || 9 <= s[i] <= 13
  }

  predicate AllOctal(s: seq<byte>) {
    forall i :: 0 <= i < |s| ==> 48 <= s[i] <= 55
  }

  lemma OctalIsDigits(s: seq<byte>)
    requires AllOctal(s)
    ensures forall i :: 0 <= i < |s| ==> IsDigit(s[i], 8)
  {
  }

  /** White space, octal digits, and behind them a NUL, a blank, or the end. */
  predicate IsOctalText(f: seq<byte>, lead: seq<byte>, digits: seq<byte>, tail: seq<byte>) {
    && f == lead + digits + tail
    && AllSpace(lead) && AllOctal(digits) && digits != []
    && (tail == [] || tail[0] == 0 || tail[0] == 32)
  }

  ghost predicate ShowsOctal(f: seq<byte>, v: nat) {
    exists lead, digits, tail ::
      IsOctalText(f, lead, digits, tail) && (OctalIsDigits(digits); DigitsValue(digits, 8) == v)
  }

  lemma ByteBehind(a: seq<byte>, tail: seq<byte>, f: seq<byte>)
    requires f == a + tail
    ensures ByteAt(f, |a|) == if tail == [] then 0 else tail[0]
  {
  }

  lemma NoDigit(tail: seq<byte>)
    requires tail == [] || tail[0] == 0 || tail[0] == 32
    ensures tail == [] || !IsDigit(tail[0], 8)
  {
  }

  lemma OctalTextParts(f: seq<byte>, lead: seq<byte>, digits: seq<byte>, tail: seq<byte>)
    requires IsOctalText(f, lead, digits, tail)
    ensures f == lead + digits + tail && digits != []
    ensures forall i :: 0 <= i < |lead| ==> lead[i] == 32 || 9 <= lead[i] <= 13
    ensures forall i :: 0 <= i < |digits| ==> IsDigit(digits[i], 8)
    ensures tail == [] || !IsDigit(tail[0], 8)
  {
  }

  /** The number the text shows, signs and saturation included. */
  lemma OctalTextIsRead(f: seq<byte>, lead: seq<byte>, digits: seq<byte>, tail: seq<byte>)
    requires IsOctalText(f, lead, digits, tail)
    ensures forall i :: 0 <= i < |digits| ==> IsDigit(digits[i], 8)
    ensures StrTo(f, 8) == Number(DigitsValue(digits, 8), false, |lead| + |digits|)
  {
    hide *;
    OctalTextParts(f, lead, digits, tail);
    StrToUnsigned(lead, digits, tail, 8);
  }

  lemma OctalTextEnds(f: seq<byte>, lead: seq<byte>, digits: seq<byte>, tail: seq<byte>)
    requires IsOctalText(f, lead, digits, tail)
    ensures ByteAt(f, |lead| + |digits|) == 0 || ByteAt(f, |lead| + |digits|) == 32
  {
    hide AllSpace, AllOctal, ByteAt;
    ByteBehind(lead + digits, tail, f);
  }

  /** A field may end in a blank as well as in a NUL, or not end at all. */
  lemma OctalFieldIsRead(f: seq<byte>, v: nat)
    requires ShowsOctal(f, v) && v < TWO64
    ensures f != [] && FieldValue(f) == Some(v)
  {
    hide StrTo, DigitsValue;
    var lead, digits, tail :| IsOctalText(f, lead, digits, tail)
      && (OctalIsDigits(digits); DigitsValue(digits, 8) == v);
    OctalTextIsRead(f, lead, digits, tail);
    OctalTextEnds(f, lead, digits, tail);
  }

  /** A sign is taken, too: "-123" is read as the number that is 123 short of 2^64. */
  lemma NegativeTextIsRead(lead: seq<byte>, digits: seq<byte>, tail: seq<byte>)
    requires AllSpace(lead) && AllOctal(digits) && digits != []
    requires tail == [] || tail[0] == 0 || tail[0] == 32
    requires forall i :: 0 <= i < |digits| ==> IsDigit(digits[i], 8)
    requires 0 < DigitsValue(digits, 8) < TWO64
    ensures FieldValue(lead + [45] + digits + tail) == Some(TWO64 - DigitsValue(digits, 8))
  {
    hide StrTo, DigitsValue, ByteAt, IsDigit;
    NoDigit(tail);
    StrToText(lead, [45], digits, tail, 8);
    ByteBehind(lead + [45] + digits, tail, lead + [45] + digits + tail);
  }

  /** A field that starts with a blank and holds no number is read as zero. */
  lemma BlankFieldIsZero(lead: seq<byte>, rest: seq<byte>)
    requires AllSpace(lead) && lead != [] && lead[0] == 32
    requires rest == [] || (!AllSpace([rest[0]]) && rest[0] != 43 && rest[0] != 45 && !AllOctal([rest[0]]))
    ensures FieldValue(lead + rest) == Some(0)
  {
    hide StrTo;
    assert rest != [] ==> [rest[0]][0] == rest[0];
    StrToNothing(lead, rest, 8);
  }

  /** Digits that are followed by something that is neither a digit nor a terminator. */
  predicate StopsAtLetter(f: seq<byte>, lead: seq<byte>, digits: seq<byte>, tail: seq<byte>) {
    && f == lead + digits + tail && AllSpace(lead) && AllOctal(digits) && digits != []
    && tail != [] && tail[0] != 0 && tail[0] != 32 && !AllOctal([tail[0]])
  }

  /** The field holds something else than a number, and no base-256 number either. */
  ghost predicate IsGarbled(f: seq<byte>) {
    && f != [] && f[0] < 128
    && (|| (f[0] != 0 && !AllSpace([f[0]]) && f[0] != 43 && f[0] != 45 && !AllOctal([f[0]]))
        || exists lead, digits, tail :: StopsAtLetter(f, lead, digits, tail))
  }

  lemma LetterStops(f: seq<byte>, lead: seq<byte>, digits: seq<byte>, tail: seq<byte>)
    requires StopsAtLetter(f, lead, digits, tail)
    ensures ByteAt(f, StrTo(f, 8).end) == tail[0]
  {
    hide StrTo, DigitsValue;
    OctalIsDigits(digits);
    assert [tail[0]][0] == tail[0];
    StrToUnsigned(lead, digits, tail, 8);
    ByteBehind(lead + digits, tail, f);
  }

  /** Such a field is refused. */
  lemma GarbledIsRefused(f: seq<byte>)
    requires IsGarbled(f)
    ensures FieldValue(f) == None
  {
    hide StrTo;
    assert [f[0]][0] == f[0];
    if f[0] != 0 && !AllSpace([f[0]]) && f[0] != 43 && f[0] != 45 && !AllOctal([f[0]]) {
      assert [] + f == f;
      StrToNothing([], f, 8);
    } else {
      var lead, digits, tail :| StopsAtLetter(f, lead, digits, tail);
      LetterStops(f, lead, digits, tail);
    }
  }

  /** The field stands for the number, in octal or in base-256. */
  ghost predicate Denotes(f: seq<byte>, v: int) {
    || (0 <= v < TWO64 && ShowsOctal(f, v))
    || (f != [] && -64 * Pow(256, |f| - 1) <= v < 64 * Pow(256, |f| - 1) && f == Base256Field(v, |f|))
  }

  lemma DenotedIsRead(f: seq<byte>, v: int)
    requires Denotes(f, v)
    ensures f != [] && FieldValue(f) == Some(v % TWO64)
  {
    hide FieldValue, ShowsOctal, Base256Field, Pow;
    if 0 <= v < TWO64 && ShowsOctal(f, v) {
      OctalFieldIsRead(f, v);
    } else {
      Base256RoundTrip(v, |f|);
    }
  }

  // ---------------------------------------------------------------- checksums

  /** The number in the checksum field, which ends inside the field. */
  predicate StoresSum(b: seq<byte>, lead: seq<byte>, digits: seq<byte>, tail: seq<byte>) {
    |b| == 512 && IsOctalText(b[148..156], lead, digits, tail) && tail != []
  }

  lemma TextGoesOn(f: seq<byte>, lead: seq<byte>, digits: seq<byte>, tail: seq<byte>, more: seq<byte>)
    requires IsOctalText(f, lead, digits, tail) && tail != []
    ensures IsOctalText(f + more, lead, digits, tail + more)
  {
    hide AllSpace, AllOctal;
  }

  lemma SumIsRead(b: seq<byte>, lead: seq<byte>, digits: seq<byte>, tail: seq<byte>)
    requires StoresSum(b, lead, digits, tail)
    ensures forall i :: 0 <= i < |digits| ==> IsDigit(digits[i], 8)
    ensures StrTo(b[148..], 8) == Number(DigitsValue(digits, 8), false, |lead| + |digits|)
    ensures ByteAt(b[148..], |lead| + |digits|) in {0, 32}
  {
    hide StrTo, DigitsValue, IsOctalText, ByteAt;
    assert b[148..] == b[148..156] + b[156..];
    TextGoesOn(b[148..156], lead, digits, tail, b[156..]);
    OctalTextIsRead(b[148..], lead, digits, tail + b[156..]);
    OctalTextEnds(b[148..], lead, digits, tail + b[156..]);
  }

  /** What `strtoul` makes of a number, as an `int`. */
  function AsInt(n: nat): int {
    if n < 0x8000_0000 then n
    else if n < 0x1_0000_0000 then n - 0x1_0000_0000
    else -1
  }

  lemma StoresIsBlock(b: seq<byte>, lead: seq<byte>, digits: seq<byte>, tail: seq<byte>)
    requires StoresSum(b, lead, digits, tail)
    ensures |b| == 512
  {
  }

  /** A checksum is accepted exactly if it is the unsigned or the signed sum of the bytes, with blanks in its place. */
  lemma AcceptedExactly(b: seq<byte>, lead: seq<byte>, digits: seq<byte>, tail: seq<byte>)
    requires StoresSum(b, lead, digits, tail)
    ensures forall i :: 0 <= i < |digits| ==> IsDigit(digits[i], 8)
    ensures var stored := AsInt(DigitsValue(digits, 8));
            ChecksumOk(b) <==> stored == Sum(Blanked(b)) || stored == SignedSum(Blanked(b))
  {
    hide StrTo, DigitsValue, StoresSum, Sum, SignedSum, Blanked, HeaderSum, HeaderSignedSum;
    SumIsRead(b, lead, digits, tail);
    StoresIsBlock(b, lead, digits, tail);
    BlankedSums(b);
  }

  predicate SealedBy(b: seq<byte>, digits: seq<byte>)
    requires |b| == 512
  {
    && AllOctal(digits)
    && (OctalIsDigits(digits);
        AsInt(DigitsValue(digits, 8)) == Sum(Blanked(b)) || AsInt(DigitsValue(digits, 8)) == SignedSum(Blanked(b)))
  }

  /** The block is sound: a number that ends inside its field is one of the two sums. */
  ghost predicate Sealed(b: seq<byte>) {
    exists lead, digits, tail :: StoresSum(b, lead, digits, tail) && SealedBy(b, digits)
  }

  lemma SealedIsOk(b: seq<byte>)
    requires Sealed(b)
    ensures |b| == 512 && ChecksumOk(b)
  {
    hide Sum, SignedSum, Blanked, DigitsValue, ChecksumOk, IsOctalText;
    var lead, digits, tail :| StoresSum(b, lead, digits, tail) && SealedBy(b, digits);
    StoresIsBlock(b, lead, digits, tail);
    AcceptedExactly(b, lead, digits, tail);
  }

  /** Nothing else gets past the checksum: a block that does stores one of the two sums. */
  lemma OnlySumsAreAccepted(b: seq<byte>)
    requires |b| == 512 && Classify(b) != Empty && Classify(b) != Bad(BadChecksum)
    ensures StoredSum(b) == Sum(Blanked(b)) || StoredSum(b) == SignedSum(Blanked(b))
  {
    hide Sum, SignedSum, Blanked, StoredSum, HeaderSum, HeaderSignedSum, PureDecode, Dispatch;
    BlankedSums(b);
  }

  /** The number of bytes that count as negative in the signed sum. */
  function HighBytes(s: seq<byte>): nat {
    if s == [] then 0 else HighBytes(s[..|s| - 1]) + if s[|s| - 1] >= 128 then 1 else 0
  }

  lemma {:induction false} SumsDiffer(s: seq<byte>)
    ensures SignedSum(s) == Sum(s) - 256 * HighBytes(s)
  {
    if s != [] {
      SumsDiffer(s[..|s| - 1]);
    }
  }

  lemma {:induction false} OneByteChanges(s: seq<byte>, i: nat, x: byte)
    requires i < |s|
    ensures Sum(s[i := x]) == Sum(s) + x - s[i]
  {
    var t := s[i := x];
    if i == |s| - 1 {
      assert t[..|t| - 1] == s[..|s| - 1];
    } else {
      assert t[..|t| - 1] == s[..|s| - 1][i := x];
      OneByteChanges(s[..|s| - 1], i, x);
    }
  }

  lemma BlankedUpdate(b: seq<byte>, i: nat, x: byte)
    requires |b| == 512 && i < 512 && !(148 <= i < 156)
    ensures Blanked(b[i := x]) == Blanked(b)[i := x] && Blanked(b)[i] == b[i]
    ensures b[i := x][148..156] == b[148..156]
  {
  }

  lemma SumIsSmall(s: seq<byte>)
    requires |s| <= 512
    ensures Sum(s) < 0x8000_0000
  {
  }

  /**
   * In a block that stores its unsigned sum no single byte outside the checksum can change without being noticed:
   * neither sum is right any more.
   */
  lemma CorruptionIsNoticed(b: seq<byte>, i: nat, x: byte, lead: seq<byte>, digits: seq<byte>, tail: seq<byte>)
    requires StoresSum(b, lead, digits, tail) && AllOctal(digits)
    requires forall j :: 0 <= j < |digits| ==> IsDigit(digits[j], 8)
    requires DigitsValue(digits, 8) == Sum(Blanked(b))
    requires i < 512 && !(148 <= i < 156) && x != b[i]
    ensures !ChecksumOk(b[i := x])
    ensures Classify(b[i := x]) == if b[i := x][0] == 0 && b[i := x][345] == 0 then Empty else Bad(BadChecksum)
  {
    hide Sum, SignedSum, DigitsValue, ChecksumOk, Blanked, IsOctalText, HighBytes, PureDecode;
    var c := b[i := x];
    BlankedUpdate(b, i, x);
    OneByteChanges(Blanked(b), i, x);
    SumsDiffer(Blanked(c));
    SumIsSmall(Blanked(b));
    AcceptedExactly(c, lead, digits, tail);
  }

  /** Every header this program writes stores its unsigned sum that way. */
  lemma StampStoresSum(p: seq<byte>)
    requires |p| == 512 && p[148..156] == Repeat(BLANK, 8)
    ensures var b, digits := Stamp(p), OctalDigits(Sum(p), 7)[1..];
            && StoresSum(b, [], digits, [0, 32]) && AllOctal(digits)
            && DigitsValue(digits, 8) == Sum(Blanked(b))
  {
    hide Stamp, OctalField, DigitsValue, Sum, Blanked, OctalDigits;
    StampedField(p);
    SixDigits(Sum(p));
    HeaderSumOfStamp(p);
    BlankedSums(Stamp(p));
    var digits := OctalDigits(Sum(p), 7)[1..];
    assert forall i :: 0 <= i < 7 ==> IsDigit(OctalDigits(Sum(p), 7)[i], 8);
    assert [] + digits + [0, 32] == digits + [NUL, BLANK];
  }

  lemma PlainIsBlanked(h: Fields)
    ensures Plain(h)[148..156] == Repeat(BLANK, 8)
  {
    hide Plain;
    PlainHasLayout(h);
  }

  /** So a written header in which one byte outside the checksum has changed is refused, unless it looks empty. */
  lemma WrittenHeaderIsProtected(h: Fields, i: nat, x: byte)
    requires i < 512 && !(148 <= i < 156) && x != Block(h)[i]
    ensures var c := Block(h)[i := x];
            Classify(c) == if c[0] == 0 && c[345] == 0 then Empty else Bad(BadChecksum)
  {
    hide Plain, Stamp, Sum, DigitsValue, Blanked, OctalDigits, StoresSum, IsPlain, Classify, ChecksumOk;
    PlainIsBlanked(h);
    StampStoresSum(Plain(h));
    CorruptionIsNoticed(Block(h), i, x, [], OctalDigits(Sum(Plain(h)), 7)[1..], [0, 32]);
  }

  lemma EightNulsAreZero(b: seq<byte>)
    requires |b| == 512 && forall i :: 148 <= i < 156 ==> b[i] == 0
    ensures StoredSum(b) == 0
  {
    hide DigitsValue;
    assert [] + b[148..] == b[148..];
    StrToNothing([], b[148..], 8);
  }

  lemma SumAtLeast(b: seq<byte>)
    requires |b| == 512
    ensures HeaderSum(b) >= 256
  {
    hide Sum;
  }

  lemma EmptyEnds(b: seq<byte>)
    requires |b| == 512 && forall i :: 148 <= i < 156 ==> b[i] == 0
    ensures ByteAt(b[148..], StrTo(b[148..], 8).end) == 0
  {
    hide DigitsValue;
    assert [] + b[148..] == b[148..];
    StrToNothing([], b[148..], 8);
  }

  /** An empty checksum field is accepted only if the signed bytes happen to add up to nothing. */
  lemma EmptyChecksumIsRefused(b: seq<byte>)
    requires |b| == 512 && forall i :: 148 <= i < 156 ==> b[i] == 0
    ensures ChecksumOk(b) <==> SignedSum(Blanked(b)) == 0
  {
    hide Sum, SignedSum, DigitsValue, StrTo, Blanked, HeaderSum, HeaderSignedSum;
    EightNulsAreZero(b);
    BlankedSums(b);
    SumAtLeast(b);
    EmptyEnds(b);
  }

  // ---------------------------------------------------------------- members

  /** The field of n bytes at an index holds the text, with a NUL behind it if there is room. */
  predicate TextAt(b: seq<byte>, at: nat, n: nat, s: seq<byte>) {
    && at + n <= |b| && |s| <= n && NoNul(s)
    && b[at..at + |s|] == s
    && (|s| < n ==> b[at + |s|] == 0)
  }

  lemma TextIsRead(b: seq<byte>, at: nat, n: nat, s: seq<byte>)
    requires TextAt(b, at, n, s) && n > 0
    ensures CStr(b[at..at + n]) == s && (b[at] == 0 <==> s == [])
  {
    assert b[at..at + n][..|s|] == s;
    CStrIs(b[at..at + n], s);
    assert s != [] ==> b[at] == s[0];
  }

  /** The numbers of a header, and its two names and link name. */
  datatype Layout = Layout(
    prefix: seq<byte>,
    name: seq<byte>,
    link: seq<byte>,
    mode: int,
    uid: int,
    gid: int,
    size: int,
    mtime: int)

  ghost predicate NumbersAre(b: seq<byte>, l: Layout)
    requires |b| == 512
  {
    && Denotes(b[100..108], l.mode) && Denotes(b[108..116], l.uid) && Denotes(b[116..124], l.gid)
    && Denotes(b[124..136], l.size) && Denotes(b[136..148], l.mtime)
    && (b[329] != 0 ==> exists major, minor :: Denotes(b[329..337], major) && Denotes(b[337..345], minor))
  }

  predicate TextsAre(b: seq<byte>, l: Layout)
    requires |b| == 512
  {
    && TextAt(b, 345, 155, l.prefix) && TextAt(b, 0, 100, l.name) && TextAt(b, 157, 100, l.link)
    && (l.prefix != [] || l.name != [])
  }

  /** The block is sound and has the layout. */
  ghost predicate HasLayout(b: seq<byte>, l: Layout) {
    |b| == 512 && Sealed(b) && NumbersAre(b, l) && TextsAre(b, l)
  }

  /** Prefix and name are joined by a slash, none is doubled. */
  function FullName(l: Layout): seq<byte> {
    if l.prefix == [] then l.name else Concat(l.prefix, l.name)
  }

  lemma NumbersAreRead(b: seq<byte>, l: Layout)
    requires |b| == 512 && NumbersAre(b, l)
    ensures FieldValue(b[100..108]) == Some(l.mode % TWO64) && FieldValue(b[108..116]) == Some(l.uid % TWO64)
    ensures FieldValue(b[116..124]) == Some(l.gid % TWO64) && FieldValue(b[124..136]) == Some(l.size % TWO64)
    ensures FieldValue(b[136..148]) == Some(l.mtime % TWO64)
    ensures b[329] != 0 ==> FieldValue(b[329..337]).Some? && FieldValue(b[337..345]).Some?
  {
    hide Denotes, FieldValue;
    DenotedIsRead(b[100..108], l.mode);
    DenotedIsRead(b[108..116], l.uid);
    DenotedIsRead(b[116..124], l.gid);
    DenotedIsRead(b[124..136], l.size);
    DenotedIsRead(b[136..148], l.mtime);
    if b[329] != 0 {
      var major, minor :| Denotes(b[329..337], major) && Denotes(b[337..345], minor);
      DenotedIsRead(b[329..337], major);
      DenotedIsRead(b[337..345], minor);
    }
  }

  lemma WholeTurns(r: int, m: int, k: int)
    requires m > 0
    ensures (m * k + r) % m == r % m
  {
    assert r == m * (r / m) + r % m;
    assert m * k + m * (r / m) == m * (k + r / m);
    ModUnique(m * k + r, m, k + r / m, r % m);
  }

  /** Taking 64 bits first makes no difference to what is kept. */
  lemma LowBitsOf64(v: int)
    ensures v % TWO64 % 0x1_0000 == v % 0x1_0000 && v % TWO64 % 4096 == v % 4096
  {
    var q, r := v / TWO64, v % TWO64;
    WholeTurns(r, 0x1_0000, 0x1_0000_0000_0000 * q);
    WholeTurns(r, 4096, 0x10_0000_0000_0000 * q);
  }

  lemma OffTOf64(v: int)
    ensures ToOffT(v % TWO64) == ToOffT(v)
  {
    WholeTurns(v % TWO64 + TWO31, TWO32, TWO32 * (v / TWO64));
  }

  lemma LayoutTexts(b: seq<byte>, l: Layout)
    requires |b| == 512 && TextsAre(b, l)
    ensures CStr(b[345..500]) == l.prefix && CStr(b[..100]) == l.name && CStr(b[157..257]) == l.link
    ensures (b[345] == 0 <==> l.prefix == []) && (b[0] == 0 <==> l.name == []) && (b[157] == 0 <==> l.link == [])
  {
    hide CStr, TextAt;
    TextIsRead(b, 345, 155, l.prefix);
    TextIsRead(b, 0, 100, l.name);
    TextIsRead(b, 157, 100, l.link);
    assert b[0..100] == b[..100];
  }

  /** What the reader takes out of a block before it looks at its type. */
  lemma LayoutDecodes(b: seq<byte>, l: Layout)
    requires HasLayout(b, l)
    ensures PureDecode(b).Some?
    ensures var d, named := PureDecode(b).value, b[156] == 0 || 48 <= b[156] <= 55;
            && d.mode == l.mode % 4096 && d.uid == l.uid % 0x1_0000 && d.gid == l.gid % 0x1_0000
            && d.size == ToOffT(l.size) && d.mtime == ToTime(l.mtime % TWO64)
            && d.linkTarget == (if named && l.link != [] then Some(l.link) else None)
            && d.name == (if named then Some(FullName(l)) else None)
  {
    hide FieldValue, Sealed, NumbersAre, TextAt, CStr, Concat, ToOffT, ToTime;
    NumbersAreRead(b, l);
    LayoutTexts(b, l);
    LowBitsOf64(l.mode);
    LowBitsOf64(l.uid);
    LowBitsOf64(l.gid);
    OffTOf64(l.size);
  }

  lemma LayoutIsClassified(b: seq<byte>, l: Layout)
    requires HasLayout(b, l)
    ensures PureDecode(b).Some? && Classify(b) == Dispatch(TypeFlag(b), PureDecode(b).value)
  {
    hide ChecksumOk, PureDecode, Dispatch, Sealed, NumbersAre, TextAt;
    SealedIsOk(b);
    LayoutTexts(b, l);
    LayoutDecodes(b, l);
  }

  /** The type bits for a type flag, and whether a body follows. */
  function KindOf(flag: byte, slashed: bool): (nat, bool) {
    if flag == 49 then (0x8000, false)
    else if flag in {0, 48, 55} then (if slashed then (0x4000, false) else (0x8000, true))
    else if flag == 53 then (0x4000, false)
    else if flag == 51 then (0x2000, false)
    else (0, false)
  }

  /**
   * Any sound block whose type flag is NUL or one of '0' to '7' is a member: permission bits, owner, time and link
   * target are those of its fields, its type follows from the flag, only a regular file has a body, and its name is
   * what is left of prefix and name once unsafe parts and one trailing slash are cut.
   */
  lemma MemberIsRead(b: seq<byte>, l: Layout)
    requires HasLayout(b, l) && (b[156] == 0 || 48 <= b[156] <= 55)
    ensures var full, (bits, body) := FullName(l), KindOf(b[156], EndsWith(FullName(l), 47));
            Classify(b) == Entry(Member(FinalName(full), if l.link == [] then None else Some(l.link),
                                        l.mode % 4096 + bits, if body then ToOffT(l.size) else 0,
                                        l.uid % 0x1_0000, l.gid % 0x1_0000, ToTime(l.mtime % TWO64)),
                                 Strip(full))
  {
    hide PureDecode, Classify, FinalName, Strip, HasLayout, ToOffT, ToTime, FullName;
    LayoutDecodes(b, l);
    LayoutIsClassified(b, l);
  }

  /** Prefix "p" and name "n" are the member "p/n". */
  lemma PrefixComesFirst(b: seq<byte>, l: Layout)
    requires HasLayout(b, l) && (b[156] == 0 || 48 <= b[156] <= 55)
    requires l.prefix != [] && l.prefix[|l.prefix| - 1] != 47
    requires l.name != [] && l.name[0] != 47 && l.name[|l.name| - 1] != 47
    requires Safe(l.prefix + [47] + l.name)
    ensures Classify(b).Entry? && Classify(b).m.name == l.prefix + [47] + l.name
  {
    hide Classify, HasLayout, ToOffT, ToTime, Safe, StripPoint;
    MemberIsRead(b, l);
    var full := l.prefix + [47] + l.name;
    assert SkipSlashes(l.name, 0) == 0 && l.name[0..] == l.name;
    assert FullName(l) == full;
    SafeIsFixed(full);
    assert full[|full| - 1] == l.name[|l.name| - 1];
  }

  /** Slashes at the start of the name and one at the end of the prefix are not doubled. */
  lemma JoinedByOneSlash(p: seq<byte>, slashes: seq<byte>, n: seq<byte>)
    requires (forall i :: 0 <= i < |slashes| ==> slashes[i] == 47) && (n == [] || n[0] != 47)
    requires p == [] || p[|p| - 1] != 47
    ensures Concat(p, slashes + n) == p + [47] + n
    ensures Concat(p + [47], slashes + n) == p + [47] + n
  {
    var s := slashes + n;
    var k := SkipSlashes(s, 0);
    assert k == |slashes| by {
      assert forall i :: 0 <= i < |slashes| ==> s[i] == 47;
      assert n != [] ==> s[|slashes|] == n[0];
      assert k < |s| ==> s[k] != 47;
    }
    assert s[k..] == n;
    assert p + [47] + [] + n == p + [47] + n;
  }

  /** Any other type flag but those of extension headers is fatal. */
  lemma UnknownTypeIsFatal(b: seq<byte>, l: Layout)
    requires HasLayout(b, l) && b[156] != 0 && !(48 <= b[156] <= 55) && b[156] != 103 && b[156] != 120
    ensures Classify(b) == Bad(UnknownType)
  {
    hide PureDecode, Classify, FinalName, Strip, HasLayout, ToOffT, ToTime, FullName;
    LayoutDecodes(b, l);
    LayoutIsClassified(b, l);
  }

  lemma GarbledIsNotEmpty()
    ensures forall f :: IsGarbled(f) ==> f != []
  {
  }

  /** A numeric field that does not hold a number is fatal. */
  lemma GarbledNumberIsFatal(b: seq<byte>)
    requires |b| == 512 && Sealed(b) && (b[0] != 0 || b[345] != 0)
    requires || IsGarbled(b[100..108]) || IsGarbled(b[108..116]) || IsGarbled(b[116..124])
             || IsGarbled(b[124..136]) || IsGarbled(b[136..148])
             || (b[329] != 0 && (IsGarbled(b[329..337]) || IsGarbled(b[337..345])))
    ensures Classify(b) == Bad(CorruptOctal)
  {
    hide FieldValue, Sealed, IsGarbled, ChecksumOk, CStr, Concat;
    SealedIsOk(b);
    assert forall f :: IsGarbled(f) ==> f != [] by { GarbledIsNotEmpty(); }
    forall f | f != [] && IsGarbled(f) ensures FieldValue(f) == None {
      GarbledIsRefused(f);
    }
  }

  /** The device numbers 8 and 1 make the device 0x801; a block without them leaves the device as it was. */
  lemma DeviceIsMade(b: seq<byte>)
    requires |b| == 512 && PureDecode(b).Some?
    ensures MakeDev(8, 1) == 0x801
    ensures b[329] == 0 ==> PureDecode(b).value.device == None
    ensures b[329] != 0 && Denotes(b[329..337], 8) && Denotes(b[337..345], 1) ==>
              PureDecode(b).value.device == Some(0x801)
  {
    hide FieldValue, CStr, Concat, Denotes;
    if b[329] != 0 && Denotes(b[329..337], 8) && Denotes(b[337..345], 1) {
      DenotedIsRead(b[329..337], 8);
      DenotedIsRead(b[337..345], 1);
    }
  }

  // ---------------------------------------------------------------- extension headers

  /** How the size of an extension header is taken: small ones are walked, others only passed over. */
  lemma ExtensionIsClassified(b: seq<byte>, l: Layout)
    requires HasLayout(b, l) && b[156] in {103, 120}
    ensures var n := ToOffT(l.size) % TWO32;
            Classify(b) == if n <= 0xfffff then PaxHeader(n) else SkippedHeader(ToOffT(l.size))
  {
    hide PureDecode, Classify, FinalName, Strip, HasLayout, ToTime, FullName, ToOffT;
    LayoutDecodes(b, l);
    LayoutIsClassified(b, l);
  }

  /** The least whole number of blocks that holds n bytes. */
  predicate Fills(n: nat, m: nat) {
    m % 512 == 0 && n <= m < n + 512
  }

  lemma SameBlocks(a: int, b: int)
    requires a % 512 == 0 && b % 512 == 0 && -512 < a - b < 512
    ensures a == b
  {
    var x, y := a / 512, b / 512;
    assert a == 512 * x && b == 512 * y;
  }

  lemma RoundUpFills(n: nat, m: nat)
    requires Fills(n, m)
    ensures RoundUp(n) == m
  {
    RoundUpIsBlocks(n);
    RoundUpBounds(n);
    SameBlocks(RoundUp(n), m);
  }

  /**
   * An extension header of up to 0xfffff bytes, with a payload whose walk stays inside: header, payload and padding are
   * passed over, nothing is handed on, and the next header is looked for right behind.
   */
  lemma ExtensionIsPassedOver(data: seq<byte>, st: State, b: seq<byte>, l: Layout, payload: seq<byte>, m: nat)
    requires HasLayout(b, l) && b[156] in {103, 120}
    requires 0 <= l.size == |payload| <= 0xfffff && Fills(|payload|, m) && Walk(payload) != Outside
    requires var p := Aligned(st).pos;
             && p + 512 + m <= |data| && data[p..p + 512] == b && data[p + 512..p + 512 + |payload|] == payload
    ensures var a := Aligned(st);
            && TurnOf(data, st, AcceptAll, true)
               == Next(State(a.pos + 512 + m, a.offset + 512 + m, false), true, [], 0, false)
            && Run(data, st) == Run(data, State(a.pos + 512 + m, a.offset + 512 + m, false))
  {
    hide Classify, Walk, Aligned, HasLayout, RoundUp, Run;
    ExtensionIsClassified(b, l);
    RoundUpFills(|payload|, m);
    var a := Aligned(st);
    assert TurnOf(data, st, AcceptAll, true)
           == Next(State(a.pos + 512 + m, a.offset + 512 + m, false), true, [], 0, false);
    RunByTurns(data, st);
    var next := State(a.pos + 512 + m, a.offset + 512 + m, false);
    assert [] + Run(data, next).out == Run(data, next).out;
  }

  /** A larger one is passed over as well, whatever it holds. */
  lemma LargeExtensionIsPassedOver(data: seq<byte>, st: State, b: seq<byte>, l: Layout, m: nat)
    requires HasLayout(b, l) && b[156] in {103, 120}
    requires 0xfffff < l.size < 0x8000_0000 && Fills(l.size, m)
    requires var p := Aligned(st).pos; p + 512 + m <= |data| && data[p..p + 512] == b
    ensures var a := Aligned(st);
            && TurnOf(data, st, AcceptAll, true)
               == Next(State(a.pos + 512 + m, a.offset + 512 + m, false), true, [], 0, false)
            && Run(data, st) == Run(data, State(a.pos + 512 + m, a.offset + 512 + m, false))
  {
    hide Classify, Walk, Aligned, HasLayout, RoundUp, Run;
    ExtensionIsClassified(b, l);
    RoundUpFills(l.size, m);
    var a := Aligned(st);
    assert TurnOf(data, st, AcceptAll, true)
           == Next(State(a.pos + 512 + m, a.offset + 512 + m, false), true, [], 0, false);
    RunByTurns(data, st);
    var next := State(a.pos + 512 + m, a.offset + 512 + m, false);
    assert [] + Run(data, next).out == Run(data, next).out;
  }

  /** One with a negative size runs into the end of the stream. */
  lemma NegativeExtensionIsFatal(data: seq<byte>, st: State, b: seq<byte>, l: Layout)
    requires HasLayout(b, l) && b[156] in {103, 120} && ToOffT(l.size) <= -512
    requires var p := Aligned(st).pos; p + 512 <= |data| && data[p..p + 512] == b
    ensures Run(data, st) == RunResult([], Broken(ShortRead))
  {
    hide Classify, Walk, Aligned, HasLayout, RoundUp, Run, ToOffT;
    ExtensionIsClassified(b, l);
    RoundUpBounds(ToOffT(l.size));
    assert TurnOf(data, st, AcceptAll, true) == Stuck(ShortRead, []);
    RunByTurns(data, st);
  }

  /** A size of no more than a block below zero counts as nothing. */
  lemma SmallNegativeExtension(data: seq<byte>, st: State, b: seq<byte>, l: Layout)
    requires HasLayout(b, l) && b[156] in {103, 120} && -512 < ToOffT(l.size) < 0
    requires var p := Aligned(st).pos; p + 512 <= |data| && data[p..p + 512] == b
    ensures var a := Aligned(st);
            TurnOf(data, st, AcceptAll, true) == Next(State(a.pos + 512, a.offset + 512, false), true, [], 0, false)
  {
    hide Classify, Walk, Aligned, HasLayout, ToOffT;
    ExtensionIsClassified(b, l);
  }

  /** A payload that is too short for its header is fatal. */
  lemma ShortExtensionIsFatal(data: seq<byte>, st: State, b: seq<byte>, l: Layout, m: nat)
    requires HasLayout(b, l) && b[156] in {103, 120} && 0 <= l.size < 0x8000_0000 && Fills(l.size, m)
    requires var p := Aligned(st).pos; p + 512 <= |data| < p + 512 + m && data[p..p + 512] == b
    ensures Run(data, st) == RunResult([], Broken(ShortRead))
  {
    hide Classify, Walk, Aligned, HasLayout, RoundUp, Run;
    ExtensionIsClassified(b, l);
    RoundUpFills(l.size, m);
    assert TurnOf(data, st, AcceptAll, true) == Stuck(ShortRead, []);
    RunByTurns(data, st);
  }

  ghost predicate Extends(x: seq<byte>, b: seq<byte>, l: Layout, payload: seq<byte>, pad: seq<byte>) {
    && x == b + payload + pad
    && HasLayout(b, l) && b[156] in {103, 120}
    && 0 <= l.size == |payload| <= 0xfffff && Walk(payload) != Outside && Fills(|payload|, |payload| + |pad|)
  }

  /** An extension header with its payload and padding. */
  ghost predicate IsExtension(x: seq<byte>) {
    exists b, l: Layout, payload, pad :: Extends(x, b, l, payload, pad)
  }

  lemma ExtensionParts(x: seq<byte>, b: seq<byte>, l: Layout, payload: seq<byte>, pad: seq<byte>, rest: seq<byte>)
    requires Extends(x, b, l, payload, pad)
    ensures var data, m := x + rest, |payload| + |pad|;
            && |b| == 512 && |x| == 512 + m && |x| % 512 == 0
            && HasLayout(b, l) && b[156] in {103, 120}
            && 0 <= l.size == |payload| <= 0xfffff && Walk(payload) != Outside && Fills(|payload|, m)
            && data[0..512] == b && data[512..512 + |payload|] == payload
  {
    hide Walk, Sealed, NumbersAre, TextsAre;
  }

  lemma FirstExtension(x: seq<byte>, b: seq<byte>, l: Layout, payload: seq<byte>, pad: seq<byte>, rest: seq<byte>)
    requires Extends(x, b, l, payload, pad)
    ensures Run(x + rest, START) == Run(x + rest, State(|x|, |x|, false))
  {
    hide *;
    ExtensionParts(x, b, l, payload, pad, rest);
    StartIsAligned();
    ExtensionIsPassedOver(x + rest, START, b, l, payload, |payload| + |pad|);
  }

  /** In front of any stream it makes no difference. */
  lemma ExtensionInFront(x: seq<byte>, rest: seq<byte>)
    requires IsExtension(x)
    ensures Run(x + rest, START) == Run(rest, START)
  {
    hide Walk, HasLayout, Run, Aligned, Extends;
    var b, l: Layout, payload, pad :| Extends(x, b, l, payload, pad);
    ExtensionParts(x, b, l, payload, pad, rest);
    FirstExtension(x, b, l, payload, pad, rest);
    RunMovesAlong(x, rest, START);
    assert Moved(START, |x|) == State(|x|, |x|, false);
  }

  lemma PortableIsSound(job: Job)
    requires AllPortable(job)
    ensures Sound(job)
  {
  }

  /**
   * Any number of extension headers in front of an archive this program has written: exactly what was archived is
   * handed on, and the run ends normally.
   */
  lemma {:induction false} ArchiveBehindExtensions(xs: seq<seq<byte>>, job: Job)
    requires AllPortable(job) && forall i :: 0 <= i < |xs| ==> IsExtension(xs[i])
    ensures Run(Flatten(xs) + job.Archive(), START) == RunResult(ExpectedFrom(job, 0), Finished)
  {
    hide Run, IsExtension, AllPortable, Job.Archive, ExpectedFrom;
    if xs == [] {
      assert [] + job.Archive() == job.Archive();
      PortableIsSound(job);
      ArchiveRoundTrip(job);
    } else {
      ArchiveBehindExtensions(xs[1..], job);
      ExtensionInFront(xs[0], Flatten(xs[1..]) + job.Archive());
      assert xs[0] + Flatten(xs[1..]) + job.Archive() == xs[0] + (Flatten(xs[1..]) + job.Archive());
    }
  }
}

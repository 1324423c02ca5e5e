/** The 512-byte ustar header block: layout, checksum, and what the reader makes of it. */
module Header {
  import opened Bytes
  import opened Numbers
  import opened Masks
  import Names

  const BLOCK: nat := 512
  const NAME_SIZE: nat := 100

  const S_IFREG: nat := 0x8000
  const S_IFDIR: nat := 0x4000
  const S_IFCHR: nat := 0x2000
  const S_IFIFO: nat := 0x1000

  const REGTYPE: byte := 48
  const LNKTYPE: byte := 49
  const CHRTYPE: byte := 51
  const DIRTYPE: byte := 53
  const FIFOTYPE: byte := 54
  const CONTTYPE: byte := 55
  const PAX_GLOBAL: byte := 103
  const PAX_NEXT: byte := 120

  /** The file-type bits of a mode. */
  function Format(mode: nat): nat {
    mode / 4096 % 16 * 4096
  }

  /** `& 07777` and `& S_IFMT` are this arithmetic. */
  lemma ModeMask(mode: nat)
    ensures BitAnd(mode, 0xFFF) == mode % 4096
    ensures BitAnd(mode, 0xF000) == Format(mode)
  {
    hide BitAnd, Pow, ShiftLeft, ShiftRight;
    PowersOfTwo();
    LowMask(mode, 12);
    LowMask(mode / 4096, 4);
    ShiftedMask(mode, 15, 12);
    ShiftTwelve(15);
    ShiftTwelve(mode);
    ShiftTwelve(mode / 4096 % 16);
  }

  // ---------------------------------------------------------------- checksum

  function Sum(s: seq<byte>): (n: nat)
    ensures n <= 255 * |s|
  {
    if s == [] then 0 else Sum(s[..|s| - 1]) + s[|s| - 1]
  }

  function Signed(b: byte): int {
    if b >= 128 then b - 256 else b
  }

  function SignedSum(s: seq<byte>): int {
    if s == [] then 0 else SignedSum(s[..|s| - 1]) + Signed(s[|s| - 1])
  }

  lemma {:induction false} SumAppend(a: seq<byte>, b: seq<byte>)
    ensures Sum(a + b) == Sum(a) + Sum(b)
  {
    if b == [] {
      assert a + b == a;
    } else {
      SumAppend(a, b[..|b| - 1]);
      assert (a + b)[..|a + b| - 1] == a + b[..|b| - 1];
    }
  }

  /** The sum the standard asks for: the checksum field counts as eight blanks. */
  function HeaderSum(b: seq<byte>): (n: nat)
    requires |b| == BLOCK
  {
    256 + Sum(b[..148]) + Sum(b[156..])
  }

  function HeaderSignedSum(b: seq<byte>): int
    requires |b| == BLOCK
  {
    256 + SignedSum(b[..148]) + SignedSum(b[156..])
  }

  lemma {:induction false} SignedSumAppend(a: seq<byte>, b: seq<byte>)
    ensures SignedSum(a + b) == SignedSum(a) + SignedSum(b)
  {
    if b == [] {
      assert a + b == a;
    } else {
      SignedSumAppend(a, b[..|b| - 1]);
      assert (a + b)[..|a + b| - 1] == a + b[..|b| - 1];
    }
  }

  /** The block with eight blanks where the checksum is. */
  function Blanked(b: seq<byte>): (r: seq<byte>)
    requires |b| == BLOCK
    ensures |r| == BLOCK
  {
    b[..148] + [32, 32, 32, 32, 32, 32, 32, 32] + b[156..]
  }

  lemma EightBlanks()
    ensures Sum([32, 32, 32, 32, 32, 32, 32, 32]) == SignedSum([32, 32, 32, 32, 32, 32, 32, 32]) == 256
  {
    var two: seq<byte> := [32, 32];
    assert two[..1] == [32] && Sum([32]) == SignedSum([32]) == 32;
    SumAppend(two, two);
    SignedSumAppend(two, two);
    SumAppend(two + two, two + two);
    SignedSumAppend(two + two, two + two);
    assert (two + two) + (two + two) == [32, 32, 32, 32, 32, 32, 32, 32];
  }

  /** The two loops around the field sum up the blanked block. */
  lemma BlankedSums(b: seq<byte>)
    requires |b| == BLOCK
    ensures HeaderSum(b) == Sum(Blanked(b)) && HeaderSignedSum(b) == SignedSum(Blanked(b))
  {
    hide Sum, SignedSum;
    var blanks: seq<byte> := [32, 32, 32, 32, 32, 32, 32, 32];
    EightBlanks();
    SumAppend(b[..148], blanks);
    SumAppend(b[..148] + blanks, b[156..]);
    SignedSumAppend(b[..148], blanks);
    SignedSumAppend(b[..148] + blanks, b[156..]);
  }

  /** The number `strtoul` finds at the checksum field, as an `int`; it does not stop at the end of the field. */
  function StoredSum(b: seq<byte>): int
    requires |b| == BLOCK
  {
    ToOffT(Unsigned(StrTo(b[148..], 8), TWO32))
  }

  predicate ChecksumOk(b: seq<byte>)
    requires |b| == BLOCK
  {
    var end := ByteAt(b[148..], StrTo(b[148..], 8).end);
    && (end == NUL || end == BLANK)
    && (HeaderSum(b) == StoredSum(b) || HeaderSignedSum(b) == StoredSum(b))
  }

  /** The reader's checksum test: both sums in two loops around the field. */
  method VerifyChecksum(tar: array<byte>) returns (ok: bool)
    requires tar.Length == BLOCK
    ensures ok == ChecksumOk(tar[..])
    ensures ok ==> StoredSum(tar[..]) == Sum(Blanked(tar[..])) || StoredSum(tar[..]) == SignedSum(Blanked(tar[..]))
  {
    ghost var b := tar[..];
    var sumS, sumU := 8 * BLANK, 8 * BLANK;
    var i := 0;
    while i < 148
      invariant 0 <= i <= 148
      invariant sumU == 256 + Sum(b[..i]) && sumS == 256 + SignedSum(b[..i])
    {
      assert b[..i + 1][..i] == b[..i];
      sumU := sumU + tar[i];
      sumS := sumS + Signed(tar[i]);
      i := i + 1;
    }
    i := 156;
    assert b[156..][..0] == [];
    while i < 512
      invariant 156 <= i <= 512
      invariant sumU == 256 + Sum(b[..148]) + Sum(b[156..][..i - 156])
      invariant sumS == 256 + SignedSum(b[..148]) + SignedSum(b[156..][..i - 156])
    {
      assert b[156..][..i + 1 - 156][..i - 156] == b[156..][..i - 156];
      sumU := sumU + tar[i];
      sumS := sumS + Signed(tar[i]);
      i := i + 1;
    }
    assert b[156..][..512 - 156] == b[156..];
    var text := tar[148..];
    assert text == b[148..];
    var n := StrTo(text, 8);
    var sum := ToOffT(Unsigned(n, TWO32));
    var end := ByteAt(text, n.end);
    ok := (end == NUL || end == BLANK) && (sumU == sum || sumS == sum);
    BlankedSums(b);
  }

  // ---------------------------------------------------------------- decoding

  /** The fields `get_header_tar` takes out of a block, before it looks at the type flag. */
  datatype Decoded = Decoded(
    device: Option<bv32>,            // None: the header's device is left as it was
    linkTarget: Option<seq<byte>>,
    mtime: int,
    size: OffT,
    gid: nat,
    uid: nat,
    mode: nat,
    name: Option<seq<byte>>)

  function TypeFlag(b: seq<byte>): byte
    requires |b| == BLOCK
  {
    if b[156] == NUL then REGTYPE else b[156]
  }

  predicate ParsesNames(typeflag: byte) {
    REGTYPE <= typeflag <= CONTTYPE
  }

  function MakeDev(major: U64, minor: U64): bv32 {
    (((major % TWO32) as bv32) << 8) | ((minor % TWO32) as bv32)
  }

  /** Every field decoded from the untouched block, on its own. */
  function PureDecode(b: seq<byte>): Option<Decoded>
    requires |b| == BLOCK
  {
    var t := TypeFlag(b);
    var minor, major := FieldValue(b[337..345]), FieldValue(b[329..337]);
    var mtime, size := FieldValue(b[136..148]), FieldValue(b[124..136]);
    var gid, uid, mode := FieldValue(b[116..124]), FieldValue(b[108..116]), FieldValue(b[100..108]);
    if b[329] != NUL && (minor.None? || major.None?) then None
    else if mtime.None? || size.None? || gid.None? || uid.None? || mode.None? then None
    else
      Some(Decoded(
        if b[329] != NUL then Some(MakeDev(major.value, minor.value)) else None,
        if ParsesNames(t) && b[157] != NUL then Some(CStr(b[157..257])) else None,
        ToTime(mtime.value),
        ToOffT(size.value),
        gid.value % 0x1_0000,
        uid.value % 0x1_0000,
        mode.value % 4096,
        if !ParsesNames(t) then None
        else if b[345] != NUL then Some(Names.Concat(CStr(b[345..500]), CStr(b[..100])))
        else Some(CStr(b[..100]))))
  }

  lemma CStrStopsAt(buf: seq<byte>, at: nat, n: nat)
    requires at + n < |buf| && buf[at + n] == NUL
    ensures CStr(buf[at..]) == CStr(buf[at..at + n])
  {
    var c := CStr(buf[at..at + n]);
    assert buf[at..at + n][..|c|] == buf[at..][..|c|];
    assert |c| < n ==> buf[at..at + n][|c|] == buf[at..][|c|];
    assert buf[at..][n] == NUL;
    CStrIs(buf[at..], c);
  }

  /** `xstrndup(tar + at, n)`. */
  method XStrNDup(s: array<byte>, at: nat, n0: nat) returns (t: seq<byte>)
    requires at + n0 <= s.Length
    ensures t == CStr(s[at..at + n0])
  {
    ghost var f := s[at..at + n0];
    var m, p := n0, at;
    while m != 0
      invariant 0 <= m <= n0 && p == at + (n0 - m)
      invariant forall i :: 0 <= i < n0 - m ==> f[i] != NUL
      decreases m
    {
      if s[p] == NUL {
        break;
      }
      m := m - 1;
      p := p + 1;
    }
    var n := n0 - m;
    t := s[at..at + n];
    assert t == f[..n];
    CStrIs(f, t);
  }

  /** The device numbers: decoding the minor number destroys prefix[0], which is put back afterwards. */
  method DecodeDevice(tar: array<byte>, ghost b: seq<byte>) returns (ok: bool, device: Option<bv32>)
    requires tar.Length == BLOCK == |b| && tar[329..345] == b[329..345]
    modifies tar
    ensures forall i :: 0 <= i < BLOCK && i != 337 ==> tar[i] == old(tar[i])
    ensures ok <==> b[329] == NUL || (FieldValue(b[337..345]).Some? && FieldValue(b[329..337]).Some?)
    ensures ok ==> device == if b[329] == NUL then None
                             else Some(MakeDev(FieldValue(b[329..337]).value, FieldValue(b[337..345]).value))
  {
    hide FieldValue;
    assert tar[329] == tar[329..345][0] == b[329];
    assert tar[329..337] == tar[329..345][..8] == b[329..337];
    assert tar[337..345] == tar[329..345][8..] == b[337..345];
    if tar[329] == NUL {
      return true, None;
    }
    var t := tar[345];
    var minor := GetOctal(tar, 337, 8);
    assert tar[329..337] == b[329..337];
    if minor.None? {
      tar[345] := t;
      return false, None;
    }
    var major := GetOctal(tar, 329, 8);
    tar[345] := t;
    if major.None? {
      return false, None;
    }
    return true, Some(MakeDev(major.value, minor.value));
  }

  datatype NumbersOf = NumbersOf(mtime: int, size: OffT, gid: nat, uid: nat, mode: nat)

  /** The five numeric fields that every header has, last field first. */
  method DecodeNumbers(tar: array<byte>, ghost b: seq<byte>) returns (r: Option<NumbersOf>)
    requires tar.Length == BLOCK == |b| && tar[..148] == b[..148]
    modifies tar
    ensures tar[..100] == b[..100] && forall i :: 148 < i < BLOCK ==> tar[i] == old(tar[i])
    ensures r.Some? <==>
              && FieldValue(b[136..148]).Some? && FieldValue(b[124..136]).Some? && FieldValue(b[116..124]).Some?
              && FieldValue(b[108..116]).Some? && FieldValue(b[100..108]).Some?
    ensures r.Some? ==>
              && r.value.mtime == ToTime(FieldValue(b[136..148]).value)
              && r.value.size == ToOffT(FieldValue(b[124..136]).value)
              && r.value.gid == FieldValue(b[116..124]).value % 0x1_0000
              && r.value.uid == FieldValue(b[108..116]).value % 0x1_0000
              && r.value.mode == FieldValue(b[100..108]).value % 4096
  {
    hide FieldValue;
    assert forall i :: 0 <= i < 148 ==> tar[i] == tar[..148][i] == b[i];
    assert tar[136..148] == b[136..148];
    var mtime := GetOctal(tar, 136, 12);
    assert tar[124..136] == b[124..136];
    assert tar[..136] == b[..136];
    var size, gid, uid, mode: Option<U64> := None, None, None, None;
    if mtime.Some? {
      size := GetOctal(tar, 124, 12);
      assert tar[..124] == b[..124] && tar[116..124] == b[116..124];
    }
    if size.Some? {
      gid := GetOctal(tar, 116, 8);
      assert tar[..116] == b[..116] && tar[108..116] == b[108..116];
    }
    if gid.Some? {
      uid := GetOctal(tar, 108, 8);
      assert tar[..108] == b[..108] && tar[100..108] == b[100..108];
    }
    if uid.Some? {
      mode := GetOctal(tar, 100, 8);
    }
    if mode.None? {
      return None;
    }
    return Some(NumbersOf(ToTime(mtime.value), ToOffT(size.value), gid.value % 0x1_0000, uid.value % 0x1_0000,
                          mode.value % 4096));
  }

  /**
   * The decoding of `get_header_tar`, in its order: every `getOctal` destroys the first byte of the field behind it,
   * prefix[0] is saved across the device fields, mode[0] and padding[0] are overwritten to end the two names. The
   * outcome is nevertheless that of decoding the untouched block.
   */
  method DecodeFields(tar: array<byte>) returns (d: Option<Decoded>)
    requires tar.Length == BLOCK
    modifies tar
    ensures d == PureDecode(old(tar[..]))
  {
    hide FieldValue, CStr, Names.Concat;
    ghost var b := tar[..];
    if tar[156] == NUL {
      tar[156] := REGTYPE;
    }
    var parseNames := ParsesNames(tar[156]);
    var deviceOk, device := DecodeDevice(tar, b);
    if !deviceOk {
      return None;
    }
    assert tar[157..257] == b[157..257];
    assert tar[345..500] == b[345..500];
    assert tar[..148] == b[..148];
    var linkTarget: Option<seq<byte>> := None;
    if parseNames && tar[157] != NUL {
      var l := XStrNDup(tar, 157, NAME_SIZE);
      linkTarget := Some(l);
    }
    var numbers := DecodeNumbers(tar, b);
    if numbers.None? {
      return None;
    }
    var name: Option<seq<byte>> := None;
    if parseNames {
      tar[100] := NUL;
      assert tar[..100] == b[..100];
      CStrStopsAt(tar[..], 0, 100);
      assert tar[..][0..] == tar[..] && tar[..][0..100] == b[..100];
      if tar[345] != NUL {
        tar[500] := NUL;
        assert tar[345..500] == b[345..500] && tar[..100] == b[..100];
        CStrStopsAt(tar[..], 345, 155);
        CStrStopsAt(tar[..], 0, 100);
        assert tar[..][345..500] == b[345..500] && tar[..][345..] == tar[345..];
        assert tar[..][0..] == tar[..] && tar[..][0..100] == b[..100];
        var n := Names.ConcatPathFile(CStr(tar[345..]), CStr(tar[..]));
        name := Some(n);
      } else {
        name := Some(CStr(tar[..]));
      }
    }
    var n := numbers.value;
    return Some(Decoded(device, linkTarget, n.mtime, n.size, n.gid, n.uid, n.mode, name));
  }

  // ---------------------------------------------------------------- classification

  /** A decoded member, as `action_data` sees it. */
  datatype Member = Member(
    name: seq<byte>,
    linkTarget: Option<seq<byte>>,
    mode: nat,
    size: int,
    uid: nat,
    gid: nat,
    mtime: int)

  datatype Head =
    | Empty
    | Bad(why: Death)
    | PaxHeader(payload: nat)
    | SkippedHeader(size: OffT)
    | Entry(m: Member, shown: seq<byte>)      // shown: the name before its trailing slash is cut

  /** One slash less at the end. */
  function CutSlash(s: seq<byte>): seq<byte> {
    if EndsWith(s, SLASH) then s[..|s| - 1] else s
  }

  /** Name after stripping, without the one trailing slash that is cut off. */
  function FinalName(name: seq<byte>): seq<byte> {
    CutSlash(Names.Strip(name))
  }

  /** The type bits a type flag adds, and whether the size of the member is forced to zero. */
  function TypeBits(typeflag: byte, name: seq<byte>): (nat, bool) {
    if typeflag == LNKTYPE then (S_IFREG, true)
    else if typeflag == REGTYPE || typeflag == CONTTYPE then
      if EndsWith(name, SLASH) then (S_IFDIR, true) else (S_IFREG, false)
    else if typeflag == DIRTYPE then (S_IFDIR, true)
    else if typeflag == CHRTYPE then (S_IFCHR, true)
    else (0, true)                     // symlinks, block devices and FIFOs get no type bits on this platform
  }

  function Dispatch(typeflag: byte, d: Decoded): Head
    requires d.name.Some? <==> ParsesNames(typeflag)
  {
    if d.name.Some? then
      var (bits, empty) := TypeBits(typeflag, d.name.value);
      Entry(Member(FinalName(d.name.value), d.linkTarget, d.mode + bits, if empty then 0 else d.size,
                   d.uid, d.gid, d.mtime),
            Names.Strip(d.name.value))
    else if typeflag == PAX_GLOBAL || typeflag == PAX_NEXT then
      if d.size % TWO32 > 0xfffff then SkippedHeader(d.size) else PaxHeader(d.size % TWO32)
    else Bad(UnknownType)
  }

  /** What one header block means to the reader. */
  function Classify(b: seq<byte>): Head
    requires |b| == BLOCK
  {
    if b[0] == NUL && b[345] == NUL then Empty
    else if !ChecksumOk(b) then Bad(BadChecksum)
    else
      match PureDecode(b)
      case None => Bad(CorruptOctal)
      case Some(d) => Dispatch(TypeFlag(b), d)
  }
}

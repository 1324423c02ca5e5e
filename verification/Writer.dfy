/** The writing half: hard-link table, headers, bodies and padding. */
module Writer {
  import opened Bytes
  import opened Numbers
  import opened Masks
  import Names
  import opened Header
  import opened HeaderBlock
  import Streams

  type Uid = x: nat | x < 0x1_0000
  type FileSize = x: nat | x < 0x8000_0000

  /** The fields of `struct stat` the archiver looks at. */
  datatype Stat = Stat(
    dev: nat,
    ino: nat,
    mode: nat,
    nlink: nat,
    uid: Uid,
    gid: Uid,
    size: FileSize,
    mtime: int)

  /**
   * One call of the visitor: a path, its stat, whether the file can be opened, what it then holds, and whether reads
   * from it may fail.
   */
  datatype Visit = Visit(fileName: seq<byte>, stat: Stat, readable: bool, content: seq<byte>, failing: bool)

  datatype LinkInfo = LinkInfo(dev: nat, ino: nat, name: seq<byte>)

  predicate IsDir(st: Stat) {
    Format(st.mode) == S_IFDIR
  }

  predicate IsReg(st: Stat) {
    Format(st.mode) == S_IFREG
  }

  // ---------------------------------------------------------------- padding

  /** The bits below 512 of a two's-complement number, which is what `& 511` keeps. */
  function LowBits(v: int): (n: nat)
    ensures n < 512
  {
    v % 512
  }

  /** The writer's padding: the mask trick on the negated size. */
  function MaskPadding(size: int): nat {
    LowBits(-size)
  }

  /** The reader's: modular arithmetic on the offset. */
  function AlignPadding(offset: int): nat {
    (512 - offset % 512) % 512
  }

  /** The size of a payload in whole blocks: (size + 511) with its low bits cleared. */
  function RoundUp(size: int): int {
    size + 511 - LowBits(size + 511)
  }

  lemma LowBitsOfWord(n: int)
    ensures BitAnd(n % TWO32, 511) == LowBits(n) <= n % TWO32
  {
    hide BitAnd, Pow;
    PowersOfTwo();
    LowMask(n % TWO32, 9);
  }

  lemma WordMinus(n: int, low: nat)
    requires low <= n % TWO32
    ensures (n - low) % TWO32 == n % TWO32 - low
  {
  }

  /** `& 511` and `(n + 511) & ~511`, on the 32-bit word that stands for a number, are this arithmetic. */
  lemma BlockMask(n: int)
    ensures BitAnd(n % TWO32, 511) == LowBits(n)
    ensures BitClear((n + 511) % TWO32, 511) == RoundUp(n) % TWO32
  {
    hide BitAnd, BitClear, LowBits;
    LowBitsOfWord(n);
    LowBitsOfWord(n + 511);
    ClearIsRest((n + 511) % TWO32, 511);
    WordMinus(n + 511, LowBits(n + 511));
  }

  predicate CompletesBlock(n: int, k: nat) {
    (n + k) % 512 == 0
  }

  /** What completes a block, by the number of bytes in the last one. */
  function LeastPadding(low: nat): nat
    requires low < 512
  {
    if low == 0 then 0 else 512 - low
  }

  lemma PaddingIs(n: int)
    ensures MaskPadding(n) == AlignPadding(n) == LeastPadding(n % 512)
  {
    var q := n / 512;
    assert -n == 512 * (-q) - n % 512;
  }

  lemma RoundUpIs(n: int)
    ensures RoundUp(n) - n == LeastPadding(n % 512)
  {
    var q := n / 512;
    assert n + 511 == 512 * q + (n % 512 + 511);
  }

  lemma CompletesIs(n: int, k: nat)
    ensures CompletesBlock(n, k) ==> LeastPadding(n % 512) <= k
    ensures k == LeastPadding(n % 512) ==> CompletesBlock(n, k)
  {
    var q := n / 512;
    assert n + k == 512 * q + (n % 512 + k);
  }

  /** All three compute the least number of bytes that completes a block. */
  lemma PaddingsAgree(n: int)
    ensures MaskPadding(n) == AlignPadding(n) == RoundUp(n) - n < 512
    ensures CompletesBlock(n, MaskPadding(n))
    ensures forall k: nat :: CompletesBlock(n, k) ==> MaskPadding(n) <= k
  {
    hide MaskPadding, AlignPadding, RoundUp, CompletesBlock;
    PaddingIs(n);
    RoundUpIs(n);
    forall k: nat
      ensures CompletesBlock(n, k) ==> MaskPadding(n) <= k
      ensures k == MaskPadding(n) ==> CompletesBlock(n, k)
    {
      CompletesIs(n, k);
    }
  }

  // ---------------------------------------------------------------- hard links

  /** The name recorded for a device and inode. */
  function Lookup(links: seq<LinkInfo>, dev: nat, ino: nat): (r: Option<seq<byte>>)
    ensures r.Some? ==> LinkInfo(dev, ino, r.value) in links
    ensures r.None? ==> forall l :: l in links ==> l.dev != dev || l.ino != ino
  {
    if links == [] then None
    else if links[0].ino == ino && links[0].dev == dev then Some(links[0].name)
    else Lookup(links[1..], dev, ino)
  }

  // ---------------------------------------------------------------- headers

  /** `st_mtime >= 0 ? st_mtime : 0`, narrowed to `off_t` and printed as unsigned. */
  function StoredTime(mtime: int): (t: nat)
    ensures t < TWO32
  {
    ToOffT(if mtime >= 0 then mtime else 0) % TWO32
  }

  /** The header of an entry; None for a file type that cannot be archived. */
  function HeaderFor(name: seq<byte>, st: Stat, link: Option<seq<byte>>): Option<Fields> {
    var common := Fields(name, st.mode % 4096, st.uid, st.gid, 0, StoredTime(st.mtime), REGTYPE, []);
    if link.Some? then Some(common.(typeflag := LNKTYPE, linkname := link.value))
    else if IsDir(st) then Some(common.(typeflag := DIRTYPE, name := name + [SLASH]))
    else if Format(st.mode) == S_IFCHR then Some(common.(typeflag := CHRTYPE))
    else if Format(st.mode) == S_IFIFO then Some(common.(typeflag := FIFOTYPE))
    else if IsReg(st) then Some(common.(size := st.size))
    else None
  }

  lemma ZeroSizeField()
    ensures OctalField(0, 12) == Repeat(DIGIT0, 11) + [NUL]
  {
  }

  /** Everything but magic and checksum is in place. */
  ghost predicate IsFilled(b: seq<byte>, h: Fields) {
    && |b| == BLOCK
    && b[..100] == StrNCpy(h.name, 100)
    && b[100..108] == OctalField(h.mode, 8)
    && b[108..116] == OctalField(h.uid, 8)
    && b[116..124] == OctalField(h.gid, 8)
    && b[124..136] == OctalField(h.size, 12)
    && b[136..148] == OctalField(h.mtime, 12)
    && b[156] == h.typeflag
    && b[157..257] == StrNCpy(h.linkname, 100)
    && b[265..] == Repeat(NUL, 247)
  }

  /** `strncpy(header + at, s, n)` */
  method PutString(buf: array<byte>, at: nat, n: nat, s: seq<byte>)
    requires at + n <= buf.Length
    modifies buf
    ensures buf[at..at + n] == StrNCpy(s, n)
    ensures forall i :: 0 <= i < buf.Length && !(at <= i < at + n) ==> buf[i] == old(buf[i])
  {
    var f := StrNCpy(s, n);
    forall i | 0 <= i < n {
      buf[at + i] := f[i];
    }
    assert buf[at..at + n] == f;
  }

  method FillSizeAndTime(header: array<byte>, st: Stat)
    requires header.Length == BLOCK && header[135] == NUL
    modifies header
    ensures header[124..136] == OctalField(0, 12)
    ensures header[136..148] == OctalField(StoredTime(st.mtime), 12)
    ensures forall i :: 0 <= i < BLOCK && !(124 <= i < 148) ==> header[i] == old(header[i])
  {
    hide OctalField;
    forall i | 0 <= i < 11 {
      header[124 + i] := DIGIT0;
    }
    ZeroSizeField();
    assert header[124..136] == Repeat(DIGIT0, 11) + [NUL];
    PutOctal(header, 136, 12, ToOffT(if st.mtime >= 0 then st.mtime else 0));
    assert header[124..136] == Repeat(DIGIT0, 11) + [NUL];
  }

  lemma EmptyString()
    ensures StrNCpy([], 100) == Repeat(NUL, 100)
  {
  }

  /** The part of the header that does not depend on the file type. */
  method FillCommon(header: array<byte>, name: seq<byte>, st: Stat)
    requires header.Length == BLOCK && forall i :: 0 <= i < BLOCK ==> header[i] == NUL
    modifies header
    ensures IsFilled(header[..], Fields(name, st.mode % 4096, st.uid, st.gid, 0, StoredTime(st.mtime), NUL, []))
  {
    hide OctalField, StrNCpy, StoredTime;
    PutString(header, 0, 100, name);
    PutOctal(header, 100, 8, st.mode % 4096);
    PutOctal(header, 108, 8, st.uid);
    PutOctal(header, 116, 8, st.gid);
    assert header[..100] == StrNCpy(name, 100);
    assert header[100..108] == OctalField(st.mode % 4096, 8);
    assert header[108..116] == OctalField(st.uid, 8);
    FillSizeAndTime(header, st);
    assert header[..100] == StrNCpy(name, 100);
    assert header[100..108] == OctalField(st.mode % 4096, 8);
    assert header[108..116] == OctalField(st.uid, 8);
    assert header[116..124] == OctalField(st.gid, 8);
    assert header[157..257] == Repeat(NUL, 100) == StrNCpy([], 100) by { EmptyString(); }
    assert header[265..] == Repeat(NUL, 247);
  }

  lemma FilledIsPlain(p: seq<byte>, b: seq<byte>, h: Fields)
    requires IsFilled(b, h) && |p| == BLOCK
    requires p[..148] == b[..148] && p[148..156] == Repeat(BLANK, 8) && p[156..257] == b[156..257]
    requires p[257..265] == MAGIC && p[265..] == b[265..]
    ensures IsPlain(p, h)
  {
    hide OctalField, StrNCpy;
  }

  method MagicAndBlanks(hp: array<byte>, ghost h: Fields)
    requires IsFilled(hp[..], h)
    modifies hp
    ensures IsPlain(hp[..], h) && hp.Length == BLOCK && hp[148..156] == Repeat(BLANK, 8)
  {
    hide OctalField, StrNCpy;
    ghost var b := hp[..];
    forall i | 0 <= i < 8 {
      hp[257 + i] := MAGIC[i];
    }
    forall i | 148 <= i < 156 {
      hp[i] := BLANK;
    }
    assert hp[257..265] == MAGIC;
    assert hp[148..156] == Repeat(BLANK, 8);
    assert hp[..148] == b[..148];
    assert hp[156..257] == b[156..257];
    FilledIsPlain(hp[..], b, h);
  }

  /** `putOctal(hp->chksum, sizeof(hp->chksum)-1, chksum)` on a block whose checksum field is blank. */
  method StoreChecksum(hp: array<byte>, chksum: nat)
    requires hp.Length == BLOCK && hp[148..156] == Repeat(BLANK, 8) && chksum == Sum(hp[..])
    modifies hp
    ensures hp[..] == Stamp(old(hp[..]))
  {
    hide Sum, OctalField;
    ghost var p := hp[..];
    assert hp[155] == hp[148..156][7] == BLANK;
    PutOctal(hp, 148, 7, chksum);
    assert chksum % TWO32 == chksum;
    assert hp[..148] == p[..148];
    assert hp[156..] == p[156..];
    assert hp[..] == hp[..148] + hp[148..155] + [hp[155]] + hp[156..];
  }

  /** `chksum_and_xwrite` */
  method ChksumAndXWrite(fd: Streams.Sink, hp: array<byte>, ghost h: Fields) returns (fate: Fate)
    requires IsFilled(hp[..], h)
    modifies fd, hp
    ensures fate == Alive || (fate == Dead(ShortWrite) && fd.faulty)
    ensures fate.Alive? ==> fd.content == old(fd.content) + Block(h)
    ensures fate.Dead? ==> old(fd.content) <= fd.content
  {
    hide IsPlain, Stamp, Plain;
    MagicAndBlanks(hp, h);
    ghost var p := hp[..];
    LayoutIsPlain(p, h);
    var chksum: nat := 0;
    var cp := 0;
    assert p[..0] == [];
    while cp < BLOCK
      invariant 0 <= cp <= BLOCK && hp[..] == p
      invariant chksum == Sum(p[..cp])
    {
      assert p[..cp + 1][..cp] == p[..cp];
      chksum := chksum + hp[cp];
      cp := cp + 1;
    }
    assert p[..BLOCK] == p;
    StoreChecksum(hp, chksum);
    fate := fd.XWrite(hp, 0, BLOCK);
    assert hp[0..BLOCK] == hp[..];
  }

  // ---------------------------------------------------------------- one visit

  /** What a visit adds to the archive. */
  datatype Emission =
    | Skipped                                        // nothing, and the visitor reports success
    | Failed                                         // nothing, and the visitor reports failure
    | Emitted(h: Fields, body: seq<byte>)
    | Truncated(h: Fields)                           // the file is shorter than its stat says: the program dies

  /** The entry takes part in hard-link tracking. */
  predicate Tracked(v: Visit) {
    Names.Strip(v.fileName) != [] && !IsDir(v.stat) && v.stat.nlink > 1
  }

  function FoundLink(links: seq<LinkInfo>, v: Visit): Option<seq<byte>> {
    if Tracked(v) then Lookup(links, v.stat.dev, v.stat.ino) else None
  }

  /** The table after the visit. */
  function LinksAfter(links: seq<LinkInfo>, v: Visit): seq<LinkInfo> {
    if Tracked(v) && FoundLink(links, v).None? then [LinkInfo(v.stat.dev, v.stat.ino, Names.Strip(v.fileName))] + links
    else links
  }

  /** What becomes of an entry with a name, once it is known whether it is a link to an earlier one. */
  function EntryOf(name: seq<byte>, link: Option<seq<byte>>, v: Visit, tarDev: nat, tarIno: nat): Emission {
    var hasBody := link.None? && IsReg(v.stat);
    if tarDev == v.stat.dev && tarIno == v.stat.ino then Skipped
    else if |name| >= NAME_SIZE then Skipped
    else if hasBody && !v.readable then Failed
    else
      match HeaderFor(name, v.stat, link)
      case None => Failed
      case Some(h) =>
        if !hasBody then Emitted(h, [])
        else if |v.content| < v.stat.size then Truncated(h)
        else Emitted(h, v.content[..v.stat.size])
  }

  function EmissionOf(links: seq<LinkInfo>, v: Visit, tarDev: nat, tarIno: nat): Emission {
    var name := Names.Strip(v.fileName);
    if name == [] then Skipped else EntryOf(name, FoundLink(links, v), v, tarDev, tarIno)
  }

  /** Header, body, and zeroes up to the next block. */
  function Wire(e: Emission): seq<byte> {
    if e.Emitted? then Block(e.h) + e.body + Repeat(NUL, MaskPadding(|e.body|)) else []
  }

  /** Bytes outside [lo, hi) are the same, so every field that does not meet it is. */
  lemma SameSlices(c: seq<byte>, b: seq<byte>, lo: nat, hi: nat)
    requires |c| == |b| == BLOCK && lo <= hi <= 265
    requires forall i :: 0 <= i < BLOCK && !(lo <= i < hi) ==> c[i] == b[i]
    ensures 100 <= lo ==> c[..100] == b[..100]
    ensures hi <= 100 || lo >= 108 ==> c[100..108] == b[100..108]
    ensures hi <= 108 || lo >= 116 ==> c[108..116] == b[108..116]
    ensures hi <= 116 || lo >= 124 ==> c[116..124] == b[116..124]
    ensures hi <= 124 || lo >= 136 ==> c[124..136] == b[124..136]
    ensures hi <= 136 || lo >= 148 ==> c[136..148] == b[136..148]
    ensures hi <= 156 || lo >= 157 ==> c[156] == b[156]
    ensures hi <= 157 || lo >= 257 ==> c[157..257] == b[157..257]
    ensures c[265..] == b[265..]
  {
  }

  method SetType(header: array<byte>, typeflag: byte, ghost h: Fields)
    requires IsFilled(header[..], h)
    modifies header
    ensures IsFilled(header[..], h.(typeflag := typeflag))
  {
    hide OctalField, StrNCpy;
    ghost var b := header[..];
    header[156] := typeflag;
    assert forall i :: 0 <= i < BLOCK && i != 156 ==> header[i] == b[i];
    SameSlices(header[..], b, 156, 157);
  }

  method SetLink(header: array<byte>, link: seq<byte>, ghost h: Fields)
    requires IsFilled(header[..], h)
    modifies header
    ensures IsFilled(header[..], h.(linkname := link))
  {
    hide OctalField, StrNCpy;
    ghost var b := header[..];
    PutString(header, 157, NAME_SIZE, link);
    assert forall i :: 0 <= i < BLOCK && !(157 <= i < 257) ==> header[i] == b[i];
    SameSlices(header[..], b, 157, 257);
  }

  method SetSize(header: array<byte>, size: FileSize, ghost h: Fields)
    requires IsFilled(header[..], h)
    modifies header
    ensures IsFilled(header[..], h.(size := size))
  {
    hide OctalField, StrNCpy;
    ghost var b := header[..];
    PutOctal(header, 124, 12, size);
    assert forall i :: 0 <= i < BLOCK && !(124 <= i < 136) ==> header[i] == b[i];
    SameSlices(header[..], b, 124, 136);
  }

  /** `header.name[strlen(header.name)] = '/'`, which the caller makes sure there is room for. */
  method AppendSlash(header: array<byte>, ghost h: Fields)
    requires IsFilled(header[..], h) && |h.name| < NAME_SIZE && NoNul(h.name)
    modifies header
    ensures IsFilled(header[..], h.(name := h.name + [SLASH]))
  {
    hide OctalField;
    ghost var b := header[..];
    StrNCpyReadsBack(h.name, NAME_SIZE);
    var len := |CStr(header[..NAME_SIZE])|;
    assert header[..100] == b[..100] == StrNCpy(h.name, 100);
    assert len == |h.name|;
    header[len] := SLASH;
    assert forall i :: 0 <= i < BLOCK && i != len ==> header[i] == b[i];
    assert header[..100] == StrNCpy(h.name + [SLASH], 100);
    SameSlices(header[..], b, 0, 100);
  }

  lemma RegIsNotDir(st: Stat)
    ensures !(IsReg(st) && IsDir(st))
  {
  }

  lemma RegHasHeader(name: seq<byte>, st: Stat)
    ensures IsReg(st) ==> HeaderFor(name, st, None).Some? && HeaderFor(name, st, None).value.typeflag == REGTYPE
  {
  }

  lemma DirHasHeader(name: seq<byte>, st: Stat)
    ensures IsDir(st) ==> HeaderFor(name, st, None).Some?
  {
  }

  lemma NoPadding()
    ensures Repeat(NUL, MaskPadding(0)) == []
  {
  }

  datatype VisitResult = Success | Failure | Died(why: Death)

  /** A body is read for the entry. */
  predicate HasBody(e: Emission) {
    e.Truncated? || (e.Emitted? && e.h.typeflag == REGTYPE)
  }

  /**
   * The visitor did to the archive what the entry calls for; it may only die for a reason, and never takes back.
   * `failing` says that reads of the file may fail, `faulty` that writes to the archive may.
   */
  ghost predicate Wrote(r: VisitResult, e: Emission, before: seq<byte>, after: seq<byte>, failing: bool, faulty: bool)
  {
    && before <= after
    && (!r.Died? ==> !e.Truncated? && after == before + Wire(e) && (r.Failure? <==> e.Failed?))
    && (r.Died? ==> || (e.Truncated? && r.why == ShortRead)
                    || (failing && r.why == IoError && HasBody(e))
                    || (faulty && (r.why == ShortWrite || r.why == IoError)))
  }

  datatype HeaderResult = Written | Unknown | HeaderDied(why: Death)

  /** The archive being written. */
  class TarBallInfo {
    const tarFd: Streams.Sink
    const tarDev: nat
    const tarIno: nat
    var hlInfoHead: seq<LinkInfo>
    var hlInfo: Option<LinkInfo>

    constructor (tarFd: Streams.Sink, tarDev: nat, tarIno: nat)
      ensures this.tarFd == tarFd && this.tarDev == tarDev && this.tarIno == tarIno
      ensures hlInfoHead == []
    {
      this.tarFd, this.tarDev, this.tarIno := tarFd, tarDev, tarIno;
      hlInfoHead, hlInfo := [], None;
    }

    /** `writeTarHeader` */
    method WriteTarHeader(headerName: seq<byte>, statbuf: Stat) returns (r: HeaderResult)
      requires headerName != [] && |headerName| < NAME_SIZE && NoNul(headerName)
      modifies tarFd
      ensures var h := HeaderFor(headerName, statbuf, if hlInfo.Some? then Some(hlInfo.value.name) else None);
              && (r.Unknown? <==> h.None?)
              && (r.Unknown? ==> tarFd.content == old(tarFd.content))
              && (r.Written? ==> tarFd.content == old(tarFd.content) + Block(h.value))
      ensures r.HeaderDied? ==> r.why == ShortWrite && tarFd.faulty && old(tarFd.content) <= tarFd.content
    {
      var header := new byte[BLOCK](_ => NUL);
      FillCommon(header, headerName, statbuf);
      ghost var h := Fields(headerName, statbuf.mode % 4096, statbuf.uid, statbuf.gid, 0,
                            StoredTime(statbuf.mtime), NUL, []);
      if hlInfo.Some? {
        SetType(header, LNKTYPE, h);
        h := h.(typeflag := LNKTYPE);
        SetLink(header, hlInfo.value.name, h);
        h := h.(linkname := hlInfo.value.name);
      } else if IsDir(statbuf) {
        SetType(header, DIRTYPE, h);
        h := h.(typeflag := DIRTYPE);
        AppendSlash(header, h);
        h := h.(name := headerName + [SLASH]);
      } else if Format(statbuf.mode) == S_IFCHR {
        SetType(header, CHRTYPE, h);
        h := h.(typeflag := CHRTYPE);
      } else if Format(statbuf.mode) == S_IFIFO {
        SetType(header, FIFOTYPE, h);
        h := h.(typeflag := FIFOTYPE);
      } else if IsReg(statbuf) {
        SetSize(header, statbuf.size, h);
        h := h.(size := statbuf.size);
        SetType(header, REGTYPE, h);
        h := h.(typeflag := REGTYPE);
      } else {
        return Unknown;
      }
      var fate := ChksumAndXWrite(tarFd, header, h);
      return if fate.Alive? then Written else HeaderDied(fate.why);
    }

    /** `findHardLinkInfo`: walks the list from its head. */
    method FindHardLinkInfo(statbuf: Stat) returns (r: Option<LinkInfo>)
      ensures Lookup(hlInfoHead, statbuf.dev, statbuf.ino) == if r.Some? then Some(r.value.name) else None
    {
      var i := 0;
      assert hlInfoHead[0..] == hlInfoHead;
      while i < |hlInfoHead|
        invariant i <= |hlInfoHead|
        invariant Lookup(hlInfoHead, statbuf.dev, statbuf.ino) == Lookup(hlInfoHead[i..], statbuf.dev, statbuf.ino)
      {
        if statbuf.ino == hlInfoHead[i].ino && statbuf.dev == hlInfoHead[i].dev {
          return Some(hlInfoHead[i]);
        }
        i := i + 1;
      }
      return None;
    }

    /** `addHardLinkInfo`: a new node in front. */
    method AddHardLinkInfo(statbuf: Stat, fileName: seq<byte>)
      modifies this`hlInfoHead
      ensures hlInfoHead == [LinkInfo(statbuf.dev, statbuf.ino, fileName)] + old(hlInfoHead)
    {
      hlInfoHead := [LinkInfo(statbuf.dev, statbuf.ino, fileName)] + hlInfoHead;
    }

    /** Hard-link detection, before anything is known about the fate of the entry. */
    method TrackLink(v: Visit, headerName: seq<byte>)
      requires headerName == Names.Strip(v.fileName) && headerName != []
      modifies this
      ensures hlInfoHead == LinksAfter(old(hlInfoHead), v)
      ensures FoundLink(old(hlInfoHead), v) == if hlInfo.Some? then Some(hlInfo.value.name) else None
    {
      hlInfo := None;
      if !IsDir(v.stat) && v.stat.nlink > 1 {
        hlInfo := FindHardLinkInfo(v.stat);
        if hlInfo.None? {
          AddHardLinkInfo(v.stat, headerName);
        }
      }
    }

    /** Body and padding of a regular file. */
    method WriteBody(v: Visit) returns (fate: Fate)
      modifies tarFd
      ensures fate.Alive? ==> |v.content| >= v.stat.size
      ensures fate.Alive? ==>
                tarFd.content == old(tarFd.content) + v.content[..v.stat.size] + Repeat(NUL, MaskPadding(v.stat.size))
      ensures fate.Dead? && fate.why == ShortRead ==> |v.content| < v.stat.size
      ensures fate.Dead? && fate.why != ShortRead ==>
                || (v.failing && fate.why == IoError)
                || (tarFd.faulty && (fate.why == ShortWrite || fate.why == IoError))
      ensures old(tarFd.content) <= tarFd.content
    {
      var inputFileFd := new Streams.Source(v.content, true, v.failing);
      ghost var kept;
      fate, kept := Streams.CopyFdExactSize(inputFileFd, tarFd, v.stat.size);
      if fate.Dead? {
        return;
      }
      assert v.content[0..v.stat.size] == v.content[..v.stat.size];
      var readSize := MaskPadding(v.stat.size);
      var blockBuf := new byte[BLOCK](_ => NUL);
      ghost var c := tarFd.content;
      fate := tarFd.XWrite(blockBuf, 0, readSize);
      assert blockBuf[0..readSize] == Repeat(NUL, readSize);
    }

    /** `writeFileToTarball`, after the hard-link table has been consulted. */
    method WriteEntry(v: Visit, headerName: seq<byte>) returns (r: VisitResult)
      requires NoNul(headerName) && headerName != []
      requires hlInfo.Some? ==> !IsDir(v.stat)
      modifies tarFd
      ensures Wrote(r, EntryOf(headerName, if hlInfo.Some? then Some(hlInfo.value.name) else None, v, tarDev, tarIno),
                    old(tarFd.content), tarFd.content, v.failing, tarFd.faulty)
      ensures r.Failure? ==> !IsDir(v.stat)
    {
      hide Block, HeaderFor, Format, Repeat, MaskPadding, ToOffT;
      if tarDev == v.stat.dev && tarIno == v.stat.ino {
        return Success;
      }
      if |headerName| >= NAME_SIZE {
        return Success;
      }
      var hasBody := hlInfo.None? && IsReg(v.stat);
      if hasBody && !v.readable {
        RegIsNotDir(v.stat);
        return Failure;
      }
      DirHasHeader(headerName, v.stat);
      var written := WriteTarHeader(headerName, v.stat);
      if written.Unknown? {
        return Failure;
      }
      if written.HeaderDied? {
        return Died(written.why);
      }
      if hasBody {
        RegHasHeader(headerName, v.stat);
        var fate := WriteBody(v);
        return if fate.Dead? then Died(fate.why) else Success;
      }
      NoPadding();
      return Success;
    }

    /** `writeFileToTarball` */
    method WriteFileToTarball(v: Visit) returns (r: VisitResult)
      requires NoNul(v.fileName)
      modifies this, tarFd
      ensures hlInfoHead == LinksAfter(old(hlInfoHead), v)
      ensures Wrote(r, EmissionOf(old(hlInfoHead), v, tarDev, tarIno), old(tarFd.content), tarFd.content,
                    v.failing, tarFd.faulty)
      ensures r.Failure? ==> !IsDir(v.stat)
    {
      var cp := Names.StripUnsafePrefix(v.fileName);
      var headerName := v.fileName[cp..];
      if headerName == [] {
        return Success;
      }
      TrackLink(v, headerName);
      hide EntryOf, Wire, FoundLink, LinksAfter, Wrote;
      r := WriteEntry(v, headerName);
    }
  }
}

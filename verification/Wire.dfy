/** What this program writes, byte for byte, and what becomes of it when it is cut off. */
module Wire {
  import opened Bytes
  import opened Numbers
  import opened Names
  import opened Header
  import opened HeaderBlock
  import opened Writer
  import opened Archive
  import opened Pax
  import opened Reader
  import opened ReaderLaws
  import opened RoundTrip
  import opened OtherWriters

  // ---------------------------------------------------------------- this program's own headers

  lemma OctalFieldShows(v: nat, len: nat)
    requires 2 <= len <= 12 && v < Pow(8, len)
    ensures ShowsOctal(OctalField(v, len), v)
  {
    hide DigitsValue, Pow;
    var d := OctalDigits(v, len);
    OctalDigitsValue(v, len);
    ModBelow(v, Pow(8, len), Pow(8, len));
    if d[0] == DIGIT0 {
      DropLeadingZero(d);
      assert OctalField(v, len) == [] + d[1..] + [0];
      assert IsOctalText(OctalField(v, len), [], d[1..], [0]);
    } else {
      assert OctalField(v, len) == [] + d + [];
      assert IsOctalText(OctalField(v, len), [], d, []);
    }
  }

  lemma StrNCpyIsText(b: seq<byte>, at: nat, n: nat, s: seq<byte>)
    requires at + n <= |b| && b[at..at + n] == StrNCpy(s, n) && NoNul(s) && |s| <= n
    ensures TextAt(b, at, n, s)
  {
    assert b[at..at + |s|] == b[at..at + n][..|s|];
    assert |s| < n ==> b[at + |s|] == b[at..at + n][|s|];
  }

  /** A header of this program, with whatever type flag. */
  predicate Fitting(h: Fields) {
    && h.name != [] && |h.name| <= 100 && NoNul(h.name) && |h.linkname| <= 100 && NoNul(h.linkname)
    && h.mode < 4096 && h.uid < 0x1_0000 && h.gid < 0x1_0000 && h.size < 0x8000_0000 && h.mtime < 0x1_0000_0000
  }

  lemma WrittenIsSealed(h: Fields)
    ensures Sealed(Block(h))
  {
    hide Plain, Stamp, Sum, DigitsValue, Blanked, OctalDigits, IsPlain, StoresSum;
    PlainIsBlanked(h);
    StampStoresSum(Plain(h));
    SumIsSmall(Blanked(Block(h)));
    var digits := OctalDigits(Sum(Plain(h)), 7)[1..];
    StoresIsBlock(Block(h), [], digits, [0, 32]);
    assert SealedBy(Block(h), digits);
  }

  lemma Powers()
    ensures Pow(8, 8) == 16777216 && Pow(8, 12) == 68719476736
  {
  }

  lemma NoText(b: seq<byte>)
    requires |b| == 512 && b[345] == 0
    ensures TextAt(b, 345, 155, [])
  {
  }

  /** It has the layout its fields describe, so all that is said here holds of it. */
  lemma WrittenHasLayout(h: Fields)
    requires Fitting(h)
    ensures HasLayout(Block(h), Layout([], h.name, h.linkname, h.mode, h.uid, h.gid, h.size, h.mtime))
    ensures Block(h)[156] == h.typeflag
  {
    hide OctalField, StrNCpy, Block, Sealed, ShowsOctal, TextAt, Pow, Base256Field;
    var b, l := Block(h), Layout([], h.name, h.linkname, h.mode, h.uid, h.gid, h.size, h.mtime);
    BlockFields(h);
    WrittenIsSealed(h);
    Powers();
    OctalFieldShows(h.mode, 8);
    OctalFieldShows(h.uid, 8);
    OctalFieldShows(h.gid, 8);
    OctalFieldShows(h.size, 12);
    OctalFieldShows(h.mtime, 12);
    assert b[0..100] == b[..100];
    StrNCpyIsText(b, 0, 100, h.name);
    StrNCpyIsText(b, 157, 100, h.linkname);
    NoText(b);
  }

  lemma PaddingFills(n: nat)
    ensures Fills(n, n + MaskPadding(n))
  {
    hide MaskPadding, AlignPadding, RoundUp;
    PaddingsAgree(n);
    RoundUpIsBlocks(n);
  }

  /** There are extension headers for every payload of that length whose walk stays inside. */
  lemma ExtensionFor(flag: byte, payload: seq<byte>)
    requires flag in {103, 120} && |payload| <= 0xfffff && Walk(payload) != Outside
    ensures IsExtension(Block(Fields([112], 0, 0, 0, |payload|, 0, flag, []))
                        + payload + Repeat(0, MaskPadding(|payload|)))
  {
    hide Block, HasLayout, Walk, MaskPadding;
    var n := |payload|;
    var h := Fields([112], 0, 0, 0, n, 0, flag, []);
    WrittenHasLayout(h);
    PaddingFills(n);
    var x := Block(h) + payload + Repeat(0, MaskPadding(n));
    assert Extends(x, Block(h), Layout([], [112], [], 0, 0, 0, n, 0), payload, Repeat(0, MaskPadding(n)));
  }

  // ---------------------------------------------------------------- bytes on the wire

  lemma StoredTimeIs(t: int)
    ensures 0 <= t < 0x8000_0000 ==> StoredTime(t) == t
    ensures t < 0 ==> StoredTime(t) == 0
    ensures StoredTime(t) < 0x1_0000_0000
  {
  }

  lemma NameOnTheWire(b: seq<byte>, s: seq<byte>)
    requires |b| == 512 && b[..100] == StrNCpy(s, 100) && |s| <= 100
    ensures b[..|s|] == s && forall i :: |s| <= i < 100 ==> b[i] == 0
  {
    assert b[..|s|] == b[..100][..|s|];
    assert forall i :: 0 <= i < 100 ==> b[i] == b[..100][i];
  }

  /** The link name is there as far as it fits; an entry that is no link has none. */
  lemma LinkOnTheWire(name: seq<byte>, st: Stat, link: Option<seq<byte>>)
    requires Writable(name, st, link)
    ensures var b, l := Block(HeaderFor(name, st, link).value), if link.Some? then link.value else [];
            forall i :: 0 <= i < 100 ==> b[157 + i] == if i < |l| then l[i] else 0
  {
    hide OctalField, Block, StoredTime, Format, ChecksumShape;
    var h := HeaderFor(name, st, link).value;
    var b := Block(h);
    BlockFields(h);
    assert forall i :: 0 <= i < 100 ==> b[157 + i] == b[157..257][i];
  }

  lemma ChecksumOnTheWire(h: Fields)
    ensures AllOctal(Block(h)[148..154]) && Block(h)[154] == 0 && Block(h)[155] == 32
  {
    hide Plain, Stamp, Sum, ChecksumOk, StoredSum, HeaderSum, IsPlain;
    PlainIsBlanked(h);
    ChecksumAgrees(Plain(h));
    var b := Block(h);
    assert b[148..156][6] == b[154] && b[148..156][7] == b[155];
    assert forall i :: 0 <= i < 6 ==> b[148..154][i] == b[148..156][i];
  }

  /** Every byte of a header this program writes, in plain numbers. */
  lemma HeaderOnTheWire(name: seq<byte>, st: Stat, link: Option<seq<byte>>)
    requires Writable(name, st, link)
    ensures var b := Block(HeaderFor(name, st, link).value);
            && b[..|name|] == name
            && (forall i :: |name| < i < 100 ==> b[i] == 0)
            && b[|name|] == (if link.None? && Format(st.mode) == 0x4000 then 47 else 0)
            && ShowsOctal(b[100..108], st.mode % 4096)
            && ShowsOctal(b[108..116], st.uid) && ShowsOctal(b[116..124], st.gid)
            && ShowsOctal(b[124..136], if link.None? && Format(st.mode) == 0x8000 then st.size else 0)
            && (0 <= st.mtime < 0x8000_0000 ==> ShowsOctal(b[136..148], st.mtime))
            && (st.mtime < 0 ==> ShowsOctal(b[136..148], 0))
            && Sealed(b) && AllOctal(b[148..154]) && b[154] == 0 && b[155] == 32
            && b[156] == (if link.Some? then 49
                          else if Format(st.mode) == 0x4000 then 53
                          else if Format(st.mode) == 0x2000 then 51
                          else if Format(st.mode) == 0x1000 then 54
                          else 48)
            && b[257..265] == [117, 115, 116, 97, 114, 32, 32, 0]
            && (forall i :: 265 <= i < 512 ==> b[i] == 0)
  {
    hide OctalField, Block, Sealed, ShowsOctal, Pow, Safe, StoredTime, Format, StrNCpy, OctalDigits, ChecksumShape;
    var h := HeaderFor(name, st, link).value;
    var b := Block(h);
    BlockFields(h);
    WrittenIsSealed(h);
    StoredTimeIs(st.mtime);
    NameOnTheWire(b, h.name);
    Powers();
    OctalFieldShows(h.mode, 8);
    OctalFieldShows(h.uid, 8);
    OctalFieldShows(h.gid, 8);
    OctalFieldShows(h.size, 12);
    OctalFieldShows(h.mtime, 12);
    ChecksumOnTheWire(h);
    assert forall i :: 265 <= i < 512 ==> b[i] == b[265..][i - 265];
  }

  /** Padding and trailer are zeroes. */
  lemma PaddingOnTheWire(job: Job, i: nat)
    requires i < |job.visits| && job.At(i).Emitted?
    ensures var data, p, n := job.Archive(), |job.Bytes(i)|, |job.At(i).body|;
            && p + 512 + n <= |job.Bytes(i + 1)| <= |data|
            && forall k :: p + 512 + n <= k < |job.Bytes(i + 1)| ==> data[k] == 0
  {
    hide Block, MaskPadding, Job.At, Job.Bytes, Job.Archive, EmissionOf;
    var e, z := job.At(i), Repeat(NUL, MaskPadding(|job.At(i).body|));
    BytesStep(job, i);
    ArchiveStarts(job, i + 1);
    var next := job.Bytes(i + 1);
    assert next == job.Bytes(i) + (Block(e.h) + e.body + z);
    forall k | |job.Bytes(i)| + 512 + |e.body| <= k < |next| ensures job.Archive()[k] == 0 {
      assert job.Archive()[k] == next[k] == z[k - (|job.Bytes(i)| + 512 + |e.body|)];
    }
  }

  lemma TrailerOnTheWire(job: Job)
    ensures var data, p := job.Archive(), |job.Bytes(|job.visits|)|;
            |data| == p + 1024 && forall k :: p <= k < |data| ==> data[k] == 0
  {
    hide Job.Bytes;
  }

  // ---------------------------------------------------------------- archives that are cut off

  lemma EmptyInPrefix(data: seq<byte>, k: nat, p: nat)
    requires EmptyAt(data, p) && p + 512 <= k <= |data|
    ensures EmptyAt(data[..k], p)
  {
  }

  lemma TooShort(data: seq<byte>, st: State)
    requires Aligned(st).pos + 512 > |data|
    ensures TurnOf(data, st, AcceptAll, true) == Stuck(ShortRead, [])
  {
  }

  lemma CutTrailer(job: Job, st: State, k: nat)
    requires k < |job.Archive()|
    requires Aligned(st) == State(|job.Bytes(|job.visits|)|, |job.Bytes(|job.visits|)|, false)
    ensures Run(job.Archive()[..k], st).fate == Broken(ShortRead)
  {
    hide Classify, TurnOf, Aligned, Run, Job.Bytes, Job.Archive, EmptyAt;
    var data, p := job.Archive()[..k], |job.Bytes(|job.visits|)|;
    TrailerBlocks(job);
    RunByTurns(data, st);
    if p + 512 <= k {
      EmptyInPrefix(job.Archive(), k, p);
      FlagFollowsBlock(data, st);
      var t := TurnOf(data, st, AcceptAll, true);
      RunByTurns(data, t.st);
      NoBlock(data, t.st);
      TooShort(data, t.st);
    } else {
      TooShort(data, st);
    }
  }

  lemma PortableLater(job: Job, i: nat)
    requires AllPortable(job) && i < |job.visits| && ArchivedAt(job, i)
    ensures PortableAt(job, i)
  {
    hide ArchivedAt, PortableAt, Sound;
  }

  /** From the start of visit i on, an archive that is cut off anywhere behind that is found to be too short. */
  lemma {:induction false} CutFrom(job: Job, i: nat, st: State, k: nat)
    requires i <= |job.visits| && AllPortable(job) && k < |job.Archive()|
    requires Aligned(st) == State(|job.Bytes(i)|, |job.Bytes(i)|, false)
    ensures Run(job.Archive()[..k], st).fate == Broken(ShortRead)
    decreases |job.visits| - i
  {
    hide Aligned, TurnOf, Run, Job.At, Job.Bytes, Job.Archive, Job.Links, PortableFrom, Sound, PortableAt, ArchivedAt;
    hide MemberFor, ReadAs, Strip, FoundLink, Expected;
    var data := job.Archive();
    if i == |job.visits| {
      CutTrailer(job, st, k);
    } else if !job.At(i).Emitted? {
      SilentVisit(job, i);
      CutFrom(job, i + 1, st, k);
    } else {
      var cut, whole := TurnOf(data[..k], st, AcceptAll, true), TurnOf(data, st, AcceptAll, true);
      TurnOfPrefix(data, k, st);
      RunByTurns(data[..k], st);
      OneMember(job, i, st);
      EmittedIsWritable(job, i);
      PortableStep(job, i);
      PortableLater(job, i);
      if cut == whole {
        BehindBody(job, i);
        CutFrom(job, i + 1, whole.st, k);
      }
    }
  }

  /**
   * An archive that is cut off anywhere never ends normally: the reader dies for want of bytes, and has handed on the
   * first of the archived entries only, the last of them perhaps with its body cut.
   */
  lemma CutArchiveIsNoticed(job: Job, k: nat)
    requires AllPortable(job) && k < |job.Archive()|
    ensures var cut := Run(job.Archive()[..k], START);
            cut.fate == Broken(ShortRead) && CutShort(cut.out, ExpectedFrom(job, 0))
  {
    hide Run, AllPortable, Job.Archive, ExpectedFrom, CutShort, Job.Bytes;
    PortableIsSound(job);
    ArchiveRoundTrip(job);
    StartState(job);
    CutFrom(job, 0, START, k);
    CuttingIsNoticed(job.Archive(), k, START);
  }
}

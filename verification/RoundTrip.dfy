/** What the writer puts into an archive is what the reader takes out of it. */
module RoundTrip {
  import opened Bytes
  import opened Numbers
  import opened Names
  import opened Header
  import opened HeaderBlock
  import Streams
  import opened Writer
  import opened Archive
  import Extract
  import opened Reader

  // ---------------------------------------------------------------- one header

  /** The name survives: a file's does not end in a slash, a directory's last component is not "..". */
  predicate NameKept(name: seq<byte>, isDir: bool) {
    if isDir then !EndsInDotDot(name) else !EndsWith(name, SLASH)
  }

  /** The member that a header for the entry should be read as. */
  function MemberFor(name: seq<byte>, st: Stat, link: Option<seq<byte>>): Member {
    Member(name, if link.Some? then Some(Cut(link.value)) else None,
           Format(st.mode) + st.mode % 4096,
           if link.None? && IsReg(st) then st.size else 0,
           st.uid, st.gid, StoredTime(st.mtime))
  }

  /** The block is read as the member. */
  predicate IsMember(head: Head, m: Member) {
    head.Entry? && head.m == m
  }

  /** A safe name that is not cut is left alone; the slash of a directory is all that is taken away. */
  lemma FinalNameOf(name: seq<byte>)
    requires Safe(name) && name != []
    ensures FinalName(name) == name <==> !EndsWith(name, SLASH)
    ensures FinalName(name + [SLASH]) == name <==> !EndsInDotDot(name)
  {
    SafeIsFixed(name);
    TrailingSlashSafe(name);
    var t := name + [SLASH];
    if EndsInDotDot(name) {
      assert DotDotAt(t, |name| - 2);
      assert StripPoint(t) >= |t|;
    } else {
      SafeIsFixed(t);
      assert t[..|t| - 1] == name;
    }
  }

  lemma TypeOfFlag(name: seq<byte>)
    ensures TypeBits(LNKTYPE, name) == (S_IFREG, true)
    ensures TypeBits(DIRTYPE, name) == (S_IFDIR, true)
    ensures TypeBits(CHRTYPE, name) == (S_IFCHR, true)
    ensures TypeBits(FIFOTYPE, name) == (0, true)
    ensures TypeBits(REGTYPE, name) == if EndsWith(name, SLASH) then (S_IFDIR, true) else (S_IFREG, false)
  {
  }

  lemma TimeFits(t: int)
    ensures 0 <= StoredTime(t) < TWO32
  {
  }

  lemma DirectoryNameFits(name: seq<byte>)
    requires NoNul(name) && |name| < NAME_SIZE
    ensures NoNul(name + [SLASH]) && |name + [SLASH]| <= NAME_SIZE
  {
  }

  /**
   * The member that the header of an entry is read as, whatever the entry is: a link always as a file, a file whose
   * name ends in a slash as a directory, a FIFO without a type.
   */
  function ReadAs(name: seq<byte>, st: Stat, link: Option<seq<byte>>): Member {
    var (bits, size) :=
      if link.Some? then (S_IFREG, 0)
      else if IsReg(st) && !EndsWith(name, SLASH) then (S_IFREG, st.size)
      else if IsReg(st) || IsDir(st) then (S_IFDIR, 0)
      else if Format(st.mode) == S_IFCHR then (S_IFCHR, 0)
      else (0, 0);
    Member(if link.None? && IsDir(st) then FinalName(name + [SLASH]) else CutSlash(name),
           if link.Some? then Some(Cut(link.value)) else None,
           bits + st.mode % 4096, size, st.uid, st.gid, StoredTime(st.mtime))
  }

  /** What can be written: a real name that fits, a link to a real name, and never a link for a directory. */
  predicate Writable(name: seq<byte>, st: Stat, link: Option<seq<byte>>) {
    && name != [] && |name| < 100 && NoNul(name) && Safe(name)
    && HeaderFor(name, st, link).Some?
    && (link.Some? ==> link.value != [] && NoNul(link.value) && !IsDir(st))
  }

  lemma WritableIsStorable(name: seq<byte>, st: Stat, link: Option<seq<byte>>)
    requires Writable(name, st, link)
    ensures Storable(HeaderFor(name, st, link).value)
  {
    hide StoredTime, Safe;
    TimeFits(st.mtime);
    DirectoryNameFits(name);
  }

  /** Every header the writer emits is read as the member ReadAs describes. */
  lemma HeaderIsReadAs(name: seq<byte>, st: Stat, link: Option<seq<byte>>)
    requires Writable(name, st, link)
    ensures IsMember(Classify(Block(HeaderFor(name, st, link).value)), ReadAs(name, st, link))
  {
    hide Block, Classify, StoredTime, TypeBits, Cut, EndsWith, Safe, Strip, Storable, CutSlash;
    var h := HeaderFor(name, st, link).value;
    WritableIsStorable(name, st, link);
    HeaderRoundTrip(h);
    TypeOfFlag(h.name);
    SafeIsFixed(name);
    RegIsNotDir(st);
  }

  /** The type survives: FIFOs lose theirs, and a link to anything but a file becomes a file. */
  predicate TypeKept(st: Stat, link: Option<seq<byte>>) {
    if link.Some? then IsReg(st) else Format(st.mode) != S_IFIFO
  }

  lemma FormatsOf(st: Stat)
    ensures IsReg(st) <==> Format(st.mode) == S_IFREG
    ensures IsDir(st) <==> Format(st.mode) == S_IFDIR
    ensures S_IFIFO !in {0, S_IFREG, S_IFDIR, S_IFCHR} && S_IFREG !in {0, S_IFDIR, S_IFCHR}
  {
  }

  lemma WritableHasHeader(name: seq<byte>, st: Stat, link: Option<seq<byte>>)
    requires Writable(name, st, link)
    ensures HeaderFor(name, st, link).Some?
  {
  }

  lemma ReadAsIsMemberFor(name: seq<byte>, st: Stat, link: Option<seq<byte>>)
    requires Writable(name, st, link)
    ensures ReadAs(name, st, link) == MemberFor(name, st, link)
            <==> NameKept(name, IsDir(st)) && TypeKept(st, link)
  {
    hide StoredTime, Cut, EndsInDotDot, Safe, Strip, Format, IsReg, IsDir;
    FinalNameOf(name);
    SafeIsFixed(name);
    FormatsOf(st);
    assert FinalName(name) == CutSlash(name);
  }

  /**
   * Name, type, masked mode, owner, time, link target and size of an entry come back as they were written exactly if
   * its name and its type survive.
   */
  lemma EntryReadsBackExactly(name: seq<byte>, st: Stat, link: Option<seq<byte>>)
    requires Writable(name, st, link)
    ensures IsMember(Classify(Block(HeaderFor(name, st, link).value)), MemberFor(name, st, link))
            <==> NameKept(name, IsDir(st)) && TypeKept(st, link)
  {
    hide Block, Classify, ReadAs, MemberFor, HeaderFor, NameKept, TypeKept, Writable;
    WritableHasHeader(name, st, link);
    HeaderIsReadAs(name, st, link);
    ReadAsIsMemberFor(name, st, link);
  }

  /** The time that is stored is the clamped one exactly while it fits 32 bits. */
  lemma TimeKeptExactly(t: int)
    ensures StoredTime(t) == (if t >= 0 then t else 0) <==> t < TWO32
  {
  }

  // ---------------------------------------------------------------- whole archives

  /** The entry goes into the archive: usable name, known type, not the archive itself, openable if it has a body. */
  predicate Archived(job: Job, v: Visit, link: Option<seq<byte>>) {
    && 0 < |Strip(v.fileName)| < 100
    && !(v.stat.dev == job.tarDev && v.stat.ino == job.tarIno)
    && (link.Some? || Format(v.stat.mode) in {S_IFREG, S_IFDIR, S_IFCHR, S_IFIFO})
    && (link.None? && IsReg(v.stat) ==> v.readable)
  }

  /** The name and the type of the entry survive. */
  predicate Portable(v: Visit, link: Option<seq<byte>>) {
    NameKept(Strip(v.fileName), IsDir(v.stat)) && TypeKept(v.stat, link)
  }

  /** The archive can be finished: names are strings, and files are as long as they claim. */
  predicate Sound(job: Job) {
    FilesComplete(job) && forall i :: 0 <= i < |job.visits| ==> NoNul(job.visits[i].fileName)
  }

  /** Visit i goes into the archive. */
  predicate ArchivedAt(job: Job, i: nat)
    requires i < |job.visits|
  {
    Archived(job, job.visits[i], FoundLink(job.Links(i), job.visits[i]))
  }

  predicate PortableAt(job: Job, i: nat)
    requires i < |job.visits|
  {
    Portable(job.visits[i], FoundLink(job.Links(i), job.visits[i]))
  }

  /** Whatever goes into the archive from visit n on is portable. */
  predicate PortableFrom(job: Job, n: nat) {
    forall i :: n <= i < |job.visits| && ArchivedAt(job, i) ==> PortableAt(job, i)
  }

  predicate AllPortable(job: Job) {
    Sound(job) && PortableFrom(job, 0)
  }

  /** The body that follows its header. */
  function BodyFor(v: Visit, link: Option<seq<byte>>): seq<byte> {
    if link.None? && IsReg(v.stat) && v.stat.size <= |v.content| then v.content[..v.stat.size] else []
  }

  /** What the reader should hand on for visit i. */
  function Expected(job: Job, i: nat): seq<Extract.Delivery>
    requires i < |job.visits|
  {
    var v, link := job.visits[i], FoundLink(job.Links(i), job.visits[i]);
    if !ArchivedAt(job, i) then []
    else [Extract.Delivery(MemberFor(Strip(v.fileName), v.stat, link), BodyFor(v, link))]
  }

  function ExpectedFrom(job: Job, i: nat): seq<Extract.Delivery>
    requires i <= |job.visits|
    decreases |job.visits| - i
  {
    if i == |job.visits| then [] else Expected(job, i) + ExpectedFrom(job, i + 1)
  }

  lemma {:induction false} BytesGrow(job: Job, i: nat, j: nat)
    requires i <= j <= |job.visits|
    ensures job.Bytes(i) <= job.Bytes(j)
  {
    hide EmissionOf, Wire, Job.At;
    if i < j {
      BytesGrow(job, i, j - 1);
    }
  }

  lemma BytesStep(job: Job, i: nat)
    requires i < |job.visits|
    ensures job.Bytes(i + 1) == job.Bytes(i) + Wire(job.At(i))
  {
  }

  lemma ArchiveStarts(job: Job, i: nat)
    requires i <= |job.visits|
    ensures job.Bytes(i) <= job.Archive()
  {
    hide EmissionOf, Wire;
    BytesGrow(job, i, |job.visits|);
    hide Job.Bytes;
    var a, b, z := job.Bytes(i), job.Bytes(|job.visits|), Repeat(NUL, 2 * BLOCK);
    assert (b + z)[..|a|] == b[..|a|];
  }

  lemma Cells(base: seq<byte>, b: seq<byte>, body: seq<byte>, z: seq<byte>, all: seq<byte>)
    requires |b| == BLOCK && base + (b + body + z) <= all
    ensures var p := |base|;
            && p + BLOCK + |body| <= |all|
            && all[p..p + BLOCK] == b
            && all[p + BLOCK..p + BLOCK + |body|] == body
  {
  }

  /** The header and the body of visit i where they stand in the finished archive. */
  lemma InPlace(job: Job, i: nat)
    requires i < |job.visits| && job.At(i).Emitted?
    ensures var data, p, e := job.Archive(), |job.Bytes(i)|, job.At(i);
            && p + BLOCK + |e.body| <= |data|
            && data[p..p + BLOCK] == Block(e.h)
            && data[p + BLOCK..p + BLOCK + |e.body|] == e.body
            && |job.Bytes(i + 1)| == p + BLOCK + |e.body| + MaskPadding(|e.body|)
  {
    hide Block, MaskPadding, Job.At, Job.Bytes, Job.Archive, EmissionOf, Repeat;
    var e := job.At(i);
    BytesStep(job, i);
    ArchiveStarts(job, i + 1);
    Cells(job.Bytes(i), Block(e.h), e.body, Repeat(NUL, MaskPadding(|e.body|)), job.Archive());
  }

  lemma StripKeepsString(s: seq<byte>)
    requires NoNul(s)
    ensures NoNul(Strip(s))
  {
    hide StripPoint;
  }

  /** Table entries are real strings. */
  lemma LinkIsString(job: Job, i: nat)
    requires i < |job.visits| && Sound(job)
    ensures var link := FoundLink(job.Links(i), job.visits[i]);
            link.Some? ==> link.value != [] && NoNul(link.value) && !IsDir(job.visits[i].stat)
  {
    hide Strip, EmissionOf, FilesComplete;
    var v := job.visits[i];
    TableIsFirstSeen(job, i, v.stat.dev, v.stat.ino);
    var r := job.FirstSeen(i, v.stat.dev, v.stat.ino);
    if r.Some? {
      StripKeepsString(job.visits[r.value].fileName);
    }
  }

  lemma EmittedShape(job: Job, i: nat)
    requires i < |job.visits| && job.At(i).Emitted? && NoNul(job.visits[i].fileName)
    ensures var v, name := job.visits[i], Strip(job.visits[i].fileName);
            var link := FoundLink(job.Links(i), v);
            && name != [] && |name| < NAME_SIZE && NoNul(name) && Safe(name)
            && HeaderFor(name, v.stat, link) == Some(job.At(i).h)
            && |job.At(i).body| == MemberFor(name, v.stat, link).size
            && job.At(i).body == BodyFor(v, link)
  {
    hide Strip, FoundLink, HeaderFor, NameKept;
    StripKeepsString(job.visits[i].fileName);
    StripIdempotent(job.visits[i].fileName);
  }

  lemma ArchivedIsEmitted(job: Job, i: nat)
    requires i < |job.visits| && !job.At(i).Truncated?
    ensures ArchivedAt(job, i) <==> job.At(i).Emitted?
  {
    hide Strip, FoundLink, NameKept, StoredTime;
  }

  /** A header that is read as member m, followed by its body. */
  lemma MemberTurn(data: seq<byte>, st: State, b: seq<byte>, body: seq<byte>, m: Member)
    requires var p := Aligned(st).pos;
             && |b| == BLOCK && Aligned(st).offset == p && p + BLOCK + |body| <= |data|
             && data[p..p + BLOCK] == b && data[p + BLOCK..p + BLOCK + |body|] == body
    requires IsMember(Classify(b), m) && Streams.Abs(m.size) == |body|
    ensures var p := Aligned(st).pos + BLOCK;
            TurnOf(data, st, AcceptAll, true)
            == Next(State(p + |body|, p + m.size, false), false, [Extract.Delivery(m, body)], m.size, false)
  {
    hide Aligned, Classify;
  }

  /** What is written for visit i. */
  lemma EmittedIsWritable(job: Job, i: nat)
    requires i < |job.visits| && Sound(job) && job.At(i).Emitted?
    ensures var v, name := job.visits[i], Strip(job.visits[i].fileName);
            var link := FoundLink(job.Links(i), v);
            && Writable(name, v.stat, link)
            && HeaderFor(name, v.stat, link) == Some(job.At(i).h)
            && |job.At(i).body| == MemberFor(name, v.stat, link).size
            && job.At(i).body == BodyFor(v, link)
            && ArchivedAt(job, i)
  {
    hide Job.At, Job.Links, FoundLink, HeaderFor, Strip, MemberFor, BodyFor, ArchivedAt, FilesComplete, Safe, IsDir;
    assert NoNul(job.visits[i].fileName) && !job.At(i).Truncated?;
    EmittedShape(job, i);
    LinkIsString(job, i);
    ArchivedIsEmitted(job, i);
  }

  lemma ReadAsSize(name: seq<byte>, st: Stat, link: Option<seq<byte>>)
    ensures ReadAs(name, st, link).size == 0 || ReadAs(name, st, link).size == MemberFor(name, st, link).size
  {
    hide Format, Strip, StoredTime, Cut;
  }

  /** The reader at the start of visit i's header hands on one member, read as the header says. */
  lemma OneMember(job: Job, i: nat, st: State)
    requires i < |job.visits| && Sound(job) && job.At(i).Emitted?
    requires Aligned(st).pos == Aligned(st).offset == |job.Bytes(i)|
    ensures var t := TurnOf(job.Archive(), st, AcceptAll, true);
            var v, n := job.visits[i], |job.Bytes(i)| + BLOCK + |job.At(i).body|;
            var link := FoundLink(job.Links(i), v);
            && t.Next? && !t.again && |t.out| == 1
            && t.out[0].m == ReadAs(Strip(v.fileName), v.stat, link)
            && (PortableAt(job, i) ==> t.st == State(n, n, false) && t.out == Expected(job, i))
            && (!PortableAt(job, i) ==> t.out[0].m != MemberFor(Strip(v.fileName), v.stat, link))
  {
    hide Aligned, Classify, Block, MemberFor, FoundLink, HeaderFor, Strip, NameKept, TypeKept, EmissionOf, TurnOf;
    hide Job.At, Job.Bytes, Job.Archive, Job.Links, Writable, ReadAs, Sound, ArchivedAt, IsMember, IsDir, BodyFor;
    var v, e := job.visits[i], job.At(i);
    var name, link := Strip(v.fileName), FoundLink(job.Links(i), v);
    InPlace(job, i);
    EmittedIsWritable(job, i);
    HeaderIsReadAs(name, v.stat, link);
    ReadAsIsMemberFor(name, v.stat, link);
    ReadAsSize(name, v.stat, link);
    var m, p := ReadAs(name, v.stat, link), |job.Bytes(i)| + BLOCK;
    var body := if m.size == 0 then [] else e.body;
    assert job.Archive()[p..p + |body|] == body;
    MemberTurn(job.Archive(), st, Block(e.h), body, m);
  }

  /** Behind a body the alignment leads to the next header. */
  lemma AlignsToNext(p: nat, n: nat, end: bool)
    requires p % 512 == 0
    ensures var q := p + BLOCK + n;
            var next := q + MaskPadding(n);
            Aligned(State(q, q, end)) == State(next, next, end)
    ensures Aligned(State(p, p, end)) == State(p, p, end)
  {
  }

  lemma TrailerBlocks(job: Job)
    ensures var data, p := job.Archive(), |job.Bytes(|job.visits|)|;
            EmptyAt(data, p) && EmptyAt(data, p + BLOCK) && |data| == p + 2 * BLOCK
  {
    hide Job.Bytes;
  }

  /** Two blocks of zeroes end the run. */
  lemma Trailer(job: Job, st: State)
    requires Aligned(st) == State(|job.Bytes(|job.visits|)|, |job.Bytes(|job.visits|)|, false)
    ensures Run(job.Archive(), st) == RunResult([], Finished)
  {
    hide Classify, TurnOf, Aligned, Run, Job.Bytes, Job.Archive, EmptyAt;
    var data, p := job.Archive(), |job.Bytes(|job.visits|)|;
    TrailerBlocks(job);
    FlagFollowsBlock(data, st);
    RunByTurns(data, st);
    var t := TurnOf(data, st, AcceptAll, true);
    FlagFollowsBlock(data, t.st);
    RunByTurns(data, t.st);
  }

  lemma SilentVisit(job: Job, i: nat)
    requires i < |job.visits| && Sound(job) && !job.At(i).Emitted?
    ensures job.Bytes(i + 1) == job.Bytes(i) && !ArchivedAt(job, i) && Expected(job, i) == []
  {
    BytesStep(job, i);
    assert !job.At(i).Truncated?;
    ArchivedIsEmitted(job, i);
    hide Job.Bytes, Job.At, Job.Links, ArchivedAt;
    assert job.Bytes(i) + [] == job.Bytes(i);
  }

  lemma PortableStep(job: Job, i: nat)
    requires i < |job.visits|
    ensures PortableFrom(job, i) <==> (ArchivedAt(job, i) ==> PortableAt(job, i)) && PortableFrom(job, i + 1)
  {
    hide ArchivedAt, PortableAt;
  }

  lemma SameHead(a: seq<Extract.Delivery>, x: seq<Extract.Delivery>, b: seq<Extract.Delivery>,
                 y: seq<Extract.Delivery>)
    requires |a| == |b| == 1
    ensures a + x == b + y <==> a == b && x == y
  {
    assert a == (a + x)[..1] && b == (b + y)[..1];
    assert x == (a + x)[1..] && y == (b + y)[1..];
  }

  lemma NothingLeft(job: Job)
    ensures PortableFrom(job, |job.visits|)
  {
  }

  lemma ExpectedHead(job: Job, i: nat)
    requires i < |job.visits| && ArchivedAt(job, i)
    ensures |Expected(job, i)| == 1
    ensures var v := job.visits[i];
            Expected(job, i)[0].m == MemberFor(Strip(v.fileName), v.stat, FoundLink(job.Links(i), v))
  {
    hide ArchivedAt, MemberFor, FoundLink, BodyFor, Strip;
  }

  /** Behind a member's body the alignment leads to the next visit. */
  lemma BehindBody(job: Job, i: nat)
    requires i < |job.visits| && job.At(i).Emitted?
    ensures var n, next := |job.Bytes(i)| + BLOCK + |job.At(i).body|, |job.Bytes(i + 1)|;
            Aligned(State(n, n, false)) == State(next, next, false)
  {
    hide Aligned, MaskPadding, Job.At, Job.Bytes, Job.Archive;
    SizeConservation(job, i);
    InPlace(job, i);
    AlignsToNext(|job.Bytes(i)|, |job.At(i).body|, false);
  }

  /** From the start of visit i on, what is expected comes back exactly if everything from there on is portable. */
  lemma {:induction false} ReadFrom(job: Job, i: nat, st: State)
    requires i <= |job.visits| && Sound(job)
    requires Aligned(st) == State(|job.Bytes(i)|, |job.Bytes(i)|, false)
    ensures Run(job.Archive(), st) == RunResult(ExpectedFrom(job, i), Finished) <==> PortableFrom(job, i)
    decreases |job.visits| - i
  {
    hide Aligned, TurnOf, Run, MaskPadding, Expected, Sound, PortableAt, ArchivedAt, PortableFrom;
    hide Job.At, Job.Bytes, Job.Archive, Job.Links, FoundLink, MemberFor, ReadAs, Strip;
    if i == |job.visits| {
      Trailer(job, st);
      NothingLeft(job);
    } else if !job.At(i).Emitted? {
      SilentVisit(job, i);
      PortableStep(job, i);
      ReadFrom(job, i + 1, st);
      assert [] + ExpectedFrom(job, i + 1) == ExpectedFrom(job, i + 1);
    } else {
      var data := job.Archive();
      var t := TurnOf(data, st, AcceptAll, true);
      OneMember(job, i, st);
      RunByTurns(data, st);
      EmittedIsWritable(job, i);
      PortableStep(job, i);
      ExpectedHead(job, i);
      SameHead(t.out, Run(data, t.st).out, Expected(job, i), ExpectedFrom(job, i + 1));
      if PortableAt(job, i) {
        BehindBody(job, i);
        ReadFrom(job, i + 1, t.st);
      }
    }
  }

  lemma StartState(job: Job)
    ensures Aligned(START) == State(|job.Bytes(0)|, |job.Bytes(0)|, false)
  {
  }

  lemma PortableThroughout(job: Job)
    ensures AllPortable(job) <==> Sound(job) && PortableFrom(job, 0)
  {
  }

  /**
   * Whole-archive round trip: the extraction loop on a finished archive hands on exactly the entries that were
   * archived, in order, with the same names, types, modes, owners, stored times, sizes, link targets and bodies, and
   * then ends normally, if and only if every archived entry is portable.
   */
  lemma ArchiveRoundTrip(job: Job)
    requires Sound(job)
    ensures Run(job.Archive(), START) == RunResult(ExpectedFrom(job, 0), Finished) <==> AllPortable(job)
  {
    hide *;
    PortableThroughout(job);
    StartState(job);
    ReadFrom(job, 0, START);
  }

  // ---------------------------------------------------------------- what does not come back

  function PlainFile(name: seq<byte>): Fields {
    Fields(name, 0, 0, 0, 0, 0, REGTYPE, [])
  }

  /** The header of an empty file "a", with another number in base-256 in its size field. */
  function SizedHeader(size: int): (b: seq<byte>)
    ensures |b| == BLOCK
  {
    var p := Plain(PlainFile([97]));
    Stamp(p[..124] + Base256Field(size, 12) + p[136..])
  }

  /** The negative numbers of 32 bits fit the size field. */
  lemma SizeFits(size: int)
    requires -TWO31 <= size < 0
    ensures -64 * Pow(256, 11) <= size < 64 * Pow(256, 11)
    ensures ToOffT(size % TWO64) == size
  {
    PowMonotone(256, 4, 11);
    assert Pow(256, 4) == 4294967296;
  }

  lemma SizedLayout(plain: seq<byte>, f: seq<byte>, p: seq<byte>, h: Fields)
    requires IsPlain(plain, h) && |f| == 12 && p == plain[..124] + f + plain[136..]
    ensures |p| == BLOCK && p[124..136] == f && p[..100] == StrNCpy(h.name, 100)
    ensures p[100..108] == OctalField(h.mode, 8) && p[108..116] == OctalField(h.uid, 8)
    ensures p[116..124] == OctalField(h.gid, 8) && p[136..148] == OctalField(h.mtime, 12)
    ensures p[148..156] == Repeat(BLANK, 8) && p[156] == h.typeflag
    ensures p[157..257] == StrNCpy(h.linkname, 100) && p[329] == NUL && p[345] == NUL
  {
    hide StrNCpy, OctalField;
    assert p[329] == plain[265..][64] && p[345] == plain[265..][80];
  }

  /** Stamping changes the checksum field only. */
  lemma StampKeeps(p: seq<byte>)
    requires |p| == BLOCK
    ensures Stamp(p)[..148] == p[..148] && Stamp(p)[156..] == p[156..]
    ensures forall i, j :: 0 <= i <= j <= 148 || 156 <= i <= j <= BLOCK ==> Stamp(p)[i..j] == p[i..j]
    ensures forall i :: 156 <= i < BLOCK ==> Stamp(p)[i] == p[i]
  {
    hide OctalField, Sum;
  }

  lemma NameStarts(name: seq<byte>)
    ensures 0 < |name| <= 100 ==> StrNCpy(name, 100)[0] == name[0]
  {
  }

  lemma SizedFields(size: int)
    ensures var h, b := PlainFile([97]), SizedHeader(size);
            && b[..100] == StrNCpy(h.name, 100)
            && b[100..108] == OctalField(0, 8) && b[108..116] == OctalField(0, 8)
            && b[116..124] == OctalField(0, 8) && b[124..136] == Base256Field(size, 12)
            && b[136..148] == OctalField(0, 12)
            && b[156] == REGTYPE && b[157] == NUL && b[329] == NUL && b[345] == NUL && b[0] == 97
    ensures ChecksumOk(SizedHeader(size))
  {
    hide StrNCpy, OctalField, Base256Field, Plain, Stamp, ChecksumOk;
    var h := PlainFile([97]);
    PlainHasLayout(h);
    var p := Plain(h)[..124] + Base256Field(size, 12) + Plain(h)[136..];
    SizedLayout(Plain(h), Base256Field(size, 12), p, h);
    ChecksumAgrees(p);
    StampKeeps(p);
    CutReadsBack(h.linkname);
    CutReadsBack(h.name);
    var b := SizedHeader(size);
    assert b[157] == b[157..257][0];
    assert b[0] == b[..100][0];
    NameStarts(h.name);
  }

  lemma SafeName97()
    ensures FinalName([97]) == [97] && !EndsWith([97], SLASH)
  {
    SafeIsFixed([97]);
  }

  lemma SizedNumbers(size: int)
    requires -TWO31 <= size < 0
    ensures FieldValue(OctalField(0, 8)) == FieldValue(OctalField(0, 12)) == Some(0)
    ensures FieldValue(Base256Field(size, 12)).Some?
    ensures ToOffT(FieldValue(Base256Field(size, 12)).value) == size
    ensures CStr(StrNCpy([97], 100)) == [97]
  {
    hide FieldValue, OctalField, Base256Field, StrNCpy, Pow, CStr, ToOffT;
    SizeFits(size);
    Base256RoundTrip(size, 12);
    BlockNumbers(PlainFile([97]));
    CutReadsBack([97]);
  }

  lemma SizedDecodes(size: int)
    requires -TWO31 <= size < 0
    ensures PureDecode(SizedHeader(size)) == Some(Decoded(None, None, 0, size, 0, 0, 0, Some([97])))
  {
    hide SizedHeader, FieldValue, OctalField, Base256Field, ChecksumOk, StrNCpy, CStr, Concat;
    SizedFields(size);
    SizedNumbers(size);
  }

  lemma SizedIsRead(size: int)
    requires -TWO31 <= size < 0
    ensures IsMember(Classify(SizedHeader(size)), Member([97], None, S_IFREG, size, 0, 0, 0))
  {
    hide SizedHeader, OctalField, Base256Field, ChecksumOk, PureDecode, StrNCpy, FinalName, Strip, EndsWith;
    SizedFields(size);
    SizedDecodes(size);
    SafeName97();
  }

  lemma FirstHeader(data: seq<byte>)
    ensures var t := TurnOf(data, START, AcceptAll, true);
            t.Next? && !t.again ==> After(data, 1) == Some((t.st, t.out))
  {
    hide TurnOf;
    var t := TurnOf(data, START, AcceptAll, true);
    assert After(data, 0) == Some((START, []));
    if t.Next? && !t.again {
      assert [] + t.out == t.out;
    }
  }

  lemma StartIsAligned()
    ensures Aligned(START) == START == State(0, 0, false)
  {
  }

  /** A stream that starts with one member. */
  lemma FirstMember(b: seq<byte>, body: seq<byte>, m: Member)
    requires |b| == BLOCK && IsMember(Classify(b), m) && Streams.Abs(m.size) == |body|
    ensures After(b + body, 1)
            == Some((State(BLOCK + |body|, BLOCK + m.size, false), [Extract.Delivery(m, body)]))
  {
    hide Classify, Aligned, TurnOf, After, Get, IsMember, Streams.Abs;
    var data := b + body;
    assert data[0..BLOCK] == b && data[BLOCK..BLOCK + |body|] == body;
    StartIsAligned();
    MemberTurn(data, START, b, body, m);
    FirstHeader(data);
  }

  /** A member with a negative size is delivered, and from then on the count is not the position. */
  lemma NegativeSizeIsDelivered(body: seq<byte>)
    requires 0 < |body| <= TWO31
    ensures var n := |body|;
            After(SizedHeader(-n) + body, 1)
            == Some((State(BLOCK + n, BLOCK - n, false),
                     [Extract.Delivery(Member([97], None, S_IFREG, -n, 0, 0, 0), body)]))
  {
    assert Streams.Abs(-|body|) == |body|;
    hide *;
    SizedIsRead(-|body|);
    FirstMember(SizedHeader(-|body|), body, Member([97], None, S_IFREG, -|body|, 0, 0, 0));
  }

  /** The file "a/" comes back as the empty directory "a". */
  lemma SlashedFileIsDirectory(st: Stat)
    requires IsReg(st)
    ensures var h := HeaderFor([97, SLASH], st, None);
            h.Some? && IsMember(Classify(Block(h.value)),
                                Member([97], None, S_IFDIR + st.mode % 4096, 0, st.uid, st.gid, StoredTime(st.mtime)))
  {
    hide Block, Classify, StoredTime, StripPoint;
    var name: seq<byte> := [97, SLASH];
    TimeFits(st.mtime);
    RegIsNotDir(st);
    HeaderRoundTrip(HeaderFor(name, st, None).value);
    SafeIsFixed(name);
    assert CutSlash(name) == [97];
  }

  lemma DotDotIsAllUnsafe(s: seq<byte>)
    requires s == [DOT, DOT, SLASH]
    ensures Strip(s) == []
  {
    assert DotDotAt(s, 0);
    assert StripPoint(s) >= 3;
  }

  /** The directory ".." comes back without a name. */
  lemma DotDotLosesItsName(st: Stat)
    requires IsDir(st)
    ensures var h := HeaderFor([DOT, DOT], st, None);
            h.Some? && IsMember(Classify(Block(h.value)),
                                Member([], None, S_IFDIR + st.mode % 4096, 0, st.uid, st.gid, StoredTime(st.mtime)))
  {
    hide Block, Classify, StoredTime, StripPoint;
    var name: seq<byte> := [DOT, DOT];
    TimeFits(st.mtime);
    HeaderRoundTrip(HeaderFor(name, st, None).value);
    DotDotIsAllUnsafe(name + [SLASH]);
  }

  /** The first time that is not kept: 2^32 seconds are stored as none. */
  lemma FirstTimeLost()
    ensures StoredTime(TWO32) == 0
  {
  }

  /** The FIFO "a" comes back without a type. */
  lemma FifoLosesItsType(st: Stat)
    requires Format(st.mode) == S_IFIFO
    ensures var h := HeaderFor([97], st, None);
            h.Some? && IsMember(Classify(Block(h.value)),
                                Member([97], None, st.mode % 4096, 0, st.uid, st.gid, StoredTime(st.mtime)))
  {
    hide Block, Classify, StoredTime, StripPoint;
    SafeIsFixed([97]);
    HeaderIsReadAs([97], st, None);
  }

  /** A second name "b" of the character device "a" comes back as a file. */
  lemma LinkToDeviceIsFile(st: Stat)
    requires Format(st.mode) == S_IFCHR
    ensures var h := HeaderFor([98], st, Some([97]));
            h.Some? && IsMember(Classify(Block(h.value)), Member([98], Some([97]), S_IFREG + st.mode % 4096, 0,
                                                                 st.uid, st.gid, StoredTime(st.mtime)))
  {
    hide Block, Classify, StoredTime, StripPoint;
    SafeIsFixed([98]);
    HeaderIsReadAs([98], st, Some([97]));
  }

  lemma FirstBodiless(b: seq<byte>, m: Member)
    requires |b| == BLOCK && IsMember(Classify(b), m) && m.size == 0
    ensures After(b, 1) == Some((State(BLOCK, BLOCK, false), [Extract.Delivery(m, [])]))
  {
    hide Classify, After, IsMember;
    FirstMember(b, [], m);
    assert b + [] == b;
  }

  lemma DotDotFileIsRead()
    ensures IsMember(Classify(Block(PlainFile([DOT, DOT]))), Member([DOT, DOT], None, S_IFREG, 0, 0, 0, 0))
  {
    hide Block, Classify, StripPoint;
    SafeIsFixed([DOT, DOT]);
    HeaderRoundTrip(PlainFile([DOT, DOT]));
  }

  /** A name whose last component is ".." is delivered as it is. */
  lemma LastDotDotIsDelivered()
    ensures After(Block(PlainFile([DOT, DOT])), 1)
            == Some((State(BLOCK, BLOCK, false),
                     [Extract.Delivery(Member([DOT, DOT], None, S_IFREG, 0, 0, 0, 0), [])]))
  {
    hide *;
    DotDotFileIsRead();
    FirstBodiless(Block(PlainFile([DOT, DOT])), Member([DOT, DOT], None, S_IFREG, 0, 0, 0, 0));
  }
}

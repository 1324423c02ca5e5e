/** Whole runs of the writer: the archive they leave behind and the hard-link table along the way. */
module Archive {
  import opened Bytes
  import opened Names
  import opened Header
  import opened Writer

  /** What the writer is asked to archive: the visits in order, and the identity of the archive file itself. */
  datatype Job = Job(visits: seq<Visit>, tarDev: nat, tarIno: nat) {

    /** The hard-link table before visit i. */
    function Links(i: nat): seq<LinkInfo>
      requires i <= |visits|
    {
      if i == 0 then [] else LinksAfter(Links(i - 1), visits[i - 1])
    }

    /** What visit i adds. */
    function At(i: nat): Emission
      requires i < |visits|
    {
      EmissionOf(Links(i), visits[i], tarDev, tarIno)
    }

    /** The archive before visit i. */
    function Bytes(i: nat): seq<byte>
      requires i <= |visits|
    {
      if i == 0 then [] else Bytes(i - 1) + Wire(At(i - 1))
    }

    /** The finished archive. */
    function Archive(): seq<byte> {
      Bytes(|visits|) + Repeat(NUL, 2 * BLOCK)
    }

    /** The member headers before visit i, and the blocks their bodies take. */
    function Members(i: nat): nat
      requires i <= |visits|
    {
      if i == 0 then 0 else Members(i - 1) + if At(i - 1).Emitted? then 1 else 0
    }

    function BodyBytes(i: nat): int
      requires i <= |visits|
    {
      if i == 0 then 0 else BodyBytes(i - 1) + if At(i - 1).Emitted? then RoundUp(|At(i - 1).body|) else 0
    }

    /** The first tracked visit before i with the given device and inode. */
    function FirstSeen(i: nat, dev: nat, ino: nat): (r: Option<nat>)
      requires i <= |visits|
      ensures r.Some? ==> r.value < i && SameFile(r.value, dev, ino) && Tracked(visits[r.value])
      ensures r.Some? ==> forall j :: 0 <= j < r.value && SameFile(j, dev, ino) ==> !Tracked(visits[j])
      ensures r.None? ==> forall j :: 0 <= j < i && SameFile(j, dev, ino) ==> !Tracked(visits[j])
    {
      if i == 0 then None
      else
        var r := FirstSeen(i - 1, dev, ino);
        if r.Some? then r
        else if SameFile(i - 1, dev, ino) && Tracked(visits[i - 1]) then Some(i - 1)
        else None
    }

    predicate SameFile(j: nat, dev: nat, ino: nat) {
      j < |visits| && visits[j].stat.dev == dev && visits[j].stat.ino == ino
    }
  }

  // ---------------------------------------------------------------- the writer along the way

  /** No file that is archived is shorter than its stat says. */
  predicate FilesComplete(job: Job) {
    forall i :: 0 <= i < |job.visits| ==> !job.At(i).Truncated?
  }

  /** Every body can be read to its end. */
  predicate FilesReadable(job: Job) {
    FilesComplete(job) && forall i :: 0 <= i < |job.visits| && HasBody(job.At(i)) ==> !job.visits[i].failing
  }

  /** Some visit from i on, but before j, has failed. */
  predicate SomeFailed(job: Job, i: nat, j: nat)
    requires j <= |job.visits|
  {
    exists n :: i <= n < j && job.At(n).Failed?
  }

  /** Where the writer stands after some visits: the table and the archive are those of the job so far. */
  ghost predicate Progress(tb: TarBallInfo, start: seq<byte>, done: seq<Visit>)
    reads tb, tb.tarFd
  {
    var job := Job(done, tb.tarDev, tb.tarIno);
    && tb.hlInfoHead == job.Links(|done|)
    && tb.tarFd.content == start + job.Bytes(|done|)
    && FilesComplete(job)
  }

  /** What a job has done so far does not depend on the visits to come. */
  lemma {:induction false} SamePast(job: Job, more: seq<Visit>, i: nat)
    requires i <= |job.visits|
    ensures job.(visits := job.visits + more).Links(i) == job.Links(i)
    ensures job.(visits := job.visits + more).Bytes(i) == job.Bytes(i)
  {
    hide LinksAfter, EmissionOf, Wire;
    if i > 0 {
      SamePast(job, more, i - 1);
    }
  }

  lemma SameEmission(job: Job, more: seq<Visit>, i: nat)
    requires i < |job.visits|
    ensures job.(visits := job.visits + more).At(i) == job.At(i)
  {
    hide Job.Links, EmissionOf;
    SamePast(job, more, i);
  }

  lemma CompleteStep(job: Job, v: Visit)
    ensures var next, n := job.(visits := job.visits + [v]), |job.visits|;
            FilesComplete(next) <==> FilesComplete(job) && !next.At(n).Truncated?
  {
    hide Job.At;
    var next, n := job.(visits := job.visits + [v]), |job.visits|;
    forall i | 0 <= i < n ensures next.At(i) == job.At(i) {
      SameEmission(job, [v], i);
    }
  }

  /** One visit more. */
  lemma NextVisit(job: Job, v: Visit)
    ensures var next, n := job.(visits := job.visits + [v]), |job.visits|;
            && next.Links(n + 1) == LinksAfter(job.Links(n), v)
            && next.At(n) == EmissionOf(job.Links(n), v, job.tarDev, job.tarIno)
            && next.Bytes(n + 1) == job.Bytes(n) + Wire(next.At(n))
            && (FilesComplete(next) <==> FilesComplete(job) && !next.At(n).Truncated?)
  {
    hide LinksAfter, EmissionOf, Wire, FilesComplete;
    SamePast(job, [v], |job.visits|);
    CompleteStep(job, v);
  }

  /** What spoils a job spoils every longer one. */
  lemma StaysUnreadable(job: Job, more: seq<Visit>)
    requires !FilesReadable(job)
    ensures !FilesReadable(job.(visits := job.visits + more))
  {
    hide Job.At, HasBody;
    var next := job.(visits := job.visits + more);
    forall i | 0 <= i < |job.visits| ensures next.At(i) == job.At(i) && next.visits[i] == job.visits[i] {
      SameEmission(job, more, i);
    }
  }

  lemma VisitSpoils(job: Job, i: nat)
    requires i < |job.visits|
    ensures FilesReadable(job) ==> !job.At(i).Truncated? && (HasBody(job.At(i)) ==> !job.visits[i].failing)
  {
    hide Job.At, HasBody;
  }

  /** The visitor, called with one path more. */
  method VisitNext(tb: TarBallInfo, v: Visit, ghost start: seq<byte>, ghost done: seq<Visit>) returns (r: VisitResult)
    requires Progress(tb, start, done) && NoNul(v.fileName)
    modifies tb, tb.tarFd
    ensures !r.Died? ==> Progress(tb, start, done + [v])
    ensures !r.Died? ==> (r.Failure? <==> Job(done + [v], tb.tarDev, tb.tarIno).At(|done|).Failed?)
    ensures r.Failure? ==> !IsDir(v.stat)
    ensures r.Died? ==> tb.tarFd.faulty || !FilesReadable(Job(done + [v], tb.tarDev, tb.tarIno))
  {
    hide LinksAfter, EmissionOf, Wire, Job.Links, Job.Bytes, Job.At, FilesComplete, HasBody;
    ghost var job, content := Job(done, tb.tarDev, tb.tarIno), tb.tarFd.content;
    NextVisit(job, v);
    r := tb.WriteFileToTarball(v);
    if r.Died? {
      VisitSpoils(Job(done + [v], tb.tarDev, tb.tarIno), |done|);
    }
  }

  // ---------------------------------------------------------------- size

  lemma WireLength(e: Emission)
    ensures |Wire(e)| == if e.Emitted? then 512 + RoundUp(|e.body|) else 0
  {
    hide MaskPadding, AlignPadding, RoundUp;
    if e.Emitted? {
      PaddingsAgree(|e.body|);
    }
  }

  lemma RoundUpIsBlocks(n: int)
    ensures RoundUp(n) % 512 == 0
  {
  }

  lemma BlocksAdd(a: int, b: int)
    requires a % 512 == 0 && b % 512 == 0
    ensures (a + b) % 512 == 0
  {
  }

  lemma {:induction false} BodiesAreBlocks(job: Job, i: nat)
    requires i <= |job.visits|
    ensures job.BodyBytes(i) % 512 == 0
  {
    hide RoundUp, EmissionOf;
    if i > 0 {
      BodiesAreBlocks(job, i - 1);
      if job.At(i - 1).Emitted? {
        RoundUpIsBlocks(|job.At(i - 1).body|);
        BlocksAdd(job.BodyBytes(i - 1), RoundUp(|job.At(i - 1).body|));
      }
    }
  }

  lemma {:induction false} LengthSoFar(job: Job, i: nat)
    requires i <= |job.visits|
    ensures |job.Bytes(i)| == 512 * job.Members(i) + job.BodyBytes(i)
  {
    hide RoundUp, EmissionOf, Wire;
    if i > 0 {
      LengthSoFar(job, i - 1);
      WireLength(job.At(i - 1));
    }
  }

  lemma ArchiveLength(job: Job)
    ensures |job.Archive()| == |job.Bytes(|job.visits|)| + 1024
  {
  }

  /** Before every member the archive is a whole number of blocks, one per header and as many as the bodies fill. */
  lemma SizeConservation(job: Job, i: nat)
    requires i <= |job.visits|
    ensures |job.Bytes(i)| == 512 * job.Members(i) + job.BodyBytes(i)
    ensures |job.Bytes(i)| % 512 == 0
    ensures i == |job.visits| ==> |job.Archive()| == 512 * (job.Members(i) + 2) + job.BodyBytes(i)
  {
    hide *;
    LengthSoFar(job, i);
    BodiesAreBlocks(job, i);
    BlocksAdd(512 * job.Members(i), job.BodyBytes(i));
    ArchiveLength(job);
  }

  // ---------------------------------------------------------------- hard links

  predicate DistinctKeys(links: seq<LinkInfo>) {
    forall i, j :: 0 <= i < j < |links| ==> links[i].dev != links[j].dev || links[i].ino != links[j].ino
  }

  lemma InsertKeepsDistinct(links: seq<LinkInfo>, v: Visit)
    requires DistinctKeys(links)
    ensures var after := LinksAfter(links, v);
            DistinctKeys(after) && |links| <= |after| && after[|after| - |links|..] == links
  {
    hide Strip, IsDir, Lookup;
  }

  /** On every run the table has one entry per device and inode, and it only grows in front. */
  lemma {:induction false} TableKeysDistinct(job: Job, i: nat)
    requires i <= |job.visits|
    ensures DistinctKeys(job.Links(i))
    ensures i > 0 ==> |job.Links(i - 1)| <= |job.Links(i)|
                      && job.Links(i)[|job.Links(i)| - |job.Links(i - 1)|..] == job.Links(i - 1)
  {
    hide LinksAfter;
    if i > 0 {
      TableKeysDistinct(job, i - 1);
      InsertKeepsDistinct(job.Links(i - 1), job.visits[i - 1]);
    }
  }

  /** One visit changes the table for its own key at most, and only if the key is new. */
  lemma InsertOnce(links: seq<LinkInfo>, v: Visit, dev: nat, ino: nat)
    ensures Lookup(LinksAfter(links, v), dev, ino) ==
            if Lookup(links, dev, ino).None? && Tracked(v) && v.stat.dev == dev && v.stat.ino == ino
            then Some(Strip(v.fileName)) else Lookup(links, dev, ino)
  {
    hide Strip, IsDir;
  }

  lemma LookupEmpty(dev: nat, ino: nat)
    ensures Lookup([], dev, ino) == None
  {
  }

  /** On every run a lookup gives the stripped name under which the file was first seen, and nothing else. */
  lemma {:induction false} TableIsFirstSeen(job: Job, i: nat, dev: nat, ino: nat)
    requires i <= |job.visits|
    ensures Lookup(job.Links(i), dev, ino) ==
            match job.FirstSeen(i, dev, ino)
            case None => None
            case Some(j) => Some(Strip(job.visits[j].fileName))
  {
    hide Strip, Tracked, LinksAfter, Lookup;
    if i > 0 {
      TableIsFirstSeen(job, i - 1, dev, ino);
      InsertOnce(job.Links(i - 1), job.visits[i - 1], dev, ino);
    } else {
      LookupEmpty(dev, ino);
    }
  }

  /** Visit i is written as a hard link. */
  predicate IsLink(job: Job, i: nat)
    requires i < |job.visits|
  {
    job.At(i).Emitted? && job.At(i).h.typeflag == LNKTYPE
  }

  predicate SharesFile(job: Job, i: nat, j: nat)
    requires i < |job.visits| && j < |job.visits|
  {
    job.visits[i].stat.dev == job.visits[j].stat.dev && job.visits[i].stat.ino == job.visits[j].stat.ino
  }

  /** The name in the link header is that of an earlier member for the same file that is not itself a link. */
  predicate Resolves(job: Job, i: nat)
    requires i < |job.visits| && IsLink(job, i)
  {
    exists j :: 0 <= j < i && SharesFile(job, i, j) && job.At(j).Emitted? && !IsLink(job, j)
                && Strip(job.visits[j].fileName) == job.At(i).h.linkname
  }

  /** An entry is not dropped after it has been recorded: not the archive itself, short enough, readable, archivable. */
  predicate Kept(job: Job, v: Visit) {
    && !(v.stat.dev == job.tarDev && v.stat.ino == job.tarIno)
    && |Strip(v.fileName)| < 100
    && Format(v.stat.mode) in {S_IFREG, S_IFCHR, S_IFIFO}
    && (IsReg(v.stat) ==> v.readable && |v.content| >= v.stat.size)
  }

  lemma FirstSeenIsStable(job: Job, j: nat, i: nat, dev: nat, ino: nat)
    requires j < i <= |job.visits| && job.FirstSeen(i, dev, ino) == Some(j)
    ensures job.FirstSeen(j, dev, ino) == None
  {
  }

  lemma RecorderFate(job: Job, j: nat)
    requires j < |job.visits| && Tracked(job.visits[j])
    requires FoundLink(job.Links(j), job.visits[j]).None?
    ensures job.At(j).Emitted? <==> Kept(job, job.visits[j])
    ensures job.At(j).Emitted? ==> !IsLink(job, j)
  {
    hide Strip, Lookup, LinksAfter;
  }

  /** The recorder of visit i's file; every link has one, and its header carries the recorder's name. */
  lemma LinkHasRecorder(job: Job, i: nat) returns (j: nat)
    requires i < |job.visits| && IsLink(job, i)
    ensures job.FirstSeen(i, job.visits[i].stat.dev, job.visits[i].stat.ino) == Some(j)
    ensures j < i && SharesFile(job, i, j) && Tracked(job.visits[j]) && Tracked(job.visits[i])
    ensures Strip(job.visits[j].fileName) == job.At(i).h.linkname
    ensures job.At(j).Emitted? <==> Kept(job, job.visits[j])
    ensures job.At(j).Emitted? ==> !IsLink(job, j)
  {
    hide Strip;
    var dev, ino := job.visits[i].stat.dev, job.visits[i].stat.ino;
    TableIsFirstSeen(job, i, dev, ino);
    assert FoundLink(job.Links(i), job.visits[i]).Some?;
    j := job.FirstSeen(i, dev, ino).value;
    FirstSeenIsStable(job, j, i, dev, ino);
    TableIsFirstSeen(job, j, dev, ino);
    RecorderFate(job, j);
  }

  /** A link resolves when the entry that was recorded for its file was not dropped afterwards. */
  lemma LinkResolves(job: Job, i: nat)
    requires i < |job.visits| && IsLink(job, i)
    requires forall j :: 0 <= j < i && Tracked(job.visits[j]) ==> Kept(job, job.visits[j])
    ensures Resolves(job, i)
  {
    var j := LinkHasRecorder(job, i);
    assert SharesFile(job, i, j);
  }

  /** Visits of one file agree on whether it is tracked. */
  predicate Consistent(job: Job) {
    forall i, j :: 0 <= i < |job.visits| && 0 <= j < |job.visits| && SharesFile(job, i, j) ==>
                     (Tracked(job.visits[i]) <==> Tracked(job.visits[j]))
  }

  lemma FirstSeenGrows(job: Job, k: nat, i: nat, dev: nat, ino: nat)
    requires k < i <= |job.visits| && job.FirstSeen(k, dev, ino) == None
    requires job.SameFile(k, dev, ino) && Tracked(job.visits[k])
    ensures job.FirstSeen(i, dev, ino) == Some(k)
  {
  }

  lemma NonLinkIsRecorder(job: Job, i: nat, k: nat)
    requires k < i < |job.visits| && SharesFile(job, i, k) && job.At(k).Emitted? && !IsLink(job, k)
    requires Tracked(job.visits[k])
    ensures job.FirstSeen(i, job.visits[i].stat.dev, job.visits[i].stat.ino) == Some(k)
  {
    hide Strip;
    var dev, ino := job.visits[i].stat.dev, job.visits[i].stat.ino;
    TableIsFirstSeen(job, k, dev, ino);
    assert FoundLink(job.Links(k), job.visits[k]).None?;
    FirstSeenGrows(job, k, i, dev, ino);
  }

  /** An earlier visit that was not tracked, because the file had one link then, is a member of the recorder's name. */
  predicate Namesake(job: Job, i: nat, j: nat)
    requires i < |job.visits| && j < |job.visits|
  {
    exists k :: 0 <= k < i && SharesFile(job, i, k) && !Tracked(job.visits[k]) && job.At(k).Emitted?
                && Strip(job.visits[k].fileName) == Strip(job.visits[j].fileName)
  }

  lemma UntrackedIsNoLink(job: Job, k: nat)
    requires k < |job.visits| && !Tracked(job.visits[k])
    ensures !IsLink(job, k)
  {
    hide Strip, Lookup, Job.Links;
  }

  /**
   * Exactly when: the link resolves if and only if the entry recorded for its file was kept, or the file is a member
   * under the same name from a visit at which it had one link only.
   */
  lemma LinkResolvesExactly(job: Job, i: nat, j: nat)
    requires i < |job.visits| && IsLink(job, i)
    requires job.FirstSeen(i, job.visits[i].stat.dev, job.visits[i].stat.ino) == Some(j)
    ensures Resolves(job, i) <==> Kept(job, job.visits[j]) || Namesake(job, i, j)
  {
    hide Strip, Kept, Tracked, Job.At, Job.Links;
    var j' := LinkHasRecorder(job, i);
    if Kept(job, job.visits[j]) {
      assert SharesFile(job, i, j);
    }
    if Namesake(job, i, j) {
      var k :| 0 <= k < i && SharesFile(job, i, k) && !Tracked(job.visits[k]) && job.At(k).Emitted?
               && Strip(job.visits[k].fileName) == Strip(job.visits[j].fileName);
      UntrackedIsNoLink(job, k);
    }
    if Resolves(job, i) {
      var k :| 0 <= k < i && SharesFile(job, i, k) && job.At(k).Emitted? && !IsLink(job, k)
               && Strip(job.visits[k].fileName) == job.At(i).h.linkname;
      if Tracked(job.visits[k]) {
        NonLinkIsRecorder(job, i, k);
      }
    }
  }

  /** While the link count of a file does not change between its visits, the recorder alone decides. */
  lemma LinkResolvesIfConsistent(job: Job, i: nat, j: nat)
    requires i < |job.visits| && IsLink(job, i) && Consistent(job)
    requires job.FirstSeen(i, job.visits[i].stat.dev, job.visits[i].stat.ino) == Some(j)
    ensures Resolves(job, i) <==> Kept(job, job.visits[j])
  {
    hide Strip, Kept, Tracked, Job.At;
    var j' := LinkHasRecorder(job, i);
    LinkResolvesExactly(job, i, j);
  }

  function OneLink(): Stat {
    Stat(1, 7, S_IFREG, 1, 0, 0, 0, 0)
  }

  function TwoLinks(): Stat {
    Stat(1, 7, S_IFREG, 2, 0, 0, 0, 0)
  }

  /** "a" while its file has one link, "a" again when it has two and does not open, and then "b". */
  function GrowingFile(): Job {
    Job([Visit([97], OneLink(), true, [], false), Visit([97], TwoLinks(), false, [], false),
         Visit([98], TwoLinks(), true, [], false)], 0, 0)
  }

  lemma GrowingTable()
    ensures Strip([97]) == [97] && Strip([98]) == [98]
    ensures var job := GrowingFile(); job.Links(1) == [] && job.Links(2) == [LinkInfo(1, 7, [97])]
  {
    hide Strip;
    SafeIsFixed([97]);
    SafeIsFixed([98]);
    var job := GrowingFile();
    assert job.Links(0) == [];
    assert Tracked(job.visits[1]) && Lookup([], 1, 7) == None;
  }

  lemma GrowingRecorder()
    ensures var job := GrowingFile();
            job.FirstSeen(2, 1, 7) == Some(1) && !Kept(job, job.visits[1]) && SharesFile(job, 2, 0)
  {
    hide Strip;
    GrowingTable();
    var job := GrowingFile();
    assert Tracked(job.visits[1]) && !Tracked(job.visits[0]);
    assert job.FirstSeen(1, 1, 7) == None;
  }

  lemma GrowingMembers()
    ensures var job := GrowingFile(); job.At(0).Emitted? && !Tracked(job.visits[0]) && IsLink(job, 2)
  {
    hide Strip, StoredTime, Job.Links;
    GrowingTable();
    var job := GrowingFile();
    assert FoundLink(job.Links(2), job.visits[2]) == Some([97]);
  }

  /** It need not be the recorder: here "b" becomes a link to the first "a", while the recorder was dropped. */
  lemma NamesakeResolves()
    ensures var job := GrowingFile();
            && IsLink(job, 2) && Resolves(job, 2)
            && job.FirstSeen(2, 1, 7) == Some(1) && !Kept(job, job.visits[1])
  {
    hide Strip, Kept, Resolves, Tracked, Job.At, Job.Links, Job.FirstSeen, SharesFile;
    GrowingRecorder();
    GrowingMembers();
    assert Namesake(GrowingFile(), 2, 1);
    LinkResolvesExactly(GrowingFile(), 2, 1);
  }

  /**
   * Links need not resolve: the first name is recorded before it is found to be too long, so the second entry becomes
   * a link to a member that is not in the archive.
   */
  lemma DroppedRecorderBreaksLink()
    ensures var st := Stat(1, 7, S_IFREG, 2, 0, 0, 0, 0);
            var job := Job([Visit(Repeat(97, 100), st, true, [], false), Visit([98], st, true, [], false)], 0, 0);
            IsLink(job, 1) && !Resolves(job, 1)
  {
  }
}

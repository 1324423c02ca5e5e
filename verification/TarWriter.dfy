/** `writeTarFile` and `tarArchive`: walks over the paths to archive, one after the other, and what they report. */
module TarWriter {
  import opened Bytes
  import opened Names
  import opened Header
  import Streams
  import opened Writer
  import opened Archive
  import opened Walk

  /** A path to archive, and what lies there. */
  datatype Root = Root(path: seq<byte>, tree: Tree)

  /** `writeFileToTarball` answers TRUE for every directory, whatever else it finds. */
  function Always(path: seq<byte>): Answer {
    True
  }

  /** The visits of all the walks, in order. */
  function AllVisits(roots: seq<Root>): seq<Visit> {
    if roots == [] then []
    else AllVisits(roots[..|roots| - 1])
         + Preorder(roots[|roots| - 1].path, roots[|roots| - 1].tree, Always)
  }

  /** The walks are made in the order of the paths. */
  lemma {:induction false} VisitsAppend(a: seq<Root>, b: seq<Root>)
    ensures AllVisits(a + b) == AllVisits(a) + AllVisits(b)
  {
    hide Preorder;
    if b == [] {
      assert a + b == a;
      assert AllVisits(a) + [] == AllVisits(a);
    } else {
      var init, last := b[..|b| - 1], b[|b| - 1];
      assert (a + b)[..|a + b| - 1] == a + init;
      VisitsAppend(a, init);
      var p := Preorder(last.path, last.tree, Always);
      assert AllVisits(a) + (AllVisits(init) + p) == AllVisits(a) + AllVisits(init) + p;
    }
  }

  /** The number of the first visit of root k. */
  function First(roots: seq<Root>, k: nat): nat
    requires k <= |roots|
  {
    |AllVisits(roots[..k])|
  }

  /** The walk over root k reports failure. */
  predicate RootFails(roots: seq<Root>, k: nat, job: Job)
    requires k < |roots|
  {
    Fails(roots[k].path, roots[k].tree, Always, job, First(roots, k))
  }

  lemma VisitsStep(roots: seq<Root>, k: nat)
    requires k < |roots|
    ensures AllVisits(roots[..k + 1]) == AllVisits(roots[..k]) + Preorder(roots[k].path, roots[k].tree, Always)
  {
    assert roots[..k + 1][..k] == roots[..k];
  }

  lemma {:induction false} VisitsGrow(roots: seq<Root>, j: nat, k: nat)
    requires j <= k <= |roots|
    ensures AllVisits(roots[..j]) <= AllVisits(roots[..k])
  {
    hide AllVisits;
    if j < k {
      VisitsGrow(roots, j, k - 1);
      VisitsStep(roots, k - 1);
    }
  }

  lemma OwnVisit(path: seq<byte>, t: Tree, answer: seq<byte> -> Answer)
    requires t.Entry?
    ensures Preorder(path, t, answer) != [] && Preorder(path, t, answer)[0] == VisitOf(path, t)
    ensures !IsDir(t.stat) ==> Preorder(path, t, answer) == [VisitOf(path, t)]
  {
  }

  /** Later walks do not change what an earlier one reports. */
  lemma ReportStays(roots: seq<Root>, j: nat, job: Job, more: seq<Visit>)
    requires j < |roots| && AllVisits(roots[..j + 1]) <= job.visits
    ensures RootFails(roots, j, job.(visits := job.visits + more)) <==> RootFails(roots, j, job)
  {
    hide Job.At, AllVisits, Preorder, VisitOf;
    VisitsStep(roots, j);
    if roots[j].tree.Entry? {
      OwnVisit(roots[j].path, roots[j].tree, Always);
      SameEmission(job, more, First(roots, j));
    }
  }

  datatype ArchiveResult = Completed(errors: bool) | Aborted(why: Death)

  lemma NothingWritten(tb: TarBallInfo, start: seq<byte>, roots: seq<Root>)
    requires tb.hlInfoHead == [] && tb.tarFd.content == start
    ensures Progress(tb, start, []) && AllVisits(roots[..0]) == []
  {
    assert start + [] == start;
  }

  lemma StringsFrom(all: seq<Visit>, a: seq<Visit>, b: seq<Visit>)
    requires StringsOnly(all) && a + b <= all
    ensures StringsOnly(b)
  {
    assert forall i :: 0 <= i < |b| ==> b[i] == (a + b)[|a| + i] == all[|a| + i];
  }

  /** A walk that is lost on an unreadable file makes the whole job unreadable. */
  lemma LostForAll(job: Job, before: seq<Visit>, more: seq<Visit>, roots: seq<Root>, k: nat)
    requires k < |roots| && job.visits == AllVisits(roots) && before == AllVisits(roots[..k])
    requires more <= Preorder(roots[k].path, roots[k].tree, Always)
    ensures !FilesReadable(job.(visits := before + more)) ==> !FilesReadable(job)
  {
    hide AllVisits, Preorder, FilesReadable;
    VisitsStep(roots, k);
    VisitsGrow(roots, k + 1, |roots|);
    assert roots[..|roots|] == roots;
    var part, whole := before + more, before + Preorder(roots[k].path, roots[k].tree, Always);
    assert part <= whole <= job.visits;
    assert part + job.visits[|part|..] == job.visits by {
      assert job.visits[..|part|] == job.visits[..|whole|][..|part|] == part;
    }
    if !FilesReadable(job.(visits := part)) {
      StaysUnreadable(job.(visits := part), job.visits[|part|..]);
    }
  }

  lemma RootReport(roots: seq<Root>, k: nat, job: Job)
    requires k < |roots|
    ensures RootFails(roots, k, job)
            <==> Fails(roots[k].path, roots[k].tree, Always, job, |AllVisits(roots[..k])|)
  {
    hide Fails, AllVisits;
  }

  /** Two blocks of zeroes end the archive. */
  method WriteTrailer(tb: TarBallInfo, ghost start: seq<byte>, ghost done: seq<Visit>) returns (r: ArchiveResult)
    requires Progress(tb, start, done)
    modifies tb.tarFd
    ensures var job := Job(done, tb.tarDev, tb.tarIno);
            && (r.Completed? ==> tb.tarFd.content == start + job.Archive() && FilesComplete(job))
            && (r.Aborted? ==> tb.tarFd.faulty)
  {
    hide Job.Bytes, FilesComplete;
    ghost var job := Job(done, tb.tarDev, tb.tarIno);
    var blockBuf := new byte[2 * BLOCK](_ => NUL);
    var fate := tb.tarFd.XWrite(blockBuf, 0, 2 * BLOCK);
    if fate.Dead? {
      return Aborted(fate.why);
    }
    assert blockBuf[0..2 * BLOCK] == Repeat(NUL, 2 * BLOCK);
    assert start + job.Bytes(|done|) + Repeat(NUL, 2 * BLOCK) == start + job.Archive();
    return Completed(false);
  }

  /** `writeTarFile` */
  method WriteTarFile(tarFd: Streams.Sink, roots: seq<Root>, tarDev: nat, tarIno: nat) returns (r: ArchiveResult)
    requires StringsOnly(AllVisits(roots))
    modifies tarFd
    ensures var job := Job(AllVisits(roots), tarDev, tarIno);
            && (r.Completed? ==> tarFd.content == old(tarFd.content) + job.Archive())
            && (r.Completed? ==> FilesComplete(job))
            && (r.Completed? ==> (r.errors <==> exists k :: 0 <= k < |roots| && RootFails(roots, k, job)))
            && (r.Aborted? ==> tarFd.faulty || !FilesReadable(job))
  {
    hide AllVisits, Preorder, Progress, FilesReadable, RootFails;
    ghost var start := tarFd.content;
    var tbInfo := new TarBallInfo(tarFd, tarDev, tarIno);
    var errorFlag := false;
    var k := 0;
    ghost var done: seq<Visit> := [];
    NothingWritten(tbInfo, start, roots);
    while k < |roots|
      invariant 0 <= k <= |roots|
      invariant fresh(tbInfo) && tbInfo.tarFd == tarFd && tbInfo.tarDev == tarDev && tbInfo.tarIno == tarIno
      invariant done == AllVisits(roots[..k]) && Progress(tbInfo, start, done)
      invariant errorFlag <==> exists j :: 0 <= j < k && RootFails(roots, j, Job(done, tarDev, tarIno))
    {
      ghost var before := done;
      VisitsStep(roots, k);
      VisitsGrow(roots, k + 1, |roots|);
      assert roots[..|roots|] == roots;
      StringsFrom(AllVisits(roots), before, Preorder(roots[k].path, roots[k].tree, Always));
      var walked; ghost var more;
      walked, more := RecursiveAction(tbInfo, roots[k].path, roots[k].tree, Always, start, done);
      if walked.Lost? {
        LostForAll(Job(AllVisits(roots), tarDev, tarIno), before, more, roots, k);
        return Aborted(walked.why);
      }
      done := done + more;
      forall j | 0 <= j < k
        ensures RootFails(roots, j, Job(done, tarDev, tarIno)) <==> RootFails(roots, j, Job(before, tarDev, tarIno))
      {
        VisitsGrow(roots, j + 1, k);
        ReportStays(roots, j, Job(before, tarDev, tarIno), more);
      }
      RootReport(roots, k, Job(done, tarDev, tarIno));
      if walked.status == False {
        errorFlag := true;
      }
      k := k + 1;
    }
    assert roots[..k] == roots;
    r := WriteTrailer(tbInfo, start, done);
    if r.Completed? {
      r := Completed(errorFlag);
    }
  }

  function JobFor(path: seq<byte>, tree: Tree, tarDev: nat, tarIno: nat): Job {
    Job(Preorder(path, tree, Always), tarDev, tarIno)
  }

  lemma OneRoot(path: seq<byte>, tree: Tree)
    ensures AllVisits([Root(path, tree)]) == Preorder(path, tree, Always)
    ensures First([Root(path, tree)], 0) == 0
  {
    hide Preorder;
    var roots := [Root(path, tree)];
    assert roots[..0] == [];
    assert [] + Preorder(path, tree, Always) == Preorder(path, tree, Always);
  }

  /** `tarArchive`: the one path it is given. */
  method TarArchive(tarFd: Streams.Sink, path: seq<byte>, tree: Tree, tarDev: nat, tarIno: nat)
    returns (r: ArchiveResult)
    requires StringsOnly(Preorder(path, tree, Always))
    modifies tarFd
    ensures var job := JobFor(path, tree, tarDev, tarIno);
            && (r.Completed? ==> tarFd.content == old(tarFd.content) + job.Archive())
            && (r.Completed? ==> FilesComplete(job))
            && (r.Completed? ==> (r.errors <==> Fails(path, tree, Always, job, 0)))
            && (r.Aborted? ==> tarFd.faulty || !FilesReadable(job))
  {
    hide Preorder, FilesComplete, FilesReadable, Fails;
    OneRoot(path, tree);
    r := WriteTarFile(tarFd, [Root(path, tree)], tarDev, tarIno);
    assert RootFails([Root(path, tree)], 0, JobFor(path, tree, tarDev, tarIno))
           <==> Fails(path, tree, Always, JobFor(path, tree, tarDev, tarIno), 0);
  }

  // ---------------------------------------------------------------- which failures are reported

  /**
   * An entry that cannot be archived: it has a usable name, is neither the archive itself nor a directory nor another
   * name of a file already seen, and it is either a regular file that does not open or of a type without a header.
   */
  predicate CannotBeArchived(job: Job, i: nat)
    requires i < |job.visits|
  {
    var v := job.visits[i];
    && 0 < |Strip(v.fileName)| < 100
    && !(v.stat.dev == job.tarDev && v.stat.ino == job.tarIno)
    && (Tracked(v) ==> job.FirstSeen(i, v.stat.dev, v.stat.ino) == None)
    && Format(v.stat.mode) !in {S_IFDIR, S_IFCHR, S_IFIFO}
    && (IsReg(v.stat) ==> !v.readable)
  }

  /** These are the visits that fail. */
  lemma FailedExactly(job: Job, i: nat)
    requires i < |job.visits|
    ensures job.At(i).Failed? <==> CannotBeArchived(job, i)
  {
    hide Strip, Lookup, Job.Links, Job.FirstSeen;
    var st := job.visits[i].stat;
    TableIsFirstSeen(job, i, st.dev, st.ino);
  }

  lemma NoVisitsOf(path: seq<byte>, t: Tree)
    requires t.Missing?
    ensures Preorder(path, t, Always) == []
  {
  }

  lemma DirectoryIsArchivable(job: Job, i: nat)
    requires i < |job.visits| && IsDir(job.visits[i].stat)
    ensures !CannotBeArchived(job, i)
  {
  }

  /** The visits of root k: none if nothing is there, its own first, and only that one if no entry lies below. */
  predicate VisitsOfRoot(job: Job, tree: Tree, i: nat, j: nat) {
    && i <= j <= |job.visits|
    && (tree.Missing? ==> i == j)
    && (tree.Entry? ==> i < j && job.visits[i].stat == tree.stat)
    && (tree.Entry? && (IsDir(tree.stat) ==> tree.listing == []) ==> j == i + 1)
  }

  lemma RootHasVisits(roots: seq<Root>, k: nat, job: Job)
    requires k < |roots| && job.visits == AllVisits(roots)
    ensures VisitsOfRoot(job, roots[k].tree, First(roots, k), First(roots, k + 1))
  {
    hide AllVisits, Preorder, IsDir;
    VisitsStep(roots, k);
    VisitsGrow(roots, k + 1, |roots|);
    assert roots[..|roots|] == roots;
    var i, tree := First(roots, k), roots[k].tree;
    if tree.Missing? {
      NoVisitsOf(roots[k].path, tree);
    } else {
      OwnVisit(roots[k].path, tree, Always);
      assert job.visits[i] == AllVisits(roots[..k + 1])[i] == VisitOf(roots[k].path, tree);
      if tree.listing == [] {
        NoChildren(roots[k].path, tree, Always);
      }
    }
  }

  /**
   * The report about a root tells whether a visit failed exactly if there is something at the root and, if it is a
   * directory, it can be listed and everything below it can be archived: what fails below a directory is never
   * reported, and a missing root or a failed listing is reported without a failed visit.
   */
  lemma RootReportsExactly(roots: seq<Root>, k: nat, job: Job)
    requires k < |roots| && job.visits == AllVisits(roots)
    ensures First(roots, k) <= First(roots, k + 1) <= |job.visits|
    ensures var i, j, tree := First(roots, k), First(roots, k + 1), roots[k].tree;
            (RootFails(roots, k, job) <==> SomeFailed(job, i, j))
            <==> tree.Entry? && (IsDir(tree.stat) ==>
                   tree.listing != [] && forall n :: i < n < j ==> !CannotBeArchived(job, n))
  {
    hide First, AllVisits, Preorder, Job.At, CannotBeArchived, IsDir;
    RootHasVisits(roots, k, job);
    var i, j, tree := First(roots, k), First(roots, k + 1), roots[k].tree;
    forall n | i <= n < j ensures job.At(n).Failed? <==> CannotBeArchived(job, n) {
      FailedExactly(job, n);
    }
    if tree.Entry? && IsDir(tree.stat) {
      DirectoryIsArchivable(job, i);
    }
  }

  function PlainStat(mode: nat): Stat {
    Stat(1, 1, mode, 1, 0, 0, 0, 0)
  }

  lemma OneFileInside(f: Tree, d: Tree, path: seq<byte>)
    requires f.Entry? && !IsDir(f.stat) && d.Entry? && IsDir(d.stat) && d.listing == [Child([102], f)]
    requires path == [100, SLASH, 102]
    ensures Preorder([100], d, Always) == [VisitOf([100], d), VisitOf(path, f)]
  {
    hide VisitOf, IsDir;
    ChildrenStep([100], d, 0, Always);
    NoMoreChildren([100], d, Always);
    assert Concat([100], [102]) == path by { assert SkipSlashes([102], 0) == 0; }
    OwnVisit(path, f, Always);
    assert Preorder([100], d, Always) == [VisitOf([100], d)] + Children([100], d, 0, Always);
  }

  lemma UnopenedFile(job: Job, path: seq<byte>)
    requires |job.visits| == 2 && job.visits[1] == Visit(path, PlainStat(S_IFREG), false, [], false)
    requires path == [100, SLASH, 102] && job.tarDev == 0
    ensures CannotBeArchived(job, 1)
  {
    SafeIsFixed(path);
  }

  /** The directory "d" with the file "f", which cannot be opened. */
  function LockedTree(): Tree {
    Tree.Entry(PlainStat(S_IFDIR), true, [], false,
               [Child([102], Tree.Entry(PlainStat(S_IFREG), false, [], false, []))])
  }

  /** The visit of "d/f" fails, and nobody is told. */
  lemma FailureBelowIsSilent()
    ensures var roots := [Root([100], LockedTree())];
            var job := Job(AllVisits(roots), 0, 0);
            |job.visits| == 2 && job.visits[1].fileName == [100, SLASH, 102]
            && SomeFailed(job, 0, 2) && !RootFails(roots, 0, job)
  {
    hide Job.At, Preorder, Children, CannotBeArchived, AllVisits, Concat;
    var d := LockedTree();
    var f := d.listing[0].tree;
    var path: seq<byte> := [100, SLASH, 102];
    OneRoot([100], d);
    OneFileInside(f, d, path);
    var job := Job(AllVisits([Root([100], d)]), 0, 0);
    FailedExactly(job, 1);
    UnopenedFile(job, path);
  }

  /** Nothing at the path: no visit, but an error. A directory that cannot be listed: no visit fails, but an error. */
  lemma SilentWalksAreReported(path: seq<byte>)
    ensures var roots := [Root(path, Missing), Root(path, Tree.Entry(PlainStat(S_IFDIR), true, [], false, []))];
            var job := Job(AllVisits(roots), 0, 0);
            RootFails(roots, 0, job) && RootFails(roots, 1, job) && |job.visits| == 1 && !SomeFailed(job, 0, 1)
  {
    hide Job.At, CannotBeArchived, AllVisits;
    var d := Tree.Entry(PlainStat(S_IFDIR), true, [], false, []);
    var roots := [Root(path, Missing), Root(path, d)];
    VisitsStep(roots, 0);
    VisitsStep(roots, 1);
    assert roots[..2] == roots && roots[..0] == [];
    NoVisitsOf(path, Missing);
    NoChildren(path, d, Always);
    assert AllVisits([]) == [] by { OneRoot(path, Missing); assert [Root(path, Missing)][..0] == []; }
    var job := Job(AllVisits(roots), 0, 0);
    FailedExactly(job, 0);
    DirectoryIsArchivable(job, 0);
  }
}

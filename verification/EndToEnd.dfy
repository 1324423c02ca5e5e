/** The two programs, `tarArchive` and `tarExtract`, run one after the other. */
module EndToEnd {
  import opened Bytes
  import Header
  import Streams
  import Writer
  import Archive
  import opened FileSystem
  import opened Extract
  import opened LastWriter
  import opened Reader
  import opened TarReader
  import opened RoundTrip
  import opened Walk
  import opened TarWriter
  import opened TreeTrip

  lemma PrefixUnpackable(nodes: Nodes, all: seq<Delivery>, ds: seq<Delivery>)
    requires Unpackable(nodes, all) && ds <= all
    ensures Unpackable(nodes, ds)
  {
    hide PathOf, DirPart, IsFileMember, Placeable;
  }

  lemma ArchiveIsSound(job: Archive.Job)
    requires Archive.FilesComplete(job) && StringsOnly(job.visits)
    ensures Sound(job)
  {
    hide Archive.FilesComplete;
  }

  /**
   * Archiving what lies at a path and then extracting it, from a file or from a pipe. A run to the end hands on what
   * was archived exactly if all of it is portable; if a run over a portable archive stops early that is the file
   * system's doing. The archived part of a tree with nothing in its way is put back.
   */
  method ArchiveThenExtract(path: seq<byte>, tree: Tree, tarDev: nat, tarIno: nat, fs: System,
                            seekable: bool, useJump: bool)
    returns (r: ArchiveResult, ret: bool, died: Option<Death>, ghost delivered: seq<Delivery>)
    requires StringsOnly(Preorder(path, tree, Always)) && fs.umask < NO_MASK
    modifies fs
    ensures r.Aborted? ==> !Archive.FilesReadable(JobFor(path, tree, tarDev, tarIno)) && fs.nodes == old(fs.nodes)
    ensures r.Completed? ==> (r.errors <==> Fails(path, tree, Always, JobFor(path, tree, tarDev, tarIno), 0))
    ensures var job := JobFor(path, tree, tarDev, tarIno);
            r.Completed? && died == None ==> ret && (delivered == ExpectedFrom(job, 0) <==> AllPortable(job))
    ensures var job := JobFor(path, tree, tarDev, tarIno);
            r.Completed? && AllPortable(job) ==>
              && delivered <= ExpectedFrom(job, 0)
              && (died.Some? ==> died.value == FsError || (died.value == IoError && !fs.reliable))
    ensures var job := JobFor(path, tree, tarDev, tarIno);
            r.Completed? && AllPortable(job) && fs.reliable && Unpackable(old(fs.nodes), ExpectedFrom(job, 0)) ==>
              died == None && forall p :: NodeAt(fs.nodes, p) == Final(old(fs.nodes), ExpectedFrom(job, 0), p)
    ensures var job := JobFor(path, tree, tarDev, tarIno);
            r.Completed? && fs.reliable && Plantable(path, tree, job) && Fits(old(fs.nodes), job) ==>
              died == None && Replanted(old(fs.nodes), fs.nodes, job)
  {
    hide Preorder, Run, ExtractAll, Unpackable, Final, ExpectedFrom, Archive.Job.Archive, Archive.Job.At;
    hide AllPortable, Fails, Plantable, Fits, Replanted, Archive.FilesComplete, Archive.FilesReadable, Sound;
    ghost var nodes, job := fs.nodes, JobFor(path, tree, tarDev, tarIno);
    ret, died, delivered := false, None, [];
    var tarFd := new Streams.Sink(false);
    r := TarArchive(tarFd, path, tree, tarDev, tarIno);
    if r.Aborted? {
      return;
    }
    assert [] + job.Archive() == job.Archive();
    ArchiveIsSound(job);
    var src := new Streams.Source(tarFd.content, seekable, false);
    ret, died, delivered := TarExtract(src, fs, useJump);
    ArchiveRoundTrip(job);
    if Plantable(path, tree, job) && Fits(nodes, job) {
      PlantableIsPortable(path, tree, job);
      TreeIsUnpackable(nodes, path, tree, job);
    }
    if AllPortable(job) && fs.reliable && Unpackable(nodes, ExpectedFrom(job, 0)) {
      PrefixUnpackable(nodes, ExpectedFrom(job, 0), delivered);
      LastWriterWins(nodes, delivered);
      if Plantable(path, tree, job) && Fits(nodes, job) {
        TreeIsReplanted(nodes, fs.nodes, path, tree, job);
      }
    }
  }

  /** Once unpacking has failed it stays so. */
  lemma {:induction false} DeadStaysDead(nodes: Nodes, ds: seq<Delivery>, more: seq<Delivery>)
    requires ds <= more && ExtractAll(nodes, ds).fate.Dead?
    ensures ExtractAll(nodes, more).fate.Dead?
  {
    hide ExtractOne;
    if |ds| < |more| {
      assert ds <= more[..|more| - 1];
      DeadStaysDead(nodes, ds, more[..|more| - 1]);
    } else {
      assert ds == more;
    }
  }

  lemma TurnDiesOfData(data: seq<byte>, st: State)
    ensures var t := TurnOf(data, st, AcceptAll, true); t.Stuck? ==> t.why != FsError && t.why != IoError
  {
    hide Header.ChecksumOk, Header.PureDecode, Header.TypeBits, Header.FinalName;
    hide Streams.Slice, Aligned, Writer.RoundUp;
  }

  /** The stream alone never accounts for a file-system or input/output error. */
  lemma {:induction false} RunDiesOfData(data: seq<byte>, st: State)
    ensures Run(data, st).fate != Broken(FsError) && Run(data, st).fate != Broken(IoError)
    decreases Remaining(data, st.pos)
  {
    hide TurnOf, Run;
    TurnMoves(data, st, AcceptAll, true);
    RunByTurns(data, st);
    TurnDiesOfData(data, st);
    var t := TurnOf(data, st, AcceptAll, true);
    if t.Next? {
      RunDiesOfData(data, t.st);
    }
  }

  lemma ShorterIsNotDead(data: seq<byte>, nodes: Nodes, died1: Option<Death>, ds1: seq<Delivery>, nodes1: Nodes,
                         died2: Option<Death>, ds2: seq<Delivery>, nodes2: Nodes)
    requires Outcome(data, died1, ds1, nodes, nodes1, false, true)
    requires Outcome(data, died2, ds2, nodes, nodes2, false, true)
    ensures died1 == Some(FsError) ==> |ds1| >= |ds2| && (died2 != Some(FsError) ==> |ds1| != |ds2|)
    ensures |ds1| < |ds2| ==> died1 == Some(FsError)
  {
    hide Run, ExtractAll;
    RunDiesOfData(data, START);
    var run := Run(data, START).out;
    if died1 == Some(FsError) {
      if |ds1| < |ds2| {
        var init := ds2[..|ds2| - 1];
        assert ds1 <= init by {
          assert init == run[..|init|] && ds1 == run[..|ds1|];
        }
        DeadStaysDead(nodes, ds1, init);
        DeadStaysDead(nodes, ds1, ds2);
      } else if |ds1| == |ds2| {
        assert ds1 == run[..|ds1|] == ds2;
      }
    }
  }

  /** The outcome of an extraction that sees no input or output errors is determined by the data. */
  lemma OutcomeIsDetermined(data: seq<byte>, nodes: Nodes, died1: Option<Death>, ds1: seq<Delivery>, nodes1: Nodes,
                            died2: Option<Death>, ds2: seq<Delivery>, nodes2: Nodes)
    requires Outcome(data, died1, ds1, nodes, nodes1, false, true)
    requires Outcome(data, died2, ds2, nodes, nodes2, false, true)
    ensures died1 == died2 && ds1 == ds2 && nodes1 == nodes2
  {
    hide Run, ExtractAll;
    RunDiesOfData(data, START);
    ShorterIsNotDead(data, nodes, died1, ds1, nodes1, died2, ds2, nodes2);
    ShorterIsNotDead(data, nodes, died2, ds2, nodes2, died1, ds1, nodes1);
    assert |ds1| == |ds2| ==> ds1 == ds2;
  }

  /** The same archive from a file and from standard input: the same members, the same end, the same files. */
  method FileAndPipeAgree(data: seq<byte>, fs1: System, fs2: System)
    returns (end1: Option<Death>, end2: Option<Death>, ghost file: seq<Delivery>, ghost pipe: seq<Delivery>)
    requires fs1 != fs2 && fs1.nodes == fs2.nodes && fs1.umask == fs2.umask < NO_MASK
    requires fs1.reliable && fs2.reliable
    modifies fs1, fs2
    ensures file == pipe && end1 == end2 && fs1.nodes == fs2.nodes
  {
    hide Outcome;
    ghost var nodes := fs1.nodes;
    var a := new Streams.Source(data, true, false);
    var b := new Streams.Source(data, false, false);
    var ret1, ret2;
    ret1, end1, file := TarExtract(a, fs1, true);
    ret2, end2, pipe := TarExtract(b, fs2, false);
    OutcomeIsDetermined(data, nodes, end1, file, fs1.nodes, end2, pipe, fs2.nodes);
  }
}

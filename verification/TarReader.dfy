/** `get_header_tar` and the extraction loop, on a stream, a file system and a header that are updated in place. */
module TarReader {
  import opened Bytes
  import Numbers
  import opened Names
  import opened Header
  import opened Streams
  import opened Writer
  import opened Pax
  import opened FileSystem
  import opened Extract
  import opened Reader

  datatype Got = GotHeader | Again | EndOfArchive | GotDied(why: Death)

  /**
   * What came of a turn agrees with the state machine. On a stream that reports errors the reader may die early; on
   * the file system's account it may die after the member has been handed on.
   */
  ghost predicate Agrees(r: Got, t: Turn, st: State, grew: seq<Delivery>, faulty: bool, reliable: bool) {
    match r
    case GotHeader => t.Next? && !t.again && st == t.st && grew == t.out
    case Again => t.Next? && t.again && st == t.st && grew == []
    case EndOfArchive => t.Ended? && grew == []
    case GotDied(why) =>
      && (grew == [] || grew == OutOf(t))
      && (|| faulty
          || (t.Stuck? && why == t.why && grew == t.out)
          || (why == FsError && grew == OutOf(t) && |grew| == 1)
          || (why == IoError && grew == OutOf(t) && |grew| == 1 && !reliable))
  }

  /** The file system has seen exactly the deliveries made, and the reader died of it if and only if it had to. */
  ghost predicate Unpacked(r: Got, before: Nodes, after: Nodes, grew: seq<Delivery>, reliable: bool) {
    && (grew == [] ==> after == before)
    && (reliable && r != GotDied(IoError) ==>
      && |grew| <= 1
      && after == (if grew == [] then before else ExtractOne(before, grew[0]).nodes)
      && (r == GotDied(FsError) <==> grew != [] && ExtractOne(before, grew[0]).fate.Dead?))
  }

  lemma RoundUpIsMultiple(n: int)
    ensures RoundUp(n) == 512 * (RoundUp(n) / 512)
  {
  }

  /** What `Dispatch` does with a block that names a member. */
  function MemberHead(typeflag: byte, d: Decoded): (h: Head)
    requires d.name.Some?
    ensures h.Entry?
  {
    var (bits, empty) := TypeBits(typeflag, d.name.value);
    Entry(Member(FinalName(d.name.value), d.linkTarget, d.mode + bits, if empty then 0 else d.size,
                 d.uid, d.gid, d.mtime),
          Strip(d.name.value))
  }

  /** One slash at the end of the string is overwritten. */
  method DropLastSlash(buf: array<byte>, ghost s: seq<byte>)
    requires HoldsAt(buf[..], 0, s)
    modifies buf
    ensures HoldsAt(buf[..], 0, CutSlash(s))
  {
    hide CStr;
    ghost var whole := buf[..];
    HoldsIsCStr(whole, 0, s);
    assert whole[0..] == whole;
    var len := |CStr(buf[..])|;
    assert len > 0 ==> buf[len - 1] == whole[0..|s|][len - 1] == s[len - 1];
    if len > 0 && buf[len - 1] == SLASH {
      CutHolds(whole, whole[len - 1 := NUL], s, len - 1);
      buf[len - 1] := NUL;
      assert buf[..] == whole[len - 1 := NUL];
    }
  }

  lemma DecodedShape(b: seq<byte>)
    requires |b| == BLOCK && PureDecode(b).Some?
    ensures var d := PureDecode(b).value;
            && d.mode < 4096
            && (d.name.Some? <==> ParsesNames(TypeFlag(b)))
            && (d.name.Some? ==> NoNul(d.name.value))
  {
    hide Numbers.FieldValue;
  }

  /** Checksum and fields of a block that is not empty; the buffer is destroyed on the way. */
  method DecodeBlock(tar: array<byte>) returns (bad: Option<Death>, typeflag: byte, d: Option<Decoded>)
    requires tar.Length == BLOCK && !(tar[0] == NUL && tar[345] == NUL)
    modifies tar
    ensures bad.Some? ==> Classify(old(tar[..])) == Bad(bad.value) && bad.value != FsError && bad.value != IoError
    ensures bad.None? ==> d.Some? && (d.value.name.Some? <==> ParsesNames(typeflag))
                          && (d.value.name.Some? ==> NoNul(d.value.name.value)) && d.value.mode < 4096
                          && Classify(old(tar[..])) == Dispatch(typeflag, d.value)
  {
    hide ChecksumOk, PureDecode, Dispatch;
    ghost var b := tar[..];
    d, typeflag := None, if tar[156] == NUL then REGTYPE else tar[156];
    var ok := VerifyChecksum(tar);
    if !ok {
      return Some(BadChecksum), typeflag, d;
    }
    d := DecodeFields(tar);
    if d.None? {
      return Some(CorruptOctal), typeflag, d;
    }
    DecodedShape(b);
    bad := None;
  }

  /** Only an empty block looks at the flag that it may set. */
  lemma FlagIsCleared(data: seq<byte>, st: State, head: Head, filter: Filter, seeks: bool)
    requires st.pos <= |data| && !head.Empty?
    ensures AfterBlock(data, st, head, filter, seeks) == AfterBlock(data, st.(end := false), head, filter, seeks)
  {
    hide Walk, Slice, RoundUp, Jumped, Accepts;
  }

  lemma OnlyFilesHaveBodies(typeflag: byte, d: Decoded)
    requires d.name.Some? && d.mode < 4096
    ensures var m := MemberHead(typeflag, d).m; Format(m.mode) != S_IFREG ==> m.size == 0
  {
  }

  lemma BeyondTheEnd(data: seq<byte>, st: State, filter: Filter, seeks: bool)
    ensures Aligned(st).pos > |data| ==> Get(data, st, filter, seeks) == Stuck(ShortRead, [])
  {
  }

  lemma BlocksKeepAlignment(offset: int, n: int)
    requires AlignPadding(offset) == 0 && n == 512 * (n / 512)
    ensures AlignPadding(offset + n) == 0
  {
    hide AlignPadding;
    PaddingIs(offset);
    MultipleIsAligned(offset / 512 + n / 512);
  }

  /** After a block that calls for another one the count is a whole number of blocks. */
  lemma AgainIsAligned(data: seq<byte>, st: State, filter: Filter, seeks: bool)
    ensures var t := TurnOf(data, st, filter, seeks); t.Next? && t.again ==> Aligned(t.st) == t.st
  {
    hide Classify, Walk, Slice;
    var a := Aligned(st);
    AlignedStays(st.offset);
    if a.pos + BLOCK <= |data| {
      var head := Classify(data[a.pos..a.pos + BLOCK]);
      match head
      case PaxHeader(sz) => BlocksKeepAlignment(a.offset + BLOCK, RoundUp(sz)) by { RoundUpIsMultiple(sz); }
      case SkippedHeader(sz) => BlocksKeepAlignment(a.offset + BLOCK, RoundUp(sz)) by { RoundUpIsMultiple(sz); }
      case _ =>
    }
  }

  class ArchiveHandle {
    const src: Source
    const fs: System
    const header: FileHeader
    const useJump: bool
    const filter: Filter
    var offset: int
    var tarEnd: bool
    ghost var delivered: seq<Delivery>

    constructor (src: Source, fs: System, useJump: bool, filter: Filter)
      ensures this.src == src && this.fs == fs && this.useJump == useJump && this.filter == filter
      ensures fresh(header) && offset == 0 && !tarEnd && delivered == []
    {
      this.src, this.fs, this.useJump, this.filter := src, fs, useJump, filter;
      header := new FileHeader();
      offset, tarEnd, delivered := 0, false, [];
    }

    /** Data is skipped by moving the descriptor, not by reading. */
    ghost predicate Seeks() {
      useJump && src.seekable
    }

    ghost function Now(): State
      reads this, src
    {
      State(src.pos, offset, tarEnd)
    }

    method Seek(amount: int) returns (fate: Fate)
      modifies src
      ensures fate.Alive? ==>
                src.pos == if Seeks() then Jumped(old(src.pos), amount) else old(src.pos) + Abs(amount)
      ensures fate.Alive? && !Seeks() ==> amount == 0 || Abs(amount) <= old(src.Left())
      ensures fate.Dead? ==> !Seeks() && (src.faulty || old(src.Left()) < Abs(amount))
      ensures fate.Dead? ==> fate.why == ShortRead || (fate.why == IoError && src.faulty)
    {
      if useJump {
        fate := SeekByJump(src, amount);
      } else {
        fate := SeekByRead(src, amount);
      }
    }

    /** `data_align(archive_handle, 512)` */
    method DataAlign() returns (fate: Fate)
      modifies this`offset, src
      ensures fate.Alive? ==> Now() == Aligned(old(Now()))
      ensures fate.Dead? ==> src.faulty || (fate.why == ShortRead && Aligned(old(Now())).pos > |src.data|)
      ensures fate.Dead? ==> fate.why == ShortRead || fate.why == IoError
    {
      var skipAmount := AlignPadding(offset);
      fate := Seek(skipAmount);
      if fate.Alive? {
        offset := offset + skipAmount;
      }
    }

    /** `data_skip` */
    method DataSkip() returns (fate: Fate)
      modifies src
      ensures fate.Alive? ==>
                src.pos == if Seeks() then Jumped(old(src.pos), header.size) else old(src.pos) + Abs(header.size)
      ensures fate.Alive? && !Seeks() ==> header.size == 0 || Abs(header.size) <= old(src.Left())
      ensures fate.Dead? ==> !Seeks() && (src.faulty || old(src.Left()) < Abs(header.size))
      ensures fate.Dead? ==> fate.why == ShortRead || (fate.why == IoError && src.faulty)
    {
      fate := Seek(header.size);
    }

    /** `process_pax_hdr`: the whole payload with its padding is read, then the records are walked. */
    method ProcessPaxHdr(sz: nat) returns (fate: Fate)
      requires sz <= 0xfffff && src.pos <= |src.data|
      modifies this`offset, src
      ensures fate.Alive? ==>
                && old(src.pos) + sz <= old(src.pos) + RoundUp(sz) <= |src.data|
                && Walk(src.data[old(src.pos)..old(src.pos) + sz]) != Outside
                && src.pos == old(src.pos) + RoundUp(sz) && offset == old(offset) + RoundUp(sz)
      ensures fate.Dead? ==> fate.why == ShortRead || fate.why == OutsidePayload
      ensures fate.Dead? ==>
                || src.faulty
                || (fate.why == ShortRead && old(src.Left()) < RoundUp(sz))
                || (fate.why == OutsidePayload && old(src.pos) + sz <= old(src.pos) + RoundUp(sz) <= |src.data|
                    && Walk(src.data[old(src.pos)..old(src.pos) + sz]) == Outside)
    {
      hide Walk, Cursors;
      RoundUpBounds(sz);
      var blkSz: nat := RoundUp(sz);
      ghost var pos := src.pos;
      var buf := new byte[blkSz + 1](_ => NUL);
      fate := src.XRead(buf, 0, blkSz);
      if fate.Dead? {
        return;
      }
      offset := offset + blkSz;
      buf[sz] := NUL;
      assert pos + sz <= |src.data|;
      assert buf[..sz] == src.data[pos..pos + sz];
      var end := WalkRecords(buf, sz);
      if end == Outside {
        return Dead(OutsidePayload);
      }
    }

    /** An extension header nobody understands: its blocks are read one by one and dropped. */
    method SkipExtHdr(size: Numbers.OffT) returns (fate: Fate)
      requires src.pos <= |src.data|
      modifies this`offset, src
      ensures fate.Alive? ==>
                && 0 <= RoundUp(size) <= old(src.Left())
                && src.pos == old(src.pos) + RoundUp(size) && offset == old(offset) + RoundUp(size)
      ensures fate.Dead? ==> fate.why == ShortRead
      ensures fate.Dead? ==> src.faulty || RoundUp(size) < 0 || old(src.Left()) < RoundUp(size)
    {
      var sz := RoundUp(size);
      RoundUpIsMultiple(size);
      offset := offset + sz;
      ghost var total, start, left := sz, src.pos, src.Left();
      sz := sz / 512;
      assert total == 512 * sz;
      ghost var done := 0;
      var tar := new byte[BLOCK];
      // a negative count is not zero: the loop goes on until the stream runs out
      while sz != 0
        invariant src.pos == start + 512 * done <= |src.data|
        invariant total == 512 * (sz + done) && (total >= 0 <==> sz >= 0)
        invariant offset == old(offset) + total
        decreases src.Left()
      {
        sz := sz - 1;
        fate := src.XRead(tar, 0, BLOCK);
        if fate.Dead? {
          return;
        }
        done := done + 1;
      }
      fate := Alive;
    }

    /** The name goes into a buffer of its own and is stripped in place. */
    method SetName(name: seq<byte>) returns (buf: array<byte>)
      requires NoNul(name)
      ensures fresh(buf) && HoldsAt(buf[..], 0, Strip(name))
    {
      hide StripPoint;
      buf := new byte[|name| + 1](i => if 0 <= i < |name| then name[i] else NUL);
      var cp := StripUnsafePrefix(name);
      assert buf[cp..cp + |name[cp..]|] == name[cp..];
      OverlappingStrcpy(buf, 0, cp, Strip(name));
    }

    /** The header fields of a member, the name still with its trailing slash. */
    method FillHeader(typeflag: byte, d: Decoded)
      requires d.name.Some? && NoNul(d.name.value)
      modifies header
      ensures fresh(header.name)
      ensures header.Holds(MemberHead(typeflag, d).m.(name := Strip(d.name.value)))
      ensures header.device == if d.device.Some? then d.device.value else old(header.device)
    {
      hide FinalName, Strip;
      if d.device.Some? {
        header.device := d.device.value;
      }
      var (bits, empty) := TypeBits(typeflag, d.name.value);
      header.linkTarget, header.mtime := d.linkTarget, d.mtime;
      header.gid, header.uid, header.mode := d.gid, d.uid, d.mode + bits;
      header.size := if empty then 0 else d.size;
      header.name := SetName(d.name.value);
    }

    /**
     * The tail of `get_header_tar`: the filter sees the name with its trailing slash; then the slash is cut and the
     * member goes to `action_data`, or else it is skipped.
     */
    method TakeMember(ghost m: Member, ghost shown: seq<byte>) returns (r: Got, ghost grew: seq<Delivery>)
      requires header.Holds(m.(name := shown)) && m.name == CutSlash(shown)
      requires Format(m.mode) != S_IFREG ==> m.size == 0
      requires src.pos <= |src.data| && !tarEnd && fs.umask < NO_MASK
      modifies this, src, fs, header.name
      ensures fs.umask == old(fs.umask)
      ensures delivered == old(delivered) + grew
      ensures Agrees(r, AfterBlock(src.data, old(Now()), Entry(m, shown), filter, Seeks()), Now(), grew,
                     src.faulty, fs.reliable)
      ensures Unpacked(r, old(fs.nodes), fs.nodes, grew, fs.reliable)
    {
      hide Slice, ExtractOne, Format, CStr;
      HoldsIsCStr(header.name[..], 0, shown);
      assert header.name[..][0..] == header.name[..];
      grew := [];
      if Accepts(filter, CStr(header.name[..])) {
        DropLastSlash(header.name, shown);
        grew := [Delivery(m, BodyOf(src, m))];
        delivered := delivered + grew;
        var fate := DataExtractAll(fs, src, header, m);
        if fate.Dead? {
          return GotDied(fate.why), grew;
        }
      } else {
        var fate := DataSkip();
        if fate.Dead? {
          return GotDied(fate.why), grew;
        }
      }
      offset := offset + header.size;
      return GotHeader, grew;
    }

    /** Whatever is left of the stream is read, so that a writer at the other end of a pipe can finish. */
    method Drain(tar: array<byte>)
      requires tar.Length == BLOCK
      modifies src, tar
      ensures src.faulty || src.Left() == 0
    {
      var n := BLOCK;
      while n == BLOCK
        invariant n == BLOCK || src.faulty || src.Left() == 0
        decreases src.Left(), n
      {
        n := src.FullRead(tar, 0, BLOCK);
      }
    }

    /** The switch on the type flag. */
    method ActOn(typeflag: byte, d: Decoded) returns (r: Got, ghost grew: seq<Delivery>)
      requires d.name.Some? <==> ParsesNames(typeflag)
      requires (d.name.Some? ==> NoNul(d.name.value)) && d.mode < 4096
      requires src.pos <= |src.data| && !tarEnd && fs.umask < NO_MASK
      modifies this, src, fs, header
      ensures fs.umask == old(fs.umask)
      ensures delivered == old(delivered) + grew
      ensures Agrees(r, AfterBlock(src.data, old(Now()), Dispatch(typeflag, d), filter, Seeks()), Now(), grew,
                     src.faulty, fs.reliable)
      ensures Unpacked(r, old(fs.nodes), fs.nodes, grew, fs.reliable)
    {
      hide Walk, Slice, ExtractOne, TypeBits, Strip, RoundUp;
      grew := [];
      if d.name.Some? {
        FillHeader(typeflag, d);
        OnlyFilesHaveBodies(typeflag, d);
        r, grew := TakeMember(MemberHead(typeflag, d).m, Strip(d.name.value));
        return;
      }
      if typeflag != PAX_GLOBAL && typeflag != PAX_NEXT {
        return GotDied(UnknownType), grew;
      }
      var fate;
      if d.size % Numbers.TWO32 > 0xfffff {
        fate := SkipExtHdr(d.size);
      } else {
        fate := ProcessPaxHdr(d.size % Numbers.TWO32);
      }
      return if fate.Alive? then Again else GotDied(fate.why), grew;
    }

    /** The block has been read: is it empty, is it sound, and what does it ask for. */
    method ActOnBlock(tar: array<byte>) returns (r: Got, ghost grew: seq<Delivery>)
      requires tar.Length == BLOCK && src.pos <= |src.data| && fs.umask < NO_MASK
      modifies this, src, fs, header, tar
      ensures fs.umask == old(fs.umask)
      ensures delivered == old(delivered) + grew
      ensures Agrees(r, AfterBlock(src.data, old(Now()), Classify(old(tar[..])), filter, Seeks()), Now(), grew,
                     src.faulty, fs.reliable)
      ensures Unpacked(r, old(fs.nodes), fs.nodes, grew, fs.reliable)
    {
      hide Classify, Dispatch, Walk, Slice, ExtractOne, Accepts, RoundUp, Jumped;
      grew := [];
      ClassifyEmpty(tar[..]);
      if tar[0] == NUL && tar[345] == NUL {
        if tarEnd {
          Drain(tar);
          return EndOfArchive, grew;
        }
        tarEnd := true;
        return GotHeader, grew;
      }
      ghost var was := Now();
      tarEnd := false;
      var bad, typeflag, d := DecodeBlock(tar);
      if bad.Some? {
        return GotDied(bad.value), grew;
      }
      hide Agrees, Unpacked;
      r, grew := ActOn(typeflag, d.value);
      FlagIsCleared(src.data, was, Dispatch(typeflag, d.value), filter, Seeks());
    }

    /** From the label `again_after_align` on: one block and what belongs to it. */
    method TakeBlock() returns (r: Got, ghost grew: seq<Delivery>)
      requires fs.umask < NO_MASK
      modifies this, src, fs, header
      ensures fs.umask == old(fs.umask)
      ensures delivered == old(delivered) + grew
      ensures Agrees(r, TakeOne(src.data, old(Now()), filter, Seeks()), Now(), grew, src.faulty, fs.reliable)
      ensures Unpacked(r, old(fs.nodes), fs.nodes, grew, fs.reliable)
    {
      hide Classify, AfterBlock, ExtractOne;
      grew := [];
      var tar := new byte[BLOCK];
      ghost var pos := src.pos;
      var fate := src.XRead(tar, 0, BLOCK);
      if fate.Dead? {
        return GotDied(fate.why), grew;
      }
      offset := offset + BLOCK;
      assert tar[..] == src.data[pos..pos + BLOCK];
      hide Agrees, Unpacked;
      r, grew := ActOnBlock(tar);
    }

    /** `get_header_tar` */
    method GetHeaderTar() returns (r: Got, ghost grew: seq<Delivery>)
      requires fs.umask < NO_MASK
      modifies this, src, fs, header
      ensures fs.umask == old(fs.umask)
      ensures delivered == old(delivered) + grew
      ensures Agrees(r, Get(src.data, old(Now()), filter, Seeks()), Now(), grew, src.faulty, fs.reliable)
      ensures Unpacked(r, old(fs.nodes), fs.nodes, grew, fs.reliable)
      ensures r == GotHeader && Get(src.data, old(Now()), filter, Seeks()).size >= 0 ==>
                src.pos - offset == old(src.pos - offset)
      ensures r == GotHeader && filter.AcceptAll? && Get(src.data, old(Now()), filter, Seeks()).size < 0 ==>
                src.pos - offset != old(src.pos - offset)
    {
      hide TakeOne, ExtractOne, AlignPadding;
      ghost var st := Now();
      grew := [];
      var fate := DataAlign();
      if fate.Dead? {
        BeyondTheEnd(src.data, st, filter, Seeks());
        return GotDied(fate.why), grew;
      }
      ghost var from := st;
      while true
        invariant Now() == Aligned(from)
        invariant Get(src.data, from, filter, Seeks()) == Get(src.data, st, filter, Seeks())
        invariant fs.umask == old(fs.umask) && fs.nodes == old(fs.nodes) && delivered == old(delivered)
        decreases Remaining(src.data, from.pos)
      {
        TurnMoves(src.data, from, filter, Seeks());
        AgainIsAligned(src.data, from, filter, Seeks());
        r, grew := TakeBlock();
        if r != Again {
          PositionInvariant(src.data, st, filter, Seeks());
          return;
        }
        from := Now();
      }
    }
  }

  /** Symbolic links, devices and FIFOs cannot be unpacked here: whatever the file system holds, they are fatal. */
  lemma SpecialMembersAreFatal(nodes: Nodes, typeflag: byte, d: Decoded, body: seq<byte>)
    requires d.name.Some? && d.mode < 4096 && typeflag in {50, CHRTYPE, 52, FIFOTYPE}
    ensures ExtractOne(nodes, Delivery(MemberHead(typeflag, d).m, body)).fate == Dead(FsError)
  {
    hide LeadingDirs, UnlinkError, AfterUnlink, FinalName, Strip;
    var (bits, empty) := TypeBits(typeflag, d.name.value);
    assert Format(d.mode + bits) == bits;
  }

  // ---------------------------------------------------------------- tarExtract

  /** A run ends normally only behind an empty block, so a header has been seen by then. */
  lemma EndedNeedsFlag(data: seq<byte>, st: State, filter: Filter, seeks: bool)
    ensures Get(data, st, filter, seeks).Ended? ==> st.end
    decreases Remaining(data, st.pos)
  {
    hide Classify, Walk, Slice, RoundUp, Jumped, Accepts;
    TurnMoves(data, st, filter, seeks);
    var t := TurnOf(data, st, filter, seeks);
    if t.Next? && t.again {
      EndedNeedsFlag(data, t.st, filter, seeks);
    }
  }

  lemma RunByHeaders(data: seq<byte>, st: State, seeks: bool)
    ensures Run(data, st) ==
            match Get(data, st, AcceptAll, seeks)
            case Next(next, _, out, _, _) => RunResult(out + Run(data, next).out, Run(data, next).fate)
            case Ended => RunResult([], Finished)
            case Stuck(why, out) => RunResult(out, Broken(why))
  {
    hide Get;
    SeekingIsIrrelevant(data, st);
  }

  lemma ExtractOneMore(nodes: Nodes, ds: seq<Delivery>, d: Delivery)
    requires ExtractAll(nodes, ds).fate.Alive?
    ensures ExtractAll(nodes, ds + [d]) == ExtractOne(ExtractAll(nodes, ds).nodes, d)
  {
    hide ExtractOne;
  }

  /** The loop and the file system after some headers. */
  ghost predicate SoFar(data: seq<byte>, st: State, ds: seq<Delivery>, nodes0: Nodes, nodes: Nodes, reliable: bool) {
    && Run(data, START).out == ds + Run(data, st).out
    && Run(data, START).fate == Run(data, st).fate
    && (reliable ==> ExtractAll(nodes0, ds) == Extraction(nodes, Alive))
    && (reliable && ds != [] ==> ExtractAll(nodes0, ds[..|ds| - 1]).fate.Alive?)
  }

  /** The deliveries are those of the state machine, as far as the run got. */
  ghost predicate OnStream(data: seq<byte>, died: Option<Death>, ds: seq<Delivery>, faulty: bool, reliable: bool) {
    var run := Run(data, START);
    && ds <= run.out
    && (died == None ==> run == RunResult(ds, Finished))
    && (died.Some? && !faulty ==>
          || run == RunResult(ds, Broken(died.value))
          || (died.value == FsError && ds != [])
          || (died.value == IoError && ds != [] && !reliable))
  }

  /** The files are what the deliveries made of them, and only the last of them can have been fatal. */
  ghost predicate InFiles(died: Option<Death>, ds: seq<Delivery>, nodes0: Nodes, nodes: Nodes, reliable: bool) {
    reliable && died != Some(IoError) ==>
      && ExtractAll(nodes0, ds).nodes == nodes
      && (ExtractAll(nodes0, ds).fate.Dead? <==> died == Some(FsError))
      && (ds != [] ==> ExtractAll(nodes0, ds[..|ds| - 1]).fate.Alive?)
  }

  /** What the caller of `tarExtract` can rely on when the loop is over. */
  ghost predicate Outcome(data: seq<byte>, died: Option<Death>, ds: seq<Delivery>, nodes0: Nodes, nodes: Nodes,
                          faulty: bool, reliable: bool) {
    OnStream(data, died, ds, faulty, reliable) && InFiles(died, ds, nodes0, nodes, reliable)
  }

  lemma SurvivedFate(nodes: Nodes, d: Delivery)
    ensures ExtractOne(nodes, d).fate.Dead? || ExtractOne(nodes, d) == Extraction(ExtractOne(nodes, d).nodes, Alive)
  {
    hide ExtractOne;
  }

  lemma OneMoreHeader(data: seq<byte>, seeks: bool, st: State, ds: seq<Delivery>, nodes0: Nodes, nodes: Nodes,
                      next: State, grew: seq<Delivery>, now: Nodes, faulty: bool, reliable: bool)
    requires SoFar(data, st, ds, nodes0, nodes, reliable)
    requires Agrees(GotHeader, Get(data, st, AcceptAll, seeks), next, grew, faulty, reliable)
    requires Unpacked(GotHeader, nodes, now, grew, reliable)
    ensures SoFar(data, next, ds + grew, nodes0, now, reliable)
  {
    hide Get, Run, ExtractOne, ExtractAll;
    RunByHeaders(data, st, seeks);
    assert ds + (grew + Run(data, next).out) == ds + grew + Run(data, next).out;
    if grew != [] && reliable {
      assert grew == [grew[0]];
      assert (ds + grew)[..|ds + grew| - 1] == ds;
      ExtractOneMore(nodes0, ds, grew[0]);
      SurvivedFate(nodes, grew[0]);
    } else {
      assert ds + [] == ds;
    }
  }

  lemma LastOnStream(data: seq<byte>, seeks: bool, st: State, ds: seq<Delivery>, nodes0: Nodes, nodes: Nodes,
                     r: Got, next: State, grew: seq<Delivery>, faulty: bool, reliable: bool)
    requires SoFar(data, st, ds, nodes0, nodes, reliable)
    requires r.EndOfArchive? || r.GotDied?
    requires Agrees(r, Get(data, st, AcceptAll, seeks), next, grew, faulty, reliable)
    ensures OnStream(data, if r.GotDied? then Some(r.why) else None, ds + grew, faulty, reliable)
  {
    hide Get, Run, ExtractAll;
    RunByHeaders(data, st, seeks);
    var run := Run(data, st).out;
    assert grew <= run;
    assert (ds + run)[..|ds + grew|] == ds + run[..|grew|];
    assert grew == [] ==> ds + grew == ds;
  }

  lemma LastInFiles(data: seq<byte>, st: State, ds: seq<Delivery>, nodes0: Nodes, nodes: Nodes,
                    r: Got, grew: seq<Delivery>, now: Nodes, reliable: bool)
    requires SoFar(data, st, ds, nodes0, nodes, reliable)
    requires Unpacked(r, nodes, now, grew, reliable)
    ensures InFiles(if r.GotDied? then Some(r.why) else None, ds + grew, nodes0, now, reliable)
  {
    hide Run, ExtractOne, ExtractAll;
    if grew != [] && reliable && r != GotDied(IoError) {
      assert grew == [grew[0]];
      assert (ds + grew)[..|ds + grew| - 1] == ds;
      ExtractOneMore(nodes0, ds, grew[0]);
    } else {
      assert grew == [] ==> ds + grew == ds;
    }
  }

  lemma LastHeader(data: seq<byte>, seeks: bool, st: State, ds: seq<Delivery>, nodes0: Nodes, nodes: Nodes,
                   r: Got, next: State, grew: seq<Delivery>, now: Nodes, faulty: bool, reliable: bool)
    requires SoFar(data, st, ds, nodes0, nodes, reliable)
    requires r.EndOfArchive? || r.GotDied?
    requires Agrees(r, Get(data, st, AcceptAll, seeks), next, grew, faulty, reliable)
    requires Unpacked(r, nodes, now, grew, reliable)
    ensures Outcome(data, if r.GotDied? then Some(r.why) else None, ds + grew, nodes0, now, faulty, reliable)
  {
    hide Get, Run, ExtractOne, ExtractAll, OnStream, InFiles;
    LastOnStream(data, seeks, st, ds, nodes0, nodes, r, next, grew, faulty, reliable);
    LastInFiles(data, st, ds, nodes0, nodes, r, grew, now, reliable);
  }

  lemma NothingRead(data: seq<byte>, nodes: Nodes)
    ensures SoFar(data, START, [], nodes, nodes, true) && SoFar(data, START, [], nodes, nodes, false)
  {
    hide Run;
  }

  lemma NotAgain(r: Got, t: Turn, st: State, grew: seq<Delivery>, faulty: bool, reliable: bool)
    requires Agrees(r, t, st, grew, faulty, reliable) && (t.Next? ==> !t.again)
    ensures !r.Again? && (r.EndOfArchive? ==> t.Ended?)
  {
  }

  lemma HeaderMoves(data: seq<byte>, st: State, seeks: bool, now: State, grew: seq<Delivery>,
                    faulty: bool, reliable: bool)
    requires Agrees(GotHeader, Get(data, st, AcceptAll, seeks), now, grew, faulty, reliable)
    ensures Remaining(data, now.pos) < Remaining(data, st.pos)
  {
    hide Get;
  }

  lemma OutcomeIsSafe(data: seq<byte>, died: Option<Death>, ds: seq<Delivery>, nodes0: Nodes, nodes: Nodes,
                      faulty: bool, reliable: bool)
    requires Outcome(data, died, ds, nodes0, nodes, faulty, reliable)
    ensures forall d :: d in ds ==> Safe(d.m.name)
  {
    hide Run, ExtractAll, Safe;
    DeliveredNamesAreSafe(data);
    forall d | d in ds ensures d in Run(data, START).out {
      var i :| 0 <= i < |ds| && ds[i] == d;
      assert Run(data, START).out[..|ds|][i] == d;
    }
  }

  /**
   * The extraction loop of `tarExtract`. Whatever way the source is skipped and however its reads are broken up, the
   * deliveries are those of the state machine.
   */
  method TarExtract(src: Source, fs: System, useJump: bool)
    returns (ret: bool, died: Option<Death>, ghost delivered: seq<Delivery>)
    requires src.pos == 0 && fs.umask < NO_MASK
    modifies src, fs
    ensures fs.umask == old(fs.umask)
    ensures Outcome(src.data, died, delivered, old(fs.nodes), fs.nodes, src.faulty, fs.reliable)
    ensures forall d :: d in delivered ==> Safe(d.m.name)
    ensures died == None ==> ret
  {
    hide Run, ExtractAll, Get, Agrees, Unpacked, Outcome;
    ghost var data, nodes0 := src.data, fs.nodes;
    var handle := new ArchiveHandle(src, fs, useJump, AcceptAll);
    ret, died := false, None;
    assert SoFar(data, START, [], nodes0, nodes0, fs.reliable) by { NothingRead(data, nodes0); }
    while true
      invariant handle.src == src && handle.fs == fs && handle.filter == AcceptAll
      invariant fresh(handle) && fresh(handle.header) && fs.umask == old(fs.umask)
      invariant SoFar(data, handle.Now(), handle.delivered, nodes0, fs.nodes, fs.reliable)
      invariant handle.tarEnd ==> ret
      decreases Remaining(data, src.pos)
    {
      ghost var st, ds, nodes, seeks := handle.Now(), handle.delivered, fs.nodes, handle.Seeks();
      var r; ghost var grew;
      r, grew := handle.GetHeaderTar();
      if r != GotHeader {
        EndedNeedsFlag(data, st, AcceptAll, seeks);
        NotAgain(r, Get(data, st, AcceptAll, seeks), handle.Now(), grew, src.faulty, fs.reliable);
        LastHeader(data, seeks, st, ds, nodes0, nodes, r, handle.Now(), grew, fs.nodes, src.faulty, fs.reliable);
        delivered := handle.delivered;
        died := if r.GotDied? then Some(r.why) else None;
        OutcomeIsSafe(data, died, delivered, nodes0, fs.nodes, src.faulty, fs.reliable);
        return;
      }
      OneMoreHeader(data, seeks, st, ds, nodes0, nodes, handle.Now(), grew, fs.nodes, src.faulty, fs.reliable);
      HeaderMoves(data, st, seeks, handle.Now(), grew, src.faulty, fs.reliable);
      ret := true;
    }
  }
}

/** The reading half as a state machine over header blocks. */
module Reader {
  import opened Bytes
  import opened Header
  import opened Names
  import opened Streams
  import opened Writer
  import opened Pax
  import opened Extract

  /** Where the stream stands, the bytes counted so far, and whether the last block was an empty one. */
  datatype State = State(pos: nat, offset: int, end: bool)

  /** Which members are handed on; the program itself accepts all. */
  datatype Filter = AcceptAll | Rejecting(names: set<seq<byte>>)

  predicate Accepts(f: Filter, name: seq<byte>) {
    f.AcceptAll? || name !in f.names
  }

  /** The outcome of one block. */
  datatype Turn =
    | Next(st: State, again: bool, out: seq<Delivery>, size: int, skipped: bool)
    | Ended
    | Stuck(why: Death, out: seq<Delivery>)

  function OutOf(t: Turn): seq<Delivery> {
    if t.Ended? then [] else t.out
  }

  function Aligned(st: State): (r: State)
    ensures r.end == st.end
  {
    st.(pos := st.pos + AlignPadding(st.offset), offset := st.offset + AlignPadding(st.offset))
  }

  /** The part of a block's meaning behind the block itself: st is the state just after it. */
  function AfterBlock(data: seq<byte>, st: State, head: Head, filter: Filter, seeks: bool): Turn
    requires st.pos <= |data|
  {
    match head
    case Empty => if st.end then Ended else Next(st.(end := true), false, [], 0, false)
    case Bad(why) => Stuck(why, [])
    case PaxHeader(sz) =>
      var r := RoundUp(sz);
      if st.pos + r > |data| then Stuck(ShortRead, [])
      else if Walk(data[st.pos..st.pos + sz]) == Outside then Stuck(OutsidePayload, [])
      else Next(State(st.pos + r, st.offset + r, false), true, [], 0, false)
    case SkippedHeader(sz) =>
      var r := RoundUp(sz);
      if r < 0 || st.pos + r > |data| then Stuck(ShortRead, [])
      else Next(State(st.pos + r, st.offset + r, false), true, [], 0, false)
    case Entry(m, shown) =>
      var q := st.pos + Abs(m.size);
      if Accepts(filter, shown) then
        var out := [Delivery(m, Slice(data, st.pos, q))];
        if q > |data| then Stuck(ShortRead, out)
        else Next(State(q, st.offset + m.size, false), false, out, m.size, false)
      else if seeks then Next(State(Jumped(st.pos, m.size), st.offset + m.size, false), false, [], m.size, true)
      else if q > |data| then Stuck(ShortRead, [])
      else Next(State(q, st.offset + m.size, false), false, [], m.size, true)
  }

  /** One header block from an aligned state. */
  function TakeOne(data: seq<byte>, st: State, filter: Filter, seeks: bool): Turn {
    if st.pos + BLOCK > |data| then Stuck(ShortRead, [])
    else AfterBlock(data, st.(pos := st.pos + BLOCK, offset := st.offset + BLOCK),
                    Classify(data[st.pos..st.pos + BLOCK]), filter, seeks)
  }

  /** One header block: alignment, the block, and what belongs to it. */
  function TurnOf(data: seq<byte>, st: State, filter: Filter, seeks: bool): Turn {
    TakeOne(data, Aligned(st), filter, seeks)
  }

  function Remaining(data: seq<byte>, pos: nat): nat {
    if pos < |data| then |data| - pos else 0
  }

  lemma RoundUpBounds(n: int)
    ensures n <= RoundUp(n) < n + 512
  {
  }

  /** Every block that is followed by another one has consumed at least its own 512 bytes. */
  lemma TurnMoves(data: seq<byte>, st: State, filter: Filter, seeks: bool)
    ensures var t := TurnOf(data, st, filter, seeks);
            t.Next? && !t.skipped ==> st.pos + BLOCK <= t.st.pos <= |data|
    ensures var t := TurnOf(data, st, filter, seeks);
            t.Next? && t.again ==> !t.skipped && t.out == [] && t.size == 0
    ensures var t := TurnOf(data, st, filter, seeks);
            t.Next? && filter.AcceptAll? ==> !t.skipped
  {
    hide Classify, Walk, Slice;
    var a := Aligned(st);
    if a.pos + BLOCK <= |data| {
      var head := Classify(data[a.pos..a.pos + BLOCK]);
      match head
      case PaxHeader(sz) => RoundUpBounds(sz);
      case SkippedHeader(sz) => RoundUpBounds(sz);
      case _ =>
    }
  }

  /** `get_header_tar`: blocks are taken until one of them is a member, an empty block, or fatal. */
  function Get(data: seq<byte>, st: State, filter: Filter, seeks: bool): (t: Turn)
    ensures t.Next? ==> !t.again
    ensures t.Next? && filter.AcceptAll? ==> !t.skipped && st.pos + BLOCK <= t.st.pos <= |data|
    decreases Remaining(data, st.pos)
  {
    TurnMoves(data, st, filter, seeks);
    var t := TurnOf(data, st, filter, seeks);
    if t.Next? && t.again then Get(data, t.st, filter, seeks) else t
  }

  datatype RunFate = Finished | Broken(why: Death)

  datatype RunResult = RunResult(out: seq<Delivery>, fate: RunFate)

  /** The loop of `tarExtract`: everything handed to `action_data`, and how the run ends. */
  function Run(data: seq<byte>, st: State): RunResult
    decreases Remaining(data, st.pos)
  {
    match Get(data, st, AcceptAll, true)
    case Next(next, _, out, _, _) =>
      var rest := Run(data, next);
      RunResult(out + rest.out, rest.fate)
    case Ended => RunResult([], Finished)
    case Stuck(why, out) => RunResult(out, Broken(why))
  }

  const START: State := State(0, 0, false)

  // ---------------------------------------------------------------- seek strategies

  /** With nothing rejected, the way data is skipped makes no difference. */
  lemma {:induction false} SeekingIsIrrelevant(data: seq<byte>, st: State)
    ensures Get(data, st, AcceptAll, true) == Get(data, st, AcceptAll, false)
    decreases Remaining(data, st.pos)
  {
    hide Classify, Walk;
    TurnMoves(data, st, AcceptAll, true);
    var t := TurnOf(data, st, AcceptAll, true);
    assert t == TurnOf(data, st, AcceptAll, false);
    if t.Next? && t.again {
      SeekingIsIrrelevant(data, t.st);
    }
  }

  // ---------------------------------------------------------------- positions

  /** By how much a negative size throws the count off. */
  function Drift(size: int): nat {
    Abs(size) - size
  }

  lemma TurnDrift(data: seq<byte>, st: State, filter: Filter, seeks: bool)
    ensures var t := TurnOf(data, st, filter, seeks);
            t.Next? && (!t.skipped || !seeks) ==>
              t.st.pos - t.st.offset == st.pos - st.offset + Drift(t.size)
    ensures var t := TurnOf(data, st, filter, seeks);
            t.Next? && t.size >= 0 ==> t.st.pos - t.st.offset == st.pos - st.offset
  {
    hide Classify, Walk, Slice, RoundUp, AlignPadding;
  }

  /**
   * A header that is decoded keeps the difference between stream position and count, through alignment, pax blocks,
   * extension blocks, empty and skipped bodies, exactly if its size is not negative; otherwise it adds twice the
   * amount. (A rejected member on a seekable stream is jumped over, in either direction.)
   */
  lemma {:induction false} PositionInvariant(data: seq<byte>, st: State, filter: Filter, seeks: bool)
    ensures var t := Get(data, st, filter, seeks);
            t.Next? && (!t.skipped || !seeks) ==>
              t.st.pos - t.st.offset == st.pos - st.offset + Drift(t.size)
    ensures var t := Get(data, st, filter, seeks);
            t.Next? && t.size >= 0 ==> t.st.pos - t.st.offset == st.pos - st.offset
    decreases Remaining(data, st.pos)
  {
    hide TurnOf;
    TurnMoves(data, st, filter, seeks);
    TurnDrift(data, st, filter, seeks);
    var t := TurnOf(data, st, filter, seeks);
    if t.Next? && t.again {
      PositionInvariant(data, t.st, filter, seeks);
    }
  }

  /** The state after n headers of a run, and what was delivered by then; None if the run is over before. */
  function After(data: seq<byte>, n: nat): Option<(State, seq<Delivery>)> {
    if n == 0 then Some((START, []))
    else
      match After(data, n - 1)
      case None => None
      case Some((st, out)) =>
        match Get(data, st, AcceptAll, true)
        case Next(next, _, more, _, _) => Some((next, out + more))
        case _ => None
  }

  function TotalDrift(ds: seq<Delivery>): (d: nat)
    ensures d == 0 <==> forall i :: 0 <= i < |ds| ==> ds[i].m.size >= 0
  {
    if ds == [] then 0 else TotalDrift(ds[..|ds| - 1]) + Drift(ds[|ds| - 1].m.size)
  }

  lemma GetDelivers(data: seq<byte>, st: State)
    ensures var t := Get(data, st, AcceptAll, true);
            t.Next? ==> (t.out == [] && t.size == 0) || (|t.out| == 1 && t.out[0].m.size == t.size)
    decreases Remaining(data, st.pos)
  {
    hide Classify, Walk, Slice, RoundUp, AlignPadding;
    TurnMoves(data, st, AcceptAll, true);
    var t := TurnOf(data, st, AcceptAll, true);
    if t.Next? && t.again {
      GetDelivers(data, t.st);
    }
  }

  /** On every run, after any number of headers, the count equals the bytes consumed exactly if no size was negative. */
  lemma {:induction false} CountIsPosition(data: seq<byte>, n: nat)
    requires After(data, n).Some?
    ensures var (st, out) := After(data, n).value;
            && st.pos - st.offset == TotalDrift(out)
            && (st.offset == st.pos <==> forall i :: 0 <= i < |out| ==> out[i].m.size >= 0)
  {
    hide Get;
    if n > 0 {
      CountIsPosition(data, n - 1);
      var (st, out) := After(data, n - 1).value;
      var t := Get(data, st, AcceptAll, true);
      PositionInvariant(data, st, AcceptAll, true);
      GetDelivers(data, st);
      if t.out == [] {
        assert out + t.out == out;
      } else {
        var all := out + t.out;
        assert all[..|all| - 1] == out && all[|all| - 1] == t.out[0];
      }
    }
  }

  // ---------------------------------------------------------------- end of archive

  /** The positions of the header blocks a run reads. */
  function Headers(data: seq<byte>, st: State): seq<nat>
    decreases Remaining(data, st.pos)
  {
    TurnMoves(data, st, AcceptAll, true);
    var a := Aligned(st);
    if a.pos + BLOCK > |data| then []
    else
      match TurnOf(data, st, AcceptAll, true)
      case Next(next, _, _, _, _) => [a.pos] + Headers(data, next)
      case _ => [a.pos]
  }

  /** A block without a name and without a prefix. */
  predicate EmptyAt(data: seq<byte>, p: nat) {
    p + BLOCK <= |data| && data[p] == NUL && data[p + 345] == NUL
  }

  /** The run, block by block. */
  lemma RunByTurns(data: seq<byte>, st: State)
    ensures Run(data, st) ==
            match TurnOf(data, st, AcceptAll, true)
            case Next(next, _, out, _, _) => RunResult(out + Run(data, next).out, Run(data, next).fate)
            case Ended => RunResult([], Finished)
            case Stuck(why, out) => RunResult(out, Broken(why))
  {
    TurnMoves(data, st, AcceptAll, true);
    hide TurnOf;
    var t := TurnOf(data, st, AcceptAll, true);
    if t.Next? && t.again {
      assert Get(data, st, AcceptAll, true) == Get(data, t.st, AcceptAll, true);
      assert [] + Run(data, t.st).out == Run(data, t.st).out;
    }
  }

  lemma ClassifyEmpty(b: seq<byte>)
    requires |b| == BLOCK
    ensures Classify(b).Empty? <==> b[0] == NUL && b[345] == NUL
  {
    hide ChecksumOk, PureDecode;
  }

  lemma MultipleIsAligned(k: int)
    ensures AlignPadding(512 * k) == 0
  {
  }

  lemma AlignedStays(offset: int)
    ensures AlignPadding(offset + AlignPadding(offset)) == 0
    ensures AlignPadding(offset + AlignPadding(offset) + BLOCK) == 0
  {
    hide AlignPadding;
    PaddingIs(offset);
    var k := offset / 512 + if offset % 512 == 0 then 0 else 1;
    assert offset + AlignPadding(offset) == 512 * k;
    MultipleIsAligned(k);
    MultipleIsAligned(k + 1);
  }

  /** What a block does to the flag that remembers an empty one. */
  lemma FlagFollowsBlock(data: seq<byte>, st: State)
    requires Aligned(st).pos + BLOCK <= |data|
    ensures var t := TurnOf(data, st, AcceptAll, true);
            && (t.Ended? <==> st.end && EmptyAt(data, Aligned(st).pos))
            && (t.Next? ==> (t.st.end <==> EmptyAt(data, Aligned(st).pos)))
            && (EmptyAt(data, Aligned(st).pos) ==> !t.Stuck? && (t.Next? ==> t.out == []))
            && (t.Next? && t.st.end ==> Aligned(t.st).pos == Aligned(st).pos + BLOCK)
  {
    hide ChecksumOk, PureDecode, Dispatch, Walk, RoundUp, Slice;
    var a := Aligned(st);
    var b := data[a.pos..a.pos + BLOCK];
    assert b[0] == data[a.pos] && b[345] == data[a.pos + 345];
    ClassifyEmpty(b);
    AlignedStays(st.offset);
  }

  predicate Pair(data: seq<byte>, hs: seq<nat>, i: nat)
    requires i + 1 < |hs|
  {
    EmptyAt(data, hs[i]) && EmptyAt(data, hs[i + 1])
  }

  lemma NoBlock(data: seq<byte>, st: State)
    requires Aligned(st).pos + BLOCK > |data|
    ensures TurnOf(data, st, AcceptAll, true).Stuck?
  {
  }

  lemma {:induction false} EndingFrom(data: seq<byte>, st: State)
    ensures var hs := Headers(data, st);
            && (Run(data, st).fate == Finished <==>
                  || (|hs| == 1 && st.end && EmptyAt(data, hs[0]))
                  || (|hs| >= 2 && Pair(data, hs, |hs| - 2)))
            && (forall i :: 0 <= i && i + 2 < |hs| ==> !Pair(data, hs, i))
            && (|hs| >= 2 && st.end ==> !EmptyAt(data, hs[0]))
            && (hs != [] ==> hs[0] == Aligned(st).pos)
            && (forall i :: 0 <= i && i + 1 < |hs| && EmptyAt(data, hs[i]) ==> hs[i + 1] == hs[i] + BLOCK)
    decreases Remaining(data, st.pos)
  {
    hide TurnOf, Run, EmptyAt, Aligned;
    TurnMoves(data, st, AcceptAll, true);
    RunByTurns(data, st);
    var a, hs := Aligned(st), Headers(data, st);
    if a.pos + BLOCK > |data| {
      NoBlock(data, st);
    } else {
      FlagFollowsBlock(data, st);
      var t := TurnOf(data, st, AcceptAll, true);
      if t.Next? {
        var rest := Headers(data, t.st);
        assert hs == [a.pos] + rest;
        EndingFrom(data, t.st);
        forall i | 0 <= i && i + 2 < |hs| ensures !Pair(data, hs, i) {
          if i > 0 {
            assert !Pair(data, rest, i - 1);
          }
        }
        assert |rest| >= 2 ==> (Pair(data, hs, |hs| - 2) <==> Pair(data, rest, |rest| - 2));
        forall i | 0 <= i && i + 1 < |hs| && EmptyAt(data, hs[i]) ensures hs[i + 1] == hs[i] + BLOCK {
          assert i > 0 ==> EmptyAt(data, rest[i - 1]);
        }
      }
    }
  }

  /**
   * A run ends normally exactly when the last two header blocks it reads are both empty, and then they are adjacent
   * in the stream; no two empty blocks follow each other before that.
   */
  lemma EndOfArchive(data: seq<byte>)
    ensures var hs := Headers(data, START);
            && (Run(data, START).fate == Finished <==> |hs| >= 2 && Pair(data, hs, |hs| - 2))
            && (forall i :: 0 <= i && i + 2 < |hs| ==> !Pair(data, hs, i))
            && (forall i :: 0 <= i && i + 1 < |hs| && EmptyAt(data, hs[i]) ==> hs[i + 1] == hs[i] + BLOCK)
  {
    assert !START.end;
    hide *;
    EndingFrom(data, START);
  }

  // ---------------------------------------------------------------- names that are delivered

  predicate AllSafe(ds: seq<Delivery>) {
    forall i :: 0 <= i < |ds| ==> Safe(ds[i].m.name)
  }

  lemma CutIsSafe(s: seq<byte>)
    requires Safe(s)
    ensures Safe(CutSlash(s))
  {
    var c := CutSlash(s);
    forall j | 0 <= j <= |c| ensures !DotDotAt(c, j) {
      assert DotDotAt(c, j) ==> DotDotAt(s, j);
    }
  }

  lemma FinalNameIsSafe(name: seq<byte>)
    ensures Safe(FinalName(name))
  {
    hide Safe, Strip, CutSlash;
    StripIdempotent(name);
    CutIsSafe(Strip(name));
  }

  lemma ClassifiedIsSafe(b: seq<byte>)
    requires |b| == BLOCK
    ensures Classify(b).Entry? ==> Safe(Classify(b).m.name)
  {
    hide ChecksumOk, PureDecode, Safe, FinalName, TypeBits;
    if PureDecode(b).Some? && PureDecode(b).value.name.Some? {
      FinalNameIsSafe(PureDecode(b).value.name.value);
    }
  }

  lemma TurnIsSafe(data: seq<byte>, st: State)
    ensures AllSafe(OutOf(TurnOf(data, st, AcceptAll, true)))
  {
    hide Classify, Safe, Walk, Slice, RoundUp, AlignPadding;
    var a := Aligned(st);
    if a.pos + BLOCK <= |data| {
      ClassifiedIsSafe(data[a.pos..a.pos + BLOCK]);
    }
  }

  lemma {:induction false} RunIsSafe(data: seq<byte>, st: State)
    ensures AllSafe(Run(data, st).out)
    decreases Remaining(data, st.pos)
  {
    hide TurnOf, Run, Safe;
    TurnMoves(data, st, AcceptAll, true);
    RunByTurns(data, st);
    TurnIsSafe(data, st);
    var t := TurnOf(data, st, AcceptAll, true);
    if t.Next? {
      RunIsSafe(data, t.st);
    }
  }

  /**
   * Whatever the stream holds, no member is ever handed on with a name that starts with a slash or has a ".."
   * component before its last one.
   */
  lemma DeliveredNamesAreSafe(data: seq<byte>)
    ensures forall d :: d in Run(data, START).out ==> Safe(d.m.name)
  {
    hide Run, Safe;
    RunIsSafe(data, START);
  }
}

/** Laws of the reader on streams as such: what stands in front, what is cut off, what is fatal, what is filtered. */
module ReaderLaws {
  import opened Bytes
  import opened Header
  import opened Streams
  import opened Writer
  import opened Pax
  import opened Extract
  import opened Reader

  // ---------------------------------------------------------------- what stands in front

  /** The state n bytes further on. */
  function Moved(st: State, n: nat): State {
    State(st.pos + n, st.offset + n, st.end)
  }

  function MovedTurn(t: Turn, n: nat): Turn {
    match t
    case Next(st, again, out, size, skipped) => Next(Moved(st, n), again, out, size, skipped)
    case Ended => Ended
    case Stuck(why, out) => Stuck(why, out)
  }

  lemma AlignedMoves(st: State, n: nat)
    requires n % 512 == 0
    ensures Aligned(Moved(st, n)) == Moved(Aligned(st), n)
  {
    assert (st.offset + n) % 512 == st.offset % 512;
  }

  lemma SliceMoves(front: seq<byte>, data: seq<byte>, p: nat, q: nat)
    requires p <= q
    ensures Slice(front + data, |front| + p, |front| + q) == Slice(data, p, q)
    ensures q <= |data| ==> (front + data)[|front| + p..|front| + q] == data[p..q]
  {
  }

  lemma AfterBlockMoves(front: seq<byte>, data: seq<byte>, st: State, head: Head)
    requires st.pos <= |data|
    ensures AfterBlock(front + data, Moved(st, |front|), head, AcceptAll, true)
            == MovedTurn(AfterBlock(data, st, head, AcceptAll, true), |front|)
  {
    hide Walk, Slice, RoundUp;
    match head
    case PaxHeader(sz) =>
      if st.pos + RoundUp(sz) <= |data| {
        RoundUpBounds(sz);
        SliceMoves(front, data, st.pos, st.pos + sz);
      }
    case Entry(m, shown) => SliceMoves(front, data, st.pos, st.pos + Abs(m.size));
    case _ =>
  }

  lemma StuckMoves(n: nat)
    ensures MovedTurn(Stuck(ShortRead, []), n) == Stuck(ShortRead, [])
  {
  }

  lemma TurnMovesAlong(front: seq<byte>, data: seq<byte>, st: State)
    requires |front| % 512 == 0
    ensures TurnOf(front + data, Moved(st, |front|), AcceptAll, true)
            == MovedTurn(TurnOf(data, st, AcceptAll, true), |front|)
  {
    hide Classify, AfterBlock, Aligned, MovedTurn;
    AlignedMoves(st, |front|);
    var a := Aligned(st);
    if a.pos + BLOCK <= |data| {
      SliceMoves(front, data, a.pos, a.pos + BLOCK);
      AfterBlockMoves(front, data, State(a.pos + BLOCK, a.offset + BLOCK, a.end),
                      Classify(data[a.pos..a.pos + BLOCK]));
    } else {
      StuckMoves(|front|);
    }
  }

  /** Whole blocks in front of a stream do not matter to a reader that stands behind them. */
  lemma {:induction false} RunMovesAlong(front: seq<byte>, data: seq<byte>, st: State)
    requires |front| % 512 == 0
    ensures Run(front + data, Moved(st, |front|)) == Run(data, st)
    decreases Remaining(data, st.pos)
  {
    hide TurnOf, Run;
    TurnMoves(data, st, AcceptAll, true);
    TurnMovesAlong(front, data, st);
    RunByTurns(data, st);
    RunByTurns(front + data, Moved(st, |front|));
    var t := TurnOf(data, st, AcceptAll, true);
    if t.Next? {
      RunMovesAlong(front, data, t.st);
    }
  }

  // ---------------------------------------------------------------- what is cut off

  /** The delivery is the same but for the end of its body. */
  predicate CutBody(short: Delivery, whole: Delivery) {
    short.m == whole.m && short.body <= whole.body
  }

  /** The turn ran out of bytes; at most the member at hand was handed on, with what there was of its body. */
  predicate RanOut(t: Turn, whole: Turn) {
    && t.Stuck? && t.why == ShortRead
    && (t.out == [] || (|t.out| == 1 && |OutOf(whole)| == 1 && CutBody(t.out[0], OutOf(whole)[0])))
  }

  lemma SliceOfPrefix(data: seq<byte>, k: nat, p: nat, q: nat)
    requires k <= |data| && p <= q
    ensures Slice(data[..k], p, q) <= Slice(data, p, q)
    ensures q <= k ==> Slice(data[..k], p, q) == Slice(data, p, q) && data[..k][p..q] == data[p..q]
  {
  }

  lemma AfterBlockOfPrefix(data: seq<byte>, k: nat, st: State, head: Head)
    requires st.pos <= k <= |data|
    ensures var t := AfterBlock(data[..k], st, head, AcceptAll, true);
            var whole := AfterBlock(data, st, head, AcceptAll, true);
            t == whole || RanOut(t, whole)
  {
    hide Walk, Slice, RoundUp;
    match head
    case PaxHeader(sz) =>
      RoundUpBounds(sz);
      if st.pos + RoundUp(sz) <= k {
        SliceOfPrefix(data, k, st.pos, st.pos + sz);
      }
    case Entry(m, shown) => SliceOfPrefix(data, k, st.pos, st.pos + Abs(m.size));
    case _ =>
  }

  lemma TurnOfPrefix(data: seq<byte>, k: nat, st: State)
    requires k <= |data|
    ensures var t, whole := TurnOf(data[..k], st, AcceptAll, true), TurnOf(data, st, AcceptAll, true);
            t == whole || RanOut(t, whole)
  {
    hide Classify, AfterBlock, Aligned, CutBody;
    var a := Aligned(st);
    if a.pos + BLOCK <= k {
      SliceOfPrefix(data, k, a.pos, a.pos + BLOCK);
      AfterBlockOfPrefix(data, k, State(a.pos + BLOCK, a.offset + BLOCK, a.end),
                         Classify(data[a.pos..a.pos + BLOCK]));
    }
  }

  /** The deliveries are the first of the others, the last of them perhaps with its body cut. */
  predicate CutShort(short: seq<Delivery>, whole: seq<Delivery>) {
    || short <= whole
    || (0 < |short| <= |whole| && short[..|short| - 1] <= whole && CutBody(short[|short| - 1], whole[|short| - 1]))
  }

  lemma CutShortBehind(d: seq<Delivery>, short: seq<Delivery>, whole: seq<Delivery>)
    requires CutShort(short, whole)
    ensures CutShort(d + short, d + whole)
  {
    if !(short <= whole) {
      assert (d + short)[..|d + short| - 1] == d + short[..|short| - 1];
    }
  }

  lemma CutShortAtOnce(short: seq<Delivery>, out: seq<Delivery>, rest: seq<Delivery>)
    requires short == [] || (|short| == |out| == 1 && CutBody(short[0], out[0]))
    ensures CutShort(short, out + rest)
  {
    if short != [] {
      assert short[..0] == [];
    }
  }

  /**
   * A stream that is cut off is either read as if it were whole, or the reader dies for want of bytes, having handed
   * on the first of the members only, the last of them perhaps with its body cut.
   */
  lemma {:induction false} CuttingIsNoticed(data: seq<byte>, k: nat, st: State)
    requires k <= |data|
    ensures var cut, whole := Run(data[..k], st), Run(data, st);
            cut == whole || (cut.fate == Broken(ShortRead) && CutShort(cut.out, whole.out))
    decreases Remaining(data, st.pos)
  {
    hide TurnOf, Run, CutShort, CutBody;
    TurnMoves(data, st, AcceptAll, true);
    TurnOfPrefix(data, k, st);
    RunByTurns(data, st);
    RunByTurns(data[..k], st);
    var t, whole := TurnOf(data[..k], st, AcceptAll, true), TurnOf(data, st, AcceptAll, true);
    if t == whole {
      if t.Next? {
        CuttingIsNoticed(data, k, t.st);
        if Run(data[..k], t.st) != Run(data, t.st) {
          CutShortBehind(t.out, Run(data[..k], t.st).out, Run(data, t.st).out);
        }
      }
    } else {
      var rest := if whole.Next? then Run(data, whole.st).out else [];
      assert OutOf(whole) + [] == OutOf(whole);
      CutShortAtOnce(t.out, OutOf(whole), rest);
    }
  }

  // ---------------------------------------------------------------- what is fatal

  /** A block that is not sound ends the run, and nothing more is handed on. */
  lemma BadBlockEndsRun(data: seq<byte>, st: State, why: Death)
    requires Aligned(st).pos + 512 <= |data|
    requires Classify(data[Aligned(st).pos..Aligned(st).pos + 512]) == Bad(why)
    ensures Run(data, st) == RunResult([], Broken(why))
  {
    hide Classify, Run, Aligned;
    RunByTurns(data, st);
  }

  // ---------------------------------------------------------------- what is filtered

  /**
   * A member whose name, before its trailing slash is cut, is rejected is not handed on, and its body is passed over;
   * any other is handed on as if there were no filter.
   */
  lemma FilterDecides(data: seq<byte>, st: State, names: set<seq<byte>>, seeks: bool)
    requires Aligned(st).pos + 512 <= |data|
    requires Classify(data[Aligned(st).pos..Aligned(st).pos + 512]).Entry?
    ensures var head := Classify(data[Aligned(st).pos..Aligned(st).pos + 512]);
            var p, o := Aligned(st).pos + 512, Aligned(st).offset + 512;
            && (head.shown !in names ==>
                  TurnOf(data, st, Rejecting(names), seeks) == TurnOf(data, st, AcceptAll, seeks))
            && (head.shown in names && 0 <= head.m.size <= |data| - p ==>
                  TurnOf(data, st, Rejecting(names), seeks)
                  == Next(State(p + head.m.size, o + head.m.size, false), false, [], head.m.size, true))
  {
    hide Classify, Aligned;
  }

  // ---------------------------------------------------------------- where the next block is looked for

  /** It is the count, not the position, that decides where the next header block starts. */
  lemma CountDecidesBlock(data: seq<byte>, st: State, k: nat, filter: Filter, seeks: bool)
    requires k < 512 && (st.offset + k) % 512 == 0
    ensures var p, t := st.pos + k, TurnOf(data, st, filter, seeks);
            t == if p + 512 > |data| then Stuck(ShortRead, [])
                 else AfterBlock(data, State(p + 512, st.offset + k + 512, st.end), Classify(data[p..p + 512]),
                                 filter, seeks)
  {
    hide Classify, AfterBlock;
    var q := (st.offset + k) / 512;
    assert st.offset == 512 * q - k;
  }

  lemma RestIsNext(offset: int, n: nat)
    requires offset % 512 == 0
    ensures (offset - n + n % 512) % 512 == 0
  {
    assert offset - n + n % 512 == 512 * (offset / 512 - n / 512);
  }

  lemma TwiceTheRest(q: nat, r: nat)
    requires r < 512
    ensures (512 * q + 2 * r) % 512 == 0 <==> (512 * q + r) % 256 == 0
  {
  }

  /**
   * Behind a member of a negative size -n whose header stood at a multiple of 512, the next header is looked for
   * n % 512 bytes behind the n bytes taken as the body. That completes a block, as padding would, exactly if n is a
   * multiple of 256.
   */
  lemma AfterNegativeSize(data: seq<byte>, pos: nat, offset: int, n: nat)
    requires offset % 512 == 0
    ensures var p, o := pos + n + n % 512, offset - n + n % 512;
            TurnOf(data, State(pos + n, offset - n, false), AcceptAll, true)
            == if p + 512 > |data| then Stuck(ShortRead, [])
               else AfterBlock(data, State(p + 512, o + 512, false), Classify(data[p..p + 512]), AcceptAll, true)
    ensures CompletesBlock(n, n % 512) <==> n % 256 == 0
  {
    hide TurnOf, Classify, AfterBlock;
    RestIsNext(offset, n);
    TwiceTheRest(n / 512, n % 512);
    assert n == 512 * (n / 512) + n % 512;
    CountDecidesBlock(data, State(pos + n, offset - n, false), n % 512, AcceptAll, true);
  }
}

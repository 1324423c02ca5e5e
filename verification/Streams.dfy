/**
 * Descriptors as byte streams. A call transfers any number of bytes between one and what was asked for; it fails only
 * on a stream that is marked faulty, and then whenever it likes.
 */
module Streams {
  import opened Bytes

  const COPY_BUFFER: nat := 4096

  function Abs(n: int): nat {
    if n < 0 then -n else n
  }

  function Min(a: nat, b: nat): nat {
    if a < b then a else b
  }

  /** The bytes from `from` up to but not including `to`, as far as the data goes. */
  function Slice(data: seq<byte>, from: nat, to: nat): seq<byte>
    requires from <= to
  {
    data[Min(from, |data|)..Min(to, |data|)]
  }

  /** A descriptor that is read. Only a seekable one can be moved past its end. */
  class Source {
    const data: seq<byte>
    const seekable: bool
    const faulty: bool
    var pos: nat

    constructor (data: seq<byte>, seekable: bool, faulty: bool)
      ensures this.data == data && this.seekable == seekable && this.faulty == faulty && pos == 0
    {
      this.data, this.seekable, this.faulty := data, seekable, faulty;
      pos := 0;
    }

    function Left(): nat
      reads this
    {
      if pos < |data| then |data| - pos else 0
    }

    /** `safe_read` */
    method SafeRead(buf: array<byte>, at: nat, count: nat) returns (cc: int)
      requires count > 0 && at + count <= buf.Length
      modifies this, buf
      ensures -1 <= cc <= count
      ensures cc < 0 ==> faulty && pos == old(pos)
      ensures cc >= 0 ==> pos == old(pos) + cc && cc <= old(Left()) && (cc == 0 <==> old(Left()) == 0)
      ensures forall i :: 0 <= i < buf.Length ==>
                            buf[i] == if at <= i < at + cc then data[old(pos) + (i - at)] else old(buf[i])
    {
      if faulty {
        var fails: bool := *;
        if fails {
          return -1;
        }
      }
      if Left() == 0 {
        return 0;
      }
      var limit := Min(count, Left());
      assert 1 <= limit;
      cc :| 1 <= cc <= limit;
      forall i | 0 <= i < cc {
        buf[at + i] := data[pos + i];
      }
      pos := pos + cc;
    }

    /** `full_read` */
    method FullRead(buf: array<byte>, at: nat, len0: nat) returns (total: int)
      requires at + len0 <= buf.Length
      modifies this, buf
      ensures -1 <= total <= len0
      ensures total < 0 ==> faulty && pos == old(pos)
      ensures total >= 0 ==> pos == old(pos) + total && total <= old(Left())
      ensures 0 <= total < len0 ==> faulty || Left() == 0
      ensures forall i :: 0 <= i < buf.Length ==>
                            buf[i] == if at <= i < at + total then data[old(pos) + (i - at)] else old(buf[i])
    {
      total := 0;
      var p, len := at, len0;
      while len != 0
        invariant 0 <= total <= len0 && p == at + total && len == len0 - total
        invariant pos == old(pos) + total && total <= old(Left())
        invariant forall i :: 0 <= i < buf.Length ==>
                                buf[i] == if at <= i < at + total then data[old(pos) + (i - at)] else old(buf[i])
        decreases len
      {
        var cc := SafeRead(buf, p, len);
        if cc < 0 {
          if total != 0 {
            return;
          }
          return cc;
        }
        if cc == 0 {
          break;
        }
        p := p + cc;
        total := total + cc;
        len := len - cc;
      }
    }

    /** `xread`: all the bytes that were asked for, or death. */
    method XRead(buf: array<byte>, at: nat, count: nat) returns (fate: Fate)
      requires at + count <= buf.Length
      modifies this, buf
      ensures fate == Alive || fate == Dead(ShortRead)
      ensures fate.Alive? ==> pos == old(pos) + count && count <= old(Left())
      ensures fate.Alive? ==> forall i :: 0 <= i < buf.Length ==>
                buf[i] == if at <= i < at + count then data[old(pos) + (i - at)] else old(buf[i])
      ensures fate.Dead? ==> faulty || old(Left()) < count
    {
      if count != 0 {
        var size := FullRead(buf, at, count);
        if size != count {
          return Dead(ShortRead);
        }
      }
      return Alive;
    }

    /** `lseek(fd, amount, SEEK_CUR)`: true if it succeeded; otherwise the error is ESPIPE or EINVAL. */
    method LSeek(amount: int) returns (ok: bool, espipe: bool)
      modifies this
      ensures ok == (seekable && old(pos) + amount >= 0) && espipe == !seekable
      ensures pos == if ok then old(pos) + amount else old(pos)
    {
      ok, espipe := seekable && pos + amount >= 0, !seekable;
      if ok {
        pos := pos + amount;
      }
    }
  }

  /** A descriptor that is written to. */
  class Sink {
    const faulty: bool
    var content: seq<byte>

    constructor (faulty: bool)
      ensures content == [] && this.faulty == faulty
    {
      this.faulty := faulty;
      content := [];
    }

    /** `safe_write` */
    method SafeWrite(buf: array<byte>, at: nat, count: nat) returns (cc: int)
      requires count > 0 && at + count <= buf.Length
      modifies this
      ensures -1 <= cc <= count && cc != 0
      ensures cc < 0 ==> faulty && content == old(content)
      ensures cc > 0 ==> content == old(content) + buf[at..at + cc]
    {
      if faulty {
        var fails: bool := *;
        if fails {
          return -1;
        }
      }
      cc :| 1 <= cc <= count;
      content := content + buf[at..at + cc];
    }

    /** `full_write` */
    method FullWrite(buf: array<byte>, at: nat, len0: nat) returns (total: int)
      requires at + len0 <= buf.Length
      modifies this
      ensures -1 <= total <= len0
      ensures total < len0 ==> faulty
      ensures total < 0 ==> content == old(content)
      ensures total >= 0 ==> content == old(content) + buf[at..at + total]
    {
      total := 0;
      var p, len := at, len0;
      while len != 0
        invariant 0 <= total <= len0 && p == at + total && len == len0 - total
        invariant content == old(content) + buf[at..at + total]
        decreases len
      {
        var cc := SafeWrite(buf, p, len);
        if cc < 0 {
          if total != 0 {
            return;
          }
          return cc;
        }
        assert buf[at..at + total] + buf[p..p + cc] == buf[at..at + total + cc];
        total := total + cc;
        p := p + cc;
        len := len - cc;
      }
    }

    /** `xwrite` */
    method XWrite(buf: array<byte>, at: nat, count: nat) returns (fate: Fate)
      requires at + count <= buf.Length
      modifies this
      ensures fate == Alive || (fate == Dead(ShortWrite) && faulty)
      ensures fate.Alive? ==> content == old(content) + buf[at..at + count]
      ensures fate.Dead? ==> old(content) <= content
    {
      if count != 0 {
        var size := FullWrite(buf, at, count);
        if size != count {
          return Dead(ShortWrite);
        }
      }
      return Alive;
    }
  }

  /** The destination has received the first k of the bytes that left the source, on top of what it held. */
  ghost predicate Received(now: seq<byte>, before: seq<byte>, data: seq<byte>, from: nat, k: nat) {
    if k == 0 then now == before
    else from + k <= |data| && now == before + data[from..from + k]
  }

  ghost function Content(s: Sink?): seq<byte>
    reads s
  {
    if s == null then [] else s.content
  }

  lemma ReceiveMore(before: seq<byte>, data: seq<byte>, from: nat, k: nat, n: nat,
                    earlier: seq<byte>, now: seq<byte>)
    requires Received(earlier, before, data, from, k)
    requires from + k + n <= |data| && now == earlier + data[from + k..from + k + n]
    ensures Received(now, before, data, from, k + n)
  {
  }

  /** Hands one chunk on; `kept` is brought up to date with what the destination took of it. */
  method PassOn(dst: Sink, buffer: array<byte>, rd: nat,
                ghost before: seq<byte>, ghost data: seq<byte>, ghost start: nat, ghost kept0: nat)
    returns (wr: int, ghost kept: nat)
    requires rd <= buffer.Length && start + kept0 + rd <= |data|
    requires buffer[..rd] == data[start + kept0..start + kept0 + rd]
    requires Received(dst.content, before, data, start, kept0)
    modifies dst
    ensures -1 <= wr <= rd && (wr < rd ==> dst.faulty)
    ensures kept == kept0 + if wr < 0 then 0 else wr
    ensures Received(dst.content, before, data, start, kept)
  {
    ghost var c := dst.content;
    wr := dst.FullWrite(buffer, 0, rd);
    ghost var got: nat := if wr < 0 then 0 else wr;
    assert buffer[0..got] == buffer[..rd][..got] == data[start + kept0..start + kept0 + got];
    ReceiveMore(before, data, start, kept0, got, c, dst.content);
    kept := kept0 + got;
  }

  /**
   * `bb_full_fd_action`: copies |size| bytes (all of them when size is 0). A negative size asks to go on reading when
   * the destination stops accepting bytes. The ghost result `kept` counts the bytes that reached the destination.
   */
  method FullFdAction(src: Source, dst0: Sink?, size0: int) returns (r: int, ghost kept: nat)
    modifies src, dst0
    ensures -1 <= r
    ensures r >= 0 ==> src.pos == old(src.pos) + r && r <= old(src.Left())
    ensures r >= 0 && size0 != 0 ==> r <= Abs(size0) && (r == Abs(size0) || src.Left() == 0)
    ensures r >= 0 && size0 == 0 ==> src.Left() == 0
    ensures size0 != 0 ==> kept <= Abs(size0)
    ensures r < 0 ==> src.faulty || (dst0 != null && dst0.faulty && size0 >= 0)
    ensures old(src.pos) <= src.pos && kept <= src.pos - old(src.pos)
    ensures src.pos - old(src.pos) <= old(src.Left())
    ensures Received(Content(dst0), old(Content(dst0)), src.data, old(src.pos), kept)
    ensures dst0 == null ==> kept == 0
    ensures dst0 != null && r >= 0 && (size0 >= 0 || !dst0.faulty) ==> kept == r
  {
    var status := -1;
    var total, size, dst := 0, size0, dst0;
    var continueOnWriteError := false;
    var buffer := new byte[COPY_BUFFER](_ => NUL);
    ghost var before, data, start, left := Content(dst0), src.data, src.pos, src.Left();
    kept := 0;
    if size < 0 {
      size := -size;
      continueOnWriteError := true;
    }
    if size == 0 {
      size := COPY_BUFFER;
      status := 1;
    }
    ghost var wanted, all := Abs(size0), size0 == 0;
    assert Received(Content(dst0), before, data, start, 0);
    hide Received, Abs;
    while true
      invariant dst == dst0 || (dst == null && continueOnWriteError && dst0 != null && dst0.faulty)
      invariant status == if all then 1 else -1
      invariant if all then size == COPY_BUFFER else size == wanted - total && size > 0
      invariant 0 <= total <= left && src.pos == start + total
      invariant kept <= total && (dst != null ==> kept == total) && (dst0 == null ==> kept == 0)
      invariant Received(Content(dst0), before, data, start, kept)
      decreases src.Left()
    {
      var rd := src.SafeRead(buffer, 0, if size > COPY_BUFFER then COPY_BUFFER else size);
      if rd == 0 {
        status := 0;
        break;
      }
      if rd < 0 {
        break;
      }
      if dst != null {
        var wr;
        assert buffer[..rd] == data[start + kept..start + kept + rd];
        wr, kept := PassOn(dst, buffer, rd, before, data, start, kept);
        if wr < rd {
          if !continueOnWriteError {
            break;
          }
          dst := null;
        }
      }
      total := total + rd;
      if status < 0 {
        size := size - rd;
        if size == 0 {
          status := 0;
          break;
        }
      }
    }
    r := if status != 0 then -1 else total;
  }

  /** `bb_copyfd_exact_size`: exactly |size| bytes leave the source, or the program dies. */
  method CopyFdExactSize(src: Source, dst: Sink?, size: int) returns (fate: Fate, ghost kept: nat)
    modifies src, dst
    ensures fate.Alive? ==> src.pos == old(src.pos) + Abs(size) && (size == 0 || Abs(size) <= old(src.Left()))
    ensures fate.Dead? ==> fate.why == ShortRead || fate.why == IoError
    ensures fate == Dead(ShortRead) ==> old(src.Left()) < Abs(size) && src.pos == old(src.pos) + old(src.Left())
    ensures fate == Dead(IoError) ==> src.faulty || (dst != null && dst.faulty && size > 0)
    ensures kept <= Abs(size)
    ensures Received(Content(dst), old(Content(dst)), src.data, old(src.pos), kept)
    ensures dst != null && fate.Alive? && (size >= 0 || !dst.faulty) ==> kept == Abs(size)
    ensures dst != null && fate == Dead(ShortRead) && !dst.faulty ==> kept == old(src.Left())
  {
    if size == 0 {
      return Alive, 0;
    }
    var sz;
    sz, kept := FullFdAction(src, dst, size);
    if sz == (if size >= 0 then size else -size) {
      return Alive, kept;
    }
    if sz != -1 {
      return Dead(ShortRead), kept;
    }
    return Dead(IoError), kept;
  }

  /** `seek_by_read` */
  method SeekByRead(src: Source, amount: int) returns (fate: Fate)
    modifies src
    ensures fate.Alive? ==> src.pos == old(src.pos) + Abs(amount) && (amount == 0 || Abs(amount) <= old(src.Left()))
    ensures fate.Dead? ==> src.faulty || old(src.Left()) < Abs(amount)
    ensures fate.Dead? ==> fate.why == ShortRead || (fate.why == IoError && src.faulty)
  {
    fate := Alive;
    if amount != 0 {
      ghost var kept;
      fate, kept := CopyFdExactSize(src, null, amount);
    }
  }

  function Jumped(pos: nat, amount: int): nat {
    if pos + amount >= 0 then pos + amount else pos
  }

  /** `seek_by_jump`, with its fallback for pipes; any other seek error is ignored. */
  method SeekByJump(src: Source, amount: int) returns (fate: Fate)
    modifies src
    ensures src.seekable ==> fate.Alive? && src.pos == Jumped(old(src.pos), amount)
    ensures !src.seekable && fate.Alive? ==>
              src.pos == old(src.pos) + Abs(amount) && (amount == 0 || Abs(amount) <= old(src.Left()))
    ensures fate.Dead? ==> src.faulty || old(src.Left()) < Abs(amount)
    ensures fate.Dead? ==> fate.why == ShortRead || (fate.why == IoError && src.faulty)
  {
    fate := Alive;
    if amount != 0 {
      var ok, espipe := src.LSeek(amount);
      if !ok && espipe {
        fate := SeekByRead(src, amount);
      }
    }
  }

  /**
   * Both strategies, and the fallback, leave the stream in the same place whenever the bytes are there: run on two
   * streams over the same data, from the same place.
   */
  method SeekStrategiesAgree(a: Source, b: Source, amount: int) returns (ra: Fate, rb: Fate)
    requires a != b && a.data == b.data && a.pos == b.pos && !a.faulty && !b.faulty
    requires 0 <= amount <= a.Left()
    modifies a, b
    ensures ra == rb == Alive && a.pos == b.pos == old(a.pos) + amount
  {
    ra := SeekByJump(a, amount);
    rb := SeekByRead(b, amount);
  }
}

/** The payload of a pax extended header: records "LEN NAME=VALUE\n", walked by their lengths. */
module Pax {
  import opened Bytes
  import opened Numbers

  datatype NumberErrno = Zero | EINVAL | ERANGE

  /** What `bb_strtou` delivers: the value, where it stopped, and errno. */
  datatype Parsed = Parsed(value: nat, end: nat, errno: NumberErrno)

  predicate IsAlnum(c: byte) {
    DIGIT0 <= c <= 57 || 65 <= c <= 90 || 97 <= c <= 122
  }

  /** The meaning of a text that starts like a length: only a number before a plain terminator gives EINVAL. */
  function ParseLength(s: seq<byte>): (r: Parsed)
    ensures r.end <= |s| && r.value < TWO32
  {
    var n := StrTo(s, 10);
    var next := ByteAt(s, n.end);
    var overflow := n.magnitude >= TWO32;
    if !IsAlnum(ByteAt(s, 0)) then Parsed(TWO32 - 1, 0, ERANGE)
    else if next == NUL then Parsed(Unsigned(n, TWO32), n.end, if overflow then ERANGE else Zero)
    else if IsAlnum(next) || overflow then Parsed(TWO32 - 1, n.end, ERANGE)
    else Parsed(Unsigned(n, TWO32), n.end, EINVAL)
  }

  method RetERANGE() returns (v: nat, errno: NumberErrno)
    ensures v == TWO64 - 1 && errno == ERANGE
  {
    return TWO64 - 1, ERANGE;
  }

  /** `handle_errors`: errno comes in as the library call left it. */
  method HandleErrors(v: nat, next: byte, errno0: NumberErrno) returns (r: nat, errno: NumberErrno)
    ensures next == NUL ==> r == v && errno == errno0
    ensures next != NUL && !IsAlnum(next) && errno0 == Zero ==> r == v && errno == EINVAL
    ensures next != NUL && (IsAlnum(next) || errno0 != Zero) ==> r == TWO64 - 1 && errno == ERANGE
  {
    r, errno := v, errno0;
    if next != NUL {
      if IsAlnum(next) || errno != Zero {
        r, errno := RetERANGE();
        return;
      }
      errno := EINVAL;
    }
  }

  /** `bb_strtou(arg, &end, 10)` on the 32-bit platform, where it is `bb_strtoul`. */
  method BbStrtou(arg: seq<byte>) returns (v: nat, end: nat, errno: NumberErrno)
    ensures Parsed(v, end, errno) == ParseLength(arg)
  {
    end := 0;
    if !IsAlnum(ByteAt(arg, 0)) {
      v, errno := RetERANGE();
      v := v % TWO32;
      return;
    }
    var n := StrTo(arg, 10);
    end := n.end;
    v, errno := HandleErrors(Unsigned(n, TWO32), ByteAt(arg, end), if n.magnitude >= TWO32 then ERANGE else Zero);
    v := v % TWO32;
  }

  lemma DigitIsAlnum(c: byte)
    ensures IsDigit(c, 10) ==> IsAlnum(c)
  {
  }

  lemma NulIsNoLetter()
    ensures !IsAlnum(0)
  {
  }

  /**
   * What each kind of text comes to: digits and a NUL are a clean number, digits and another terminator a suspicious
   * one, digits and a letter are out of range, and so are numbers that do not fit 32 bits.
   */
  lemma LengthTexts(digits: seq<byte>, rest: seq<byte>)
    requires digits != [] && forall i :: 0 <= i < |digits| ==> IsDigit(digits[i], 10)
    requires rest == [] || !IsDigit(rest[0], 10)
    ensures var v, r := DigitsValue(digits, 10), ParseLength(digits + rest);
            && r.end == |digits|
            && (v < 0x1_0000_0000 && (rest == [] || rest[0] == 0) ==> r.value == v && r.errno == Zero)
            && (v < 0x1_0000_0000 && rest != [] && rest[0] != 0 && !IsAlnum(rest[0]) ==>
                  r.value == v && r.errno == EINVAL)
            && (v >= 0x1_0000_0000 || (rest != [] && IsAlnum(rest[0])) ==>
                  r.value == 0xFFFF_FFFF && r.errno == ERANGE)
  {
    hide DigitsValue, StrTo, IsAlnum;
    var s := digits + rest;
    StrToDigits(digits, rest, 10);
    DigitIsAlnum(digits[0]);
    assert IsDigit(digits[0], 10) && s[0] == digits[0];
    assert rest != [] ==> s[|digits|] == rest[0];
    NulIsNoLetter();
  }

  /** What does not start with a letter or a digit is out of range, and nothing of it is taken. */
  lemma NoLengthAtAll(s: seq<byte>)
    requires s == [] || !(48 <= s[0] <= 57 || 65 <= s[0] <= 90 || 97 <= s[0] <= 122)
    ensures ParseLength(s) == Parsed(0xFFFF_FFFF, 0, ERANGE)
  {
    hide StrTo, DigitsValue;
  }

  // ---------------------------------------------------------------- the walk

  datatype WalkEnd =
    | Done                      // the records fill the payload exactly
    | Malformed                 // the rest is given up
    | Outside                   // a length that wraps around: the cursor would leave the payload

  /** The length a record claims; 0 when the text is not a positive number followed by a blank. */
  function Claimed(s: seq<byte>): (len: nat)
    ensures len < TWO32
  {
    var r := ParseLength(s);
    if r.errno == EINVAL && ByteAt(s, r.end) == BLANK then r.value else 0
  }

  lemma LetterIsNoNumber(s: seq<byte>)
    requires s != [] && IsAlnum(s[0]) && !IsDigit(s[0], 10)
    ensures StrTo(s, 10) == Number(0, false, 0)
  {
    assert s[0..] == s;
  }

  /**
   * Sign, blanks, letters and overflow all come to nothing: what counts as a length is a run of decimal digits with a
   * value below 2^32 and a blank right behind it.
   */
  lemma ClaimedExactly(s: seq<byte>)
    ensures var k := DigitRun(s, 10);
            Claimed(s) == if 0 < k < |s| && s[k] == BLANK && DigitsValue(s[..k], 10) < TWO32
                          then DigitsValue(s[..k], 10) else 0
  {
    hide DigitsValue, StrTo, DigitRun;
    var k := DigitRun(s, 10);
    if k > 0 {
      assert IsDigit(s[0], 10);
      assert s == s[..k] + s[k..];
      StrToDigits(s[..k], s[k..], 10);
    } else if s != [] && IsAlnum(s[0]) {
      LetterIsNoNumber(s);
    }
  }

  /** Where the walk over a payload ends. Subtracting a length is done in 32 bits and tested by its sign. */
  function Walk(s: seq<byte>): WalkEnd {
    if s == [] then Done
    else if 0 < Claimed(s) <= |s| then Walk(s[Claimed(s)..])
    else if Claimed(s) > TWO31 + |s| then Outside
    else Malformed
  }

  /** The cursor positions of the walk, the last one included; the payload starts at `at`. */
  function Cursors(s: seq<byte>, at: nat): (c: seq<nat>)
    ensures c != [] && c[0] == at
    ensures forall i :: 0 <= i < |c| ==> at <= c[i] <= at + |s|
    ensures forall i :: 0 < i < |c| ==> c[i - 1] < c[i]
  {
    if s != [] && 0 < Claimed(s) <= |s| then [at] + Cursors(s[Claimed(s)..], at + Claimed(s)) else [at]
  }

  lemma WalkStep(s: seq<byte>, len: nat, at: nat)
    requires s != [] && Claimed(s) == len && 0 < len <= |s|
    ensures Walk(s) == Walk(s[len..])
    ensures Cursors(s, at) == [at] + Cursors(s[len..], at + len)
  {
    hide Claimed;
  }

  predicate Overlong(s: seq<byte>) {
    s != [] && Claimed(s) > TWO31 + |s|
  }

  lemma WalkStop(s: seq<byte>, at: nat)
    requires s == [] || !(0 < Claimed(s) <= |s|)
    ensures Cursors(s, at) == [at]
    ensures Walk(s) == Outside <==> Overlong(s)
    ensures Walk(s) == Done <==> s == []
  {
    hide Claimed;
  }

  /** The sign test on the 32-bit difference. */
  predicate NegativeDifference(sz: nat, len: nat) {
    (sz - len) % TWO32 >= TWO31
  }

  lemma WrapTest(sz: nat, len: nat)
    requires sz < TWO31 && len < TWO32
    ensures NegativeDifference(sz, len) <==> sz < len <= TWO31 + sz
  {
  }

  /** One turn of the walk before it stores anything: Some(length) to go on with, or where it ends. */
  method NextRecord(buf: array<byte>, p: nat, sz: nat) returns (len: nat, end: WalkEnd)
    requires 0 < sz < TWO31 && p + sz <= buf.Length
    ensures 0 < len <= sz ==> len == Claimed(buf[p..p + sz])
    ensures len == 0 || len > sz ==> end == Walk(buf[p..p + sz]) && !(0 < Claimed(buf[p..p + sz]) <= sz)
  {
    hide ParseLength;
    ghost var s := buf[p..p + sz];
    var errno, endp;
    len, endp, errno := BbStrtou(buf[p..p + sz]);
    WrapTest(sz, len);
    if NegativeDifference(sz, len) || len == 0 || errno != EINVAL || ByteAt(buf[p..p + sz], endp) != BLANK {
      return 0, Malformed;
    }
    return len, Outside;
  }

  /** There is a NUL just before every cursor position but the first. */
  predicate AllNul(buf: seq<byte>, cs: seq<nat>) {
    forall i :: 0 < i < |cs| ==> 0 < cs[i] <= |buf| && buf[cs[i] - 1] == NUL
  }

  lemma NoNulYet(buf: seq<byte>, cs: seq<nat>)
    requires |cs| == 1
    ensures AllNul(buf, cs)
  {
  }

  lemma LastOne(all: seq<nat>, k: nat)
    requires k < |all| && |all[k..]| == 1
    ensures all[..k + 1] == all
  {
  }

  lemma NextCursor(s: seq<byte>, p: nat, len: nat, all: seq<nat>, k: nat)
    requires p < |s| && k < |all| && Cursors(s[p..], p) == all[k..]
    requires Claimed(s[p..]) == len && 0 < len <= |s| - p
    ensures k + 1 < |all| && all[k + 1] == p + len
    ensures Walk(s[p + len..]) == Walk(s[p..]) && Cursors(s[p + len..], p + len) == all[k + 1..]
  {
    hide Claimed, Walk, Cursors;
    WalkStep(s[p..], len, p);
    assert s[p..][len..] == s[p + len..];
    assert all[k..][1..] == all[k + 1..];
    assert all[k..][1] == all[k + 1];
  }

  lemma OneMoreNul(before: seq<byte>, after: seq<byte>, all: seq<nat>, k: nat)
    requires 0 < k < |all| && |before| == |after| && AllNul(before, all[..k])
    requires 0 < all[k] <= |after| && after == before[all[k] - 1 := NUL]
    ensures AllNul(after, all[..k + 1])
  {
  }

  /**
   * The record walk of `process_pax_hdr` on a buffer that holds `size` payload bytes and a NUL behind them: cursor
   * plus remaining size never changes, it stores a NUL just before every cursor position but the first, and no other
   * byte changes.
   */
  method WalkRecords(buf: array<byte>, size: nat) returns (r: WalkEnd)
    requires size < TWO31 && size < buf.Length && buf[size] == NUL
    modifies buf
    ensures r == Walk(old(buf[..size]))
    ensures forall i :: 0 <= i < buf.Length && buf[i] != old(buf[i]) ==>
                          buf[i] == NUL && i < size && i + 1 in Cursors(old(buf[..size]), 0)
    ensures AllNul(buf[..], Cursors(old(buf[..size]), 0))
  {
    hide Claimed, Walk, Cursors, AllNul;
    ghost var s, all, k := buf[..size], Cursors(buf[..size], 0), 0;
    var p, sz: nat := 0, size;
    assert s[0..] == s && all[0..] == all;
    assert AllNul(buf[..], all[..1]) by { NoNulYet(buf[..], all[..1]); }
    while sz != 0
      invariant p + sz == size && 0 <= k < |all|
      invariant Walk(s[p..]) == Walk(s) && Cursors(s[p..], p) == all[k..]
      invariant forall i :: p <= i <= size ==> buf[i] == old(buf[i])
      invariant forall i :: 0 <= i < buf.Length && buf[i] != old(buf[i]) ==> buf[i] == NUL && i < size && i + 1 in all
      invariant AllNul(buf[..], all[..k + 1]) && all[k] == p
      decreases sz
    {
      assert buf[p..p + sz] == s[p..];
      var len, end := NextRecord(buf, p, sz);
      if len == 0 || len > sz {
        WalkStop(s[p..], p);
        LastOne(all, k);
        return end;
      }
      NextCursor(s, p, len, all, k);
      ghost var bytes := buf[..];
      k := k + 1;
      p := p + len;
      sz := sz - len;
      buf[p - 1] := NUL;
      OneMoreNul(bytes, buf[..], all, k);
    }
    assert s[size..] == [];
    WalkStop([], p);
    LastOne(all, k);
    return Done;
  }

  /** What is left of the payload where the cursor finally stands. */
  function LeftOver(s: seq<byte>): seq<byte> {
    var cs := Cursors(s, 0);
    s[cs[|cs| - 1]..]
  }

  lemma {:induction false} CursorsShift(s: seq<byte>, at: nat)
    ensures |Cursors(s, at)| == |Cursors(s, 0)|
    ensures forall i :: 0 <= i < |Cursors(s, 0)| ==> Cursors(s, at)[i] == at + Cursors(s, 0)[i]
  {
    hide Claimed;
    var len := Claimed(s);
    if s != [] && 0 < len <= |s| {
      WalkStep(s, len, at);
      WalkStep(s, len, 0);
      CursorsShift(s[len..], at + len);
      CursorsShift(s[len..], len);
    }
  }

  lemma LastCursor(s: seq<byte>, len: nat)
    requires s != [] && Claimed(s) == len && 0 < len <= |s|
    ensures Cursors(s, 0)[|Cursors(s, 0)| - 1] == len + Cursors(s[len..], 0)[|Cursors(s[len..], 0)| - 1]
  {
    hide Claimed, Cursors, Walk;
    WalkStep(s, len, 0);
    CursorsShift(s[len..], len);
  }

  lemma LeftOverStep(s: seq<byte>, len: nat)
    requires s != [] && Claimed(s) == len && 0 < len <= |s|
    ensures LeftOver(s) == LeftOver(s[len..])
  {
    hide Claimed, Cursors;
    LastCursor(s, len);
    var last := Cursors(s[len..], 0)[|Cursors(s[len..], 0)| - 1];
    assert s[len..][last..] == s[len + last..];
  }

  /**
   * The walk ends well exactly if nothing is left over, and leaves the payload exactly if the length it stops at
   * exceeds what is left by more than 2^31; any other text it stops at is given up.
   */
  lemma {:induction false} WalkOutcome(s: seq<byte>)
    ensures Walk(s) == Done <==> LeftOver(s) == []
    ensures Walk(s) == Outside <==> Overlong(LeftOver(s))
  {
    var len := Claimed(s);
    if s != [] && 0 < len <= |s| {
      WalkStep(s, len, 0);
      LeftOverStep(s, len);
      hide *;
      WalkOutcome(s[len..]);
    } else {
      WalkStop(s, 0);
      assert s[0..] == s;
    }
  }

  lemma TimesTen(v: nat, p: nat)
    ensures v * (10 * p) == v * p * 10
  {
  }

  lemma DigitsSoFar(s: seq<byte>, n: nat)
    requires forall i :: 0 <= i < |s| ==> IsDigit(s[i], 10)
    ensures forall i :: 0 <= i < |s| + n ==> IsDigit((s + Repeat(DIGIT0, n))[i], 10)
  {
  }

  lemma {:induction false} TrailingZeros(s: seq<byte>, n: nat)
    requires forall i :: 0 <= i < |s| + n ==> IsDigit((s + Repeat(DIGIT0, n))[i], 10)
    requires forall i :: 0 <= i < |s| ==> IsDigit(s[i], 10)
    ensures DigitsValue(s + Repeat(DIGIT0, n), 10) == DigitsValue(s, 10) * Pow(10, n)
  {
    var t := s + Repeat(DIGIT0, n);
    if n == 0 {
      assert t == s;
    } else {
      assert t[..|t| - 1] == s + Repeat(DIGIT0, n - 1);
      TrailingZeros(s, n - 1);
      TimesTen(DigitsValue(s, 10), Pow(10, n - 1));
    }
  }

  lemma TenToTheNinth()
    ensures Pow(10, 9) == 1000000000
  {
  }

  /** "4000000000 ": a length for which the difference wraps around, so the cursor would step back out. */
  lemma WrappingLength()
    ensures Walk([52] + Repeat(DIGIT0, 9) + [BLANK]) == Outside
  {
    hide DigitRun, Spaces, Pow;
    var d, s := [52] + Repeat(DIGIT0, 9), [52] + Repeat(DIGIT0, 9) + [BLANK];
    DigitsSoFar([52], 9);
    TrailingZeros([52], 9);
    TenToTheNinth();
    StrToDigits(d, [BLANK], 10);
    assert DigitsValue([52], 10) == 4;
    assert Claimed(s) == 4000000000;
  }

  // ---------------------------------------------------------------- well-formed payloads

  /** "LEN NAME=VALUE\n" with LEN the length of the whole record, in decimal. */
  predicate IsRecord(r: seq<byte>) {
    var k := DigitRun(r, 10);
    && 0 < k < |r| && r[k] == BLANK
    && DigitsValue(r[..k], 10) == |r| < TWO32
    && r[|r| - 1] == 10
  }

  function Flatten(rs: seq<seq<byte>>): seq<byte> {
    if rs == [] then [] else rs[0] + Flatten(rs[1..])
  }

  /** The record boundaries of a payload that starts at `at`. */
  function Boundaries(rs: seq<seq<byte>>, at: nat): seq<nat> {
    if rs == [] then [at] else [at] + Boundaries(rs[1..], at + |rs[0]|)
  }

  lemma RecordLength(r: seq<byte>, rest: seq<byte>)
    requires IsRecord(r)
    ensures Claimed(r + rest) == |r|
  {
    hide StrTo, DigitsValue;
    var k := DigitRun(r, 10);
    assert r + rest == r[..k] + (r[k..] + rest);
    StrToDigits(r[..k], r[k..] + rest, 10);
    assert (r + rest)[0] == r[0] && IsDigit(r[0], 10);
    assert ByteAt(r + rest, k) == BLANK;
  }

  lemma RecordNotEmpty(r: seq<byte>)
    requires IsRecord(r)
    ensures r != []
  {
  }

  /** A payload of well-formed records is walked to its end, and the cursor stops at its record boundaries only. */
  lemma {:induction false} WellFormedIsWalked(rs: seq<seq<byte>>, at: nat)
    requires forall i :: 0 <= i < |rs| ==> IsRecord(rs[i])
    ensures Walk(Flatten(rs)) == Done
    ensures Cursors(Flatten(rs), at) == Boundaries(rs, at)
  {
    hide Claimed, Walk, Cursors, IsRecord;
    if rs == [] {
      WalkStop([], at);
    } else {
      var s, rest, len := Flatten(rs), Flatten(rs[1..]), |rs[0]|;
      assert s[len..] == rest;
      RecordLength(rs[0], rest);
      RecordNotEmpty(rs[0]);
      WalkStep(s, len, at);
      WellFormedIsWalked(rs[1..], at + len);
    }
  }
}

/** The numeric fields of a tar header: octal text, GNU base-256 and the C conversions around them. */
module Numbers {
  import opened Bytes

  const TWO31: int := 0x8000_0000
  const TWO32: int := 0x1_0000_0000
  const TWO63: int := 0x8000_0000_0000_0000
  const TWO64: int := 0x1_0000_0000_0000_0000

  /** `long` is 32 bits wide on the only platform that is compiled. */
  type OffT = x: int | -0x8000_0000 <= x < 0x8000_0000

  type U64 = x: int | 0 <= x < 0x1_0000_0000_0000_0000

  /** Conversion to `off_t`: the low 32 bits, read as a signed number. */
  function ToOffT(v: int): OffT {
    (v + TWO31) % TWO32 - TWO31
  }

  /** Conversion to the 64-bit `time_t`. */
  function ToTime(v: int): int {
    (v + TWO63) % TWO64 - TWO63
  }

  /** The number that is left has the same low 32 bits; of those in the range there is only one. */
  lemma OffTKeepsLowBits(v: int)
    ensures ToOffT(v) % 0x1_0000_0000 == v % 0x1_0000_0000
    ensures -0x8000_0000 <= v < 0x8000_0000 ==> ToOffT(v) == v
  {
  }

  function Pow(b: nat, n: nat): (p: nat)
    ensures b > 0 ==> p > 0
  {
    if n == 0 then 1 else b * Pow(b, n - 1)
  }

  // ---------------------------------------------------------------- arithmetic

  lemma SmallMultiple(m: int, k: int)
    requires m > 0 && -m < m * k < m
    ensures k == 0
  {
  }

  lemma ModUnique(v: int, m: int, q: int, r: int)
    requires m > 0 && v == m * q + r && 0 <= r < m
    ensures v % m == r && v / m == q
  {
    var q', r' := v / m, v % m;
    assert v == m * q' + r';
    assert m * q - m * q' == m * (q - q');
    SmallMultiple(m, q - q');
  }

  lemma Distribute(b: int, m: int, k: int, t: int)
    ensures b * (m * k + t) == (b * m) * k + t * b
  {
  }

  lemma PlaceBound(b: nat, m: nat, t: nat, r: nat)
    requires t < m && r < b
    ensures t * b + r < b * m
  {
    assert (t + 1) * b <= m * b;
  }

  lemma TwoSteps(v: nat, b: nat, m: nat, q: nat, r: nat, k: nat, t: nat)
    requires v == b * q + r && q == m * k + t && r < b && t < m
    ensures b * m > 0 && v % (b * m) == t * b + r
  {
    Distribute(b, m, k, t);
    PlaceBound(b, m, t, r);
    ModUnique(v, b * m, k, t * b + r);
  }

  /** Taking the remainder digit by digit. */
  lemma ModStep(v: nat, b: nat, m: nat)
    requires b > 0 && m > 0
    ensures b * m > 0
    ensures (v / b % m) * b + v % b == v % (b * m)
  {
    TwoSteps(v, b, m, v / b, v % b, v / b / m, v / b % m);
  }

  /** A running value may be reduced at every step. */
  lemma ModMulAdd(x: int, b: int, c: int, m: int)
    requires m > 0
    ensures ((x % m) * b + c) % m == (x * b + c) % m
  {
    var q, r := x / m, x % m;
    var y := r * b + c;
    var q', r' := y / m, y % m;
    assert x * b + c == m * (q * b + q') + r' by {
      assert x == m * q + r;
      assert (m * q + r) * b == m * (q * b) + r * b;
      assert y == m * q' + r';
    }
    ModUnique(x * b + c, m, q * b + q', r');
  }

  // ---------------------------------------------------------------- octal text

  predicate IsDigit(c: byte, base: nat) {
    DIGIT0 <= c && c < DIGIT0 + base
  }

  /** The last `len` octal digits of `v`, leading zeroes kept. */
  function OctalDigits(v: nat, len: nat): (s: seq<byte>)
    ensures |s| == len
    ensures forall i :: 0 <= i < len ==> IsDigit(s[i], 8)
  {
    if len == 0 then [] else OctalDigits(v / 8, len - 1) + [DIGIT0 + v % 8]
  }

  /** How many octal digits `v` needs. */
  function OctalWidth(v: nat): (w: nat)
    ensures w >= 1
  {
    if v < 8 then 1 else 1 + OctalWidth(v / 8)
  }

  /** The text `sprintf("%0*lo", len, v)` leaves, without its NUL. */
  function SprintfOctal(len: nat, v: nat): seq<byte> {
    OctalDigits(v, if OctalWidth(v) > len then OctalWidth(v) else len)
  }

  lemma {:induction false} OctalWidthBound(v: nat, n: nat)
    requires n >= 1 && v < Pow(8, n)
    ensures OctalWidth(v) <= n
  {
    if v >= 8 {
      assert Pow(8, n) == 8 * Pow(8, n - 1);
      OctalWidthBound(v / 8, n - 1);
    }
  }

  lemma {:induction false} OctalDigitsSuffix(v: nat, w: nat, len: nat)
    requires len <= w
    ensures OctalDigits(v, w)[w - len..] == OctalDigits(v, len)
  {
    if len > 0 {
      OctalDigitsSuffix(v / 8, w - 1, len - 1);
      var d := OctalDigits(v / 8, w - 1);
      assert (d + [DIGIT0 + v % 8])[w - len..] == d[w - len..] + [DIGIT0 + v % 8];
    }
  }

  /** The bytes of a numeric field: one leading zero makes room for a terminator, otherwise there is none. */
  function OctalField(v: nat, len: nat): (f: seq<byte>)
    requires len >= 1
    ensures |f| == len
  {
    var d := OctalDigits(v, len);
    if d[0] == DIGIT0 then d[1..] + [NUL] else d
  }

  lemma LongFitsScratch(v: nat, len: nat)
    requires v < TWO32 && len <= 12
    ensures |SprintfOctal(len, v)| <= 12
  {
    assert Pow(8, 11) == 8589934592;
    OctalWidthBound(v, 11);
  }

  /** `putOctal`: format into a scratch buffer, then copy the last `len` characters into the field. */
  method PutOctal(buf: array<byte>, cp: nat, len: nat, value: OffT)
    requires 1 <= len <= 12 && cp + len <= buf.Length
    modifies buf
    ensures buf[cp..cp + len] == OctalField(value % TWO32, len)
    ensures forall i :: 0 <= i < buf.Length && !(cp <= i < cp + len) ==> buf[i] == old(buf[i])
  {
    hide OctalDigits, OctalWidth;
    var v: nat := value % TWO32;
    var text := SprintfOctal(len, v);
    LongFitsScratch(v, len);
    var tempBuffer := new byte[13](i => if 0 <= i < |text| then text[i] else NUL);
    var width := |text|;
    var tempString := width - len;
    OctalDigitsSuffix(v, width, len);
    ghost var d := OctalDigits(v, len);
    assert forall i :: 0 <= i < len ==> tempBuffer[tempString + i] == text[tempString..][i] == d[i];
    if tempBuffer[tempString] == DIGIT0 {
      tempString := tempString + 1;
    }
    ghost var f := OctalField(v, len);
    assert forall i :: 0 <= i < len ==> tempBuffer[tempString + i] == f[i];
    forall i | 0 <= i < len {
      buf[cp + i] := tempBuffer[tempString + i];
    }
    assert buf[cp..cp + len] == f;
  }

  // ---------------------------------------------------------------- strtoul

  predicate IsSpace(c: byte) {
    c == BLANK || 9 <= c <= 13
  }

  /** The byte at an index; one past the end stands for the terminator. */
  function ByteAt(s: seq<byte>, i: nat): byte {
    if i < |s| then s[i] else NUL
  }

  function Spaces(s: seq<byte>): (n: nat)
    ensures n <= |s|
  {
    if s == [] || !IsSpace(s[0]) then 0 else 1 + Spaces(s[1..])
  }

  function DigitRun(s: seq<byte>, base: nat): (n: nat)
    ensures n <= |s|
    ensures forall i :: 0 <= i < n ==> IsDigit(s[i], base)
    ensures n < |s| ==> !IsDigit(s[n], base)
  {
    if s == [] || !IsDigit(s[0], base) then 0 else 1 + DigitRun(s[1..], base)
  }

  /** The number a string of digits denotes. */
  function DigitsValue(s: seq<byte>, base: nat): nat
    requires forall i :: 0 <= i < |s| ==> IsDigit(s[i], base)
  {
    if s == [] then 0
    else
      var d := s[|s| - 1];
      assert IsDigit(d, base);
      DigitsValue(s[..|s| - 1], base) * base + (d - DIGIT0)
  }

  /** What the `strtoul` family finds: magnitude, sign, and where it stopped (at the start if nothing converts). */
  datatype Number = Number(magnitude: nat, negative: bool, end: nat)

  function StrTo(s: seq<byte>, base: nat): (r: Number)
    ensures r.end <= |s|
  {
    var sp := Spaces(s);
    var neg := ByteAt(s, sp) == 45;
    var start := if neg || (sp < |s| && s[sp] == 43) then sp + 1 else sp;
    var run := DigitRun(s[start..], base);
    if run == 0 then Number(0, false, 0)
    else Number(DigitsValue(s[start..start + run], base), neg, start + run)
  }

  /** The unsigned result for a type of the given modulus: saturated, or negated by wrapping. */
  function Unsigned(r: Number, modulus: nat): (v: nat)
    requires modulus > 0
    ensures v < modulus
  {
    if r.magnitude >= modulus then modulus - 1
    else if r.negative then (modulus - r.magnitude) % modulus
    else r.magnitude
  }

  /** A run of digits that is followed by something else is read as their value, up to there. */
  lemma StrToDigits(digits: seq<byte>, rest: seq<byte>, base: nat)
    requires 1 <= base <= 10 && digits != []
    requires forall i :: 0 <= i < |digits| ==> IsDigit(digits[i], base)
    requires rest == [] || !IsDigit(rest[0], base)
    ensures StrTo(digits + rest, base) == Number(DigitsValue(digits, base), false, |digits|)
  {
    var s := digits + rest;
    assert IsDigit(s[0], base);
    assert Spaces(s) == 0;
    assert s[0..] == s;
    var run := DigitRun(s, base);
    assert forall i :: 0 <= i < |digits| ==> s[i] == digits[i];
    assert rest != [] ==> !IsDigit(s[|digits|], base);
    assert s[..run] == digits;
  }

  lemma {:induction false} SpacesRun(lead: seq<byte>, rest: seq<byte>)
    requires forall i :: 0 <= i < |lead| ==> lead[i] == 32 || 9 <= lead[i] <= 13
    requires rest == [] || !(rest[0] == 32 || 9 <= rest[0] <= 13)
    ensures Spaces(lead + rest) == |lead|
  {
    if lead == [] {
      assert lead + rest == rest;
    } else {
      assert (lead + rest)[1..] == lead[1..] + rest;
      SpacesRun(lead[1..], rest);
    }
  }

  lemma DigitRunIs(digits: seq<byte>, rest: seq<byte>, base: nat)
    requires forall i :: 0 <= i < |digits| ==> IsDigit(digits[i], base)
    requires rest == [] || !IsDigit(rest[0], base)
    ensures DigitRun(digits + rest, base) == |digits|
  {
    var s, run := digits + rest, DigitRun(digits + rest, base);
    assert forall i :: 0 <= i < |digits| ==> s[i] == digits[i];
    assert rest != [] ==> s[|digits|] == rest[0];
  }

  lemma Behind(a: seq<byte>, b: seq<byte>, c: seq<byte>, s: seq<byte>)
    requires s == a + b + c
    ensures s[|a|..] == b + c && s[|a|..|a| + |b|] == b
  {
  }

  lemma StrToIs(s: seq<byte>, base: nat, sp: nat, start: nat, n: nat)
    requires Spaces(s) == sp && sp < |s| && start == (if s[sp] in {43, 45} then sp + 1 else sp)
    requires start <= |s| && DigitRun(s[start..], base) == n > 0
    ensures StrTo(s, base) == Number(DigitsValue(s[start..start + n], base), s[sp] == 45, start + n)
  {
    hide Spaces, DigitRun, DigitsValue;
  }

  lemma StrToTail(lead: seq<byte>, tail: seq<byte>, k: nat, n: nat, base: nat)
    requires forall i :: 0 <= i < |lead| ==> lead[i] == 32 || 9 <= lead[i] <= 13
    requires tail != [] && !(tail[0] == 32 || 9 <= tail[0] <= 13) && k == (if tail[0] in {43, 45} then 1 else 0)
    requires DigitRun(tail[k..], base) == n > 0
    ensures StrTo(lead + tail, base) == Number(DigitsValue(tail[k..k + n], base), tail[0] == 45, |lead| + k + n)
  {
    hide StrTo, Spaces, DigitRun, DigitsValue;
    var s, start := lead + tail, |lead| + k;
    SpacesRun(lead, tail);
    assert s[|lead|] == tail[0] && s[start..] == tail[k..] && s[start..start + n] == tail[k..k + n];
    StrToIs(s, base, |lead|, start, n);
  }

  lemma FourParts(a: seq<byte>, b: seq<byte>, c: seq<byte>, d: seq<byte>)
    ensures a + b + c + d == a + (b + c + d)
  {
  }

  lemma SignFirst(sign: seq<byte>, digits: seq<byte>, rest: seq<byte>, base: nat)
    requires sign in {[], [43], [45]} && base <= 10 && digits != [] && IsDigit(digits[0], base)
    ensures var tail := sign + digits + rest;
            && tail != [] && !(tail[0] == 32 || 9 <= tail[0] <= 13)
            && (tail[0] == 45 <==> sign == [45]) && |sign| == if tail[0] in {43, 45} then 1 else 0
  {
  }

  /** White space, at most one sign, digits, and then something else: the number and where it ends. */
  lemma StrToText(lead: seq<byte>, sign: seq<byte>, digits: seq<byte>, rest: seq<byte>, base: nat)
    requires forall i :: 0 <= i < |lead| ==> lead[i] == 32 || 9 <= lead[i] <= 13
    requires sign in {[], [43], [45]} && 1 <= base <= 10 && digits != []
    requires forall i :: 0 <= i < |digits| ==> IsDigit(digits[i], base)
    requires rest == [] || !IsDigit(rest[0], base)
    ensures StrTo(lead + sign + digits + rest, base)
            == Number(DigitsValue(digits, base), sign == [45], |lead| + |sign| + |digits|)
  {
    hide *;
    var tail := sign + digits + rest;
    FourParts(lead, sign, digits, rest);
    SignFirst(sign, digits, rest, base);
    DigitRunIs(digits, rest, base);
    Behind(sign, digits, rest, tail);
    StrToTail(lead, tail, |sign|, |digits|, base);
  }

  /** The same without a sign. */
  lemma StrToUnsigned(lead: seq<byte>, digits: seq<byte>, rest: seq<byte>, base: nat)
    requires forall i :: 0 <= i < |lead| ==> lead[i] == 32 || 9 <= lead[i] <= 13
    requires 1 <= base <= 10 && digits != []
    requires forall i :: 0 <= i < |digits| ==> IsDigit(digits[i], base)
    requires rest == [] || !IsDigit(rest[0], base)
    ensures StrTo(lead + digits + rest, base) == Number(DigitsValue(digits, base), false, |lead| + |digits|)
  {
    hide *;
    assert lead + [] == lead;
    StrToText(lead, [], digits, rest, base);
  }

  /** White space and a character that starts no number: nothing is converted. */
  lemma StrToNothing(lead: seq<byte>, rest: seq<byte>, base: nat)
    requires forall i :: 0 <= i < |lead| ==> lead[i] == 32 || 9 <= lead[i] <= 13
    requires 1 <= base <= 10
    requires rest == [] || (!(rest[0] == 32 || 9 <= rest[0] <= 13) && rest[0] != 43 && rest[0] != 45
                            && !IsDigit(rest[0], base))
    ensures StrTo(lead + rest, base) == Number(0, false, 0)
  {
    hide Spaces, DigitRun, DigitsValue;
    var s, sp := lead + rest, |lead|;
    SpacesRun(lead, rest);
    DigitRunIs([], rest, base);
    assert [] + rest == rest && s[sp..] == rest;
    assert rest != [] ==> s[sp] == rest[0];
  }

  lemma {:induction false} OctalDigitsValue(v: nat, len: nat)
    ensures DigitsValue(OctalDigits(v, len), 8) == v % Pow(8, len)
  {
    if len > 0 {
      var d := OctalDigits(v, len);
      assert d[..len - 1] == OctalDigits(v / 8, len - 1);
      OctalDigitsValue(v / 8, len - 1);
      ModStep(v, 8, Pow(8, len - 1));
    }
  }

  lemma {:induction false} DropLeadingZero(s: seq<byte>)
    requires s != [] && s[0] == DIGIT0
    requires forall i :: 0 <= i < |s| ==> IsDigit(s[i], 8)
    ensures DigitsValue(s[1..], 8) == DigitsValue(s, 8)
  {
    if |s| > 1 {
      var t := s[..|s| - 1];
      DropLeadingZero(t);
      assert s[1..][..|s[1..]| - 1] == t[1..];
    } else {
      assert s[..0] == [];
    }
  }

  // ---------------------------------------------------------------- getOctal

  /** The seven low bits of the first byte of a base-256 field, as a signed number. */
  function Lead7(b: byte): int {
    if b % 128 >= 64 then b % 128 - 128 else b % 128
  }

  function BigEndian(s: seq<byte>): nat {
    if s == [] then 0 else BigEndian(s[..|s| - 1]) * 256 + s[|s| - 1]
  }

  /** The number a GNU base-256 field stands for. */
  function Base256(f: seq<byte>): int
    requires f != []
  {
    Lead7(f[0]) * Pow(256, |f| - 1) + BigEndian(f[1..])
  }

  /** The meaning of a numeric field, or None when the reader gives up on it. */
  function FieldValue(f: seq<byte>): Option<U64>
    requires f != []
  {
    var r := StrTo(f, 8);
    if ByteAt(f, r.end) == NUL || ByteAt(f, r.end) == BLANK then Some(Unsigned(r, TWO64))
    else if f[0] < 128 then None
    else Some(Base256(f) % TWO64)
  }

  /** Shifting the first byte left and right by one in eight signed bits. */
  function SignExtend(first: byte): int {
    var shifted: int := first * 2 % 256;
    (if shifted >= 128 then shifted - 256 else shifted) / 2
  }

  lemma SevenBits(b: byte)
    ensures Lead7(b) == SignExtend(b)
  {
  }

  lemma Base256Start(f: seq<byte>)
    requires f != []
    ensures Base256(f[..1]) == Lead7(f[0]) == SignExtend(f[0])
  {
    hide Lead7, SignExtend;
    SevenBits(f[0]);
    assert f[..1][1..] == [] && BigEndian([]) == 0 && Pow(256, 0) == 1;
  }

  lemma Base256Step(f: seq<byte>, k: nat)
    requires 1 <= k < |f|
    ensures Base256(f[..k + 1]) == Base256(f[..k]) * 256 + f[k]
  {
    var g, h := f[..k], f[..k + 1];
    assert h[1..][..|h[1..]| - 1] == g[1..];
    var p, q := Lead7(f[0]), Pow(256, k - 1);
    assert Pow(256, k) == 256 * q;
    assert p * (256 * q) == p * q * 256;
  }

  /** One turn of the base-256 loop, on 64-bit values. */
  lemma Base256Turn(f: seq<byte>, k: nat, v: int)
    requires 1 <= k < |f| && v == Base256(f[..k]) % TWO64
    ensures (v * 256 + f[k]) % TWO64 == Base256(f[..k + 1]) % TWO64
  {
    Base256Step(f, k);
    ModMulAdd(Base256(f[..k]), 256, f[k], TWO64);
  }

  /**
   * `getOctal`: it first stores a NUL one past the field, so the byte after the field is lost; the value is the
   * meaning of the field itself.
   */
  method GetOctal(buf: array<byte>, str: nat, len: nat) returns (r: Option<U64>)
    requires len >= 1 && str + len < buf.Length
    modifies buf
    ensures r == FieldValue(old(buf[str..str + len]))
    ensures buf[str + len] == NUL
    ensures forall i :: 0 <= i < buf.Length && i != str + len ==> buf[i] == old(buf[i])
  {
    hide StrTo, Unsigned, Base256, SignExtend, Lead7;
    ghost var f := buf[str..str + len];
    buf[str + len] := NUL;
    var field := buf[str..str + len];
    assert field == f;
    var n := StrTo(field, 8);
    var v: U64 := Unsigned(n, TWO64);
    assert buf[str + n.end] == ByteAt(f, n.end);
    if buf[str + n.end] != NUL && buf[str + n.end] != BLANK {
      if buf[str] < 128 {
        return None;
      }
      v := SignExtend(buf[str]) % TWO64;
      Base256Start(f);
      var left, p := len, str;
      while left != 1
        invariant 1 <= left <= len && p == str + (len - left)
        invariant v == Base256(f[..len - left + 1]) % TWO64
        invariant buf[str..str + len] == f && buf[str + len] == NUL
        invariant forall i :: 0 <= i < buf.Length && i != str + len ==> buf[i] == old(buf[i])
      {
        left := left - 1;
        p := p + 1;
        assert buf[p] == f[p - str];
        Base256Turn(f, p - str, v);
        v := (v * 256 + buf[p]) % TWO64;
      }
      assert f[..len] == f;
    }
    return Some(v);
  }

  function BinaryDigits(v: nat, n: nat): (s: seq<byte>)
    ensures |s| == n
  {
    if n == 0 then [] else BinaryDigits(v / 256, n - 1) + [v % 256]
  }

  /** The GNU encoding of a signed number in `n` bytes: top bit set, then two's complement in the other bits. */
  function Base256Field(v: int, n: nat): (f: seq<byte>)
    requires n >= 1
    ensures |f| == n && f[0] >= 128
  {
    [128 + v / Pow(256, n - 1) % 128] + BinaryDigits(v % Pow(256, n - 1), n - 1)
  }

  lemma {:induction false} BinaryDigitsValue(v: nat, n: nat)
    ensures BigEndian(BinaryDigits(v, n)) == v % Pow(256, n)
  {
    if n > 0 {
      var d := BinaryDigits(v, n);
      assert d[..n - 1] == BinaryDigits(v / 256, n - 1);
      BinaryDigitsValue(v / 256, n - 1);
      ModStep(v, 256, Pow(256, n - 1));
    }
  }

  /** Every field whose top bit is set is base-256, whatever follows. */
  lemma TopBitIsBase256(f: seq<byte>)
    requires f != [] && f[0] >= 128
    ensures FieldValue(f) == Some(Base256(f) % TWO64)
  {
  }

  lemma CancelFactor(p: int, a: int, b: int)
    requires p > 0 && p * a < p * b
    ensures a < b
  {
  }

  lemma Quotient(v: int, p: int, lo: int, hi: int)
    requires p > 0 && p * lo <= v < p * hi
    ensures lo <= v / p < hi
  {
    var q := v / p;
    assert p * q <= v < p * q + p;
    assert p * q + p == p * (q + 1);
    CancelFactor(p, lo, q + 1);
    CancelFactor(p, q, hi);
  }

  lemma Lead7Inverse(q: int)
    requires -64 <= q < 64
    ensures Lead7(128 + q % 128) == q
  {
  }

  lemma Base256Parts(v: int, n: nat, p: nat)
    requires n >= 1 && p == Pow(256, n - 1)
    ensures Base256(Base256Field(v, n)) == Lead7(128 + v / p % 128) * p + BigEndian(BinaryDigits(v % p, n - 1))
  {
  }

  lemma ModBelow(v: nat, p: nat, bound: nat)
    requires 0 < p <= bound
    ensures 0 <= v % p < bound
    ensures v < p ==> v % p == v
  {
  }

  lemma Base256Inverse(v: int, n: nat)
    requires n >= 1 && -64 * Pow(256, n - 1) <= v < 64 * Pow(256, n - 1)
    ensures Base256(Base256Field(v, n)) == v
  {
    hide *;
    var p := Pow(256, n - 1);
    Base256Parts(v, n, p);
    Quotient(v, p, -64, 64);
    Lead7Inverse(v / p);
    BinaryDigitsValue(v % p, n - 1);
    ModBelow(v % p, p, p);
    assert v / p * p + v % p == v;
  }

  lemma TimeIsExact(v: int)
    requires -TWO63 <= v < TWO63
    ensures ToTime(v % TWO64) == v
  {
  }

  /**
   * Base-256 is exact: any number that fits the field's two's complement is read back modulo 2^64, so a signed
   * 64-bit time is read back as itself, negative ones included.
   */
  lemma Base256RoundTrip(v: int, n: nat)
    requires n >= 1 && -64 * Pow(256, n - 1) <= v < 64 * Pow(256, n - 1)
    ensures Base256(Base256Field(v, n)) == v
    ensures FieldValue(Base256Field(v, n)) == Some(v % TWO64)
    ensures -TWO63 <= v < TWO63 ==> ToTime(FieldValue(Base256Field(v, n)).value) == v
  {
    hide *;
    Base256Inverse(v, n);
    TopBitIsBase256(Base256Field(v, n));
    if -TWO63 <= v < TWO63 {
      TimeIsExact(v);
    }
  }

  lemma OctalFieldReads(v: nat, len: nat)
    requires len >= 2
    ensures StrTo(OctalField(v, len), 8).magnitude == v % Pow(8, len)
    ensures !StrTo(OctalField(v, len), 8).negative
    ensures ByteAt(OctalField(v, len), StrTo(OctalField(v, len), 8).end) == NUL
  {
    var d, f := OctalDigits(v, len), OctalField(v, len);
    OctalDigitsValue(v, len);
    if d[0] == DIGIT0 {
      DropLeadingZero(d);
      StrToDigits(d[1..], [NUL], 8);
    } else {
      StrToDigits(d, [], 8);
      assert d + [] == d;
    }
  }

  lemma {:induction false} PowMonotone(b: nat, m: nat, n: nat)
    requires b >= 1 && m <= n
    ensures Pow(b, m) <= Pow(b, n)
  {
    if m < n {
      PowMonotone(b, m, n - 1);
    }
  }

  /** What a written field looks like: digits and a NUL if the value needs fewer places, and digits only otherwise. */
  lemma OctalFieldText(v: nat, len: nat)
    requires len >= 1
    ensures var f := OctalField(v, len);
            && (forall i :: 0 <= i < len - 1 ==> 48 <= f[i] <= 55)
            && (f[len - 1] == 0 || 48 <= f[len - 1] <= 55)
            && (f[len - 1] == 0 <==> OctalDigits(v, len)[0] == 48)
  {
    assert forall i :: 0 <= i < len ==> IsDigit(OctalDigits(v, len)[i], 8);
  }

  lemma Pow8Bound(len: nat)
    requires len <= 12
    ensures Pow(8, len) <= 68719476736
  {
    PowMonotone(8, len, 12);
    assert Pow(8, 12) == 68719476736;
  }

  /** A field written by `putOctal` is read back as the value modulo what the field can hold. */
  lemma OctalRoundTrip(v: nat, len: nat)
    requires 2 <= len <= 12
    ensures FieldValue(OctalField(v, len)) == Some(v % Pow(8, len))
    ensures v < Pow(8, len) ==> FieldValue(OctalField(v, len)) == Some(v)
  {
    OctalFieldReads(v, len);
    Pow8Bound(len);
    ModBelow(v, Pow(8, len), 68719476736);
  }
}

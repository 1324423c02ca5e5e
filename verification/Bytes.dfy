/** Bytes, C strings and the small types every other module shares. */
module Bytes {

  type byte = b: int | 0 <= b < 256

  const NUL: byte := 0
  const BLANK: byte := 32
  const DOT: byte := 46
  const SLASH: byte := 47
  const DIGIT0: byte := 48

  datatype Option<+T> = None | Some(value: T)

  /** Why the program stopped: every call that reports an error and does not return ends in one of these. */
  datatype Death =
    | ShortRead
    | ShortWrite
    | IoError
    | BadChecksum
    | CorruptOctal
    | UnknownType
    | FsError
    | OutsidePayload

  datatype Fate = Alive | Dead(why: Death)

  predicate NoNul(s: seq<byte>) {
    forall i :: 0 <= i < |s| ==> s[i] != NUL
  }

  /** The C string that starts a buffer: everything before the first NUL. */
  function CStr(s: seq<byte>): (r: seq<byte>)
    ensures |r| <= |s| && NoNul(r) && r == s[..|r|]
    ensures |r| < |s| ==> s[|r|] == NUL
  {
    if s == [] || s[0] == NUL then [] else [s[0]] + CStr(s[1..])
  }

  /** A NUL-free prefix that ends at a NUL or at the end of the buffer is the C string. */
  lemma CStrIs(s: seq<byte>, r: seq<byte>)
    requires |r| <= |s| && r == s[..|r|] && NoNul(r)
    requires |r| < |s| ==> s[|r|] == NUL
    ensures CStr(s) == r
  {
    if s != [] && s[0] != NUL {
      assert r[0] == s[0];
      CStrIs(s[1..], r[1..]);
    }
  }

  /** The buffer holds the C string s, terminator included, from index `at` on. */
  ghost predicate HoldsAt(buf: seq<byte>, at: nat, s: seq<byte>) {
    && at + |s| < |buf|
    && NoNul(s)
    && buf[at..at + |s|] == s
    && buf[at + |s|] == NUL
  }

  lemma HoldsIsCStr(buf: seq<byte>, at: nat, s: seq<byte>)
    requires HoldsAt(buf, at, s)
    ensures CStr(buf[at..]) == s
  {
    assert buf[at..][..|s|] == buf[at..at + |s|];
    CStrIs(buf[at..], s);
  }

  function Repeat(b: byte, n: nat): (s: seq<byte>)
    ensures |s| == n && forall i :: 0 <= i < n ==> s[i] == b
  {
    seq(n, _ => b)
  }

  /** What `strncpy(field, s, n)` stores: the string cut to the field and padded with NULs. */
  function StrNCpy(s: seq<byte>, n: nat): (f: seq<byte>)
    ensures |f| == n
  {
    if |s| >= n then s[..n] else s + Repeat(NUL, n - |s|)
  }

  lemma StrNCpyReadsBack(s: seq<byte>, n: nat)
    requires NoNul(s) && |s| <= n
    ensures CStr(StrNCpy(s, n)) == s
  {
    CStrIs(StrNCpy(s, n), s);
  }

  /** `last_char_is(s, c)` is non-NULL. */
  predicate EndsWith(s: seq<byte>, c: byte) {
    s != [] && s[|s| - 1] == c
  }
}

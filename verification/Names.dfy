/** Member names: stripping the unsafe prefix, joining prefix and name, copying in place. */
module Names {
  import opened Bytes

  /** A ".." component that a slash follows starts at index j. */
  predicate DotDotAt(s: seq<byte>, j: nat) {
    && j + 3 <= |s|
    && (j == 0 || s[j - 1] == SLASH)
    && s[j] == DOT && s[j + 1] == DOT && s[j + 2] == SLASH
  }

  /** Just after the last such component among those that start before k; 0 if there is none. */
  function LastUnsafeEnd(s: seq<byte>, k: nat): (e: nat)
    requires k <= |s|
    ensures e <= |s|
    ensures e == 0 || (e >= 3 && e - 3 < k && DotDotAt(s, e - 3))
    ensures forall j :: 0 <= j < k && DotDotAt(s, j) ==> j + 3 <= e
  {
    if k == 0 then 0
    else if DotDotAt(s, k - 1) then k + 2
    else LastUnsafeEnd(s, k - 1)
  }

  function SkipSlashes(s: seq<byte>, i: nat): (p: nat)
    requires i <= |s|
    ensures i <= p <= |s|
    ensures forall j :: i <= j < p ==> s[j] == SLASH
    ensures p < |s| ==> s[p] != SLASH
    decreases |s| - i
  {
    if i < |s| && s[i] == SLASH then SkipSlashes(s, i + 1) else i
  }

  function StripPoint(s: seq<byte>): (p: nat)
    ensures p <= |s|
  {
    SkipSlashes(s, LastUnsafeEnd(s, |s|))
  }

  /** The name that is left: everything after the last unsafe ".." and the slashes that follow it. */
  function Strip(s: seq<byte>): seq<byte> {
    s[StripPoint(s)..]
  }

  /** `strstr(s + from, "/../")`, as an index, or -1. */
  method FindUnsafe(s: seq<byte>, from: nat) returns (at: int)
    requires from <= |s|
    ensures at >= 0 ==> from <= at && at + 4 <= |s| && s[at] == SLASH && DotDotAt(s, at + 1)
    ensures at < 0 ==> forall j :: from < j <= |s| && s[j - 1] == SLASH ==> !DotDotAt(s, j)
  {
    var i := from;
    while i + 4 <= |s|
      invariant from <= i
      invariant forall j :: from < j <= i && j <= |s| && s[j - 1] == SLASH ==> !DotDotAt(s, j)
    {
      if s[i] == SLASH && s[i + 1] == DOT && s[i + 2] == DOT && s[i + 3] == SLASH {
        return i;
      }
      i := i + 1;
    }
    return -1;
  }

  /** `strip_unsafe_prefix`: the index of the returned position in the string. */
  method StripUnsafePrefix(str: seq<byte>) returns (cp: nat)
    ensures cp == StripPoint(str)
  {
    cp := 0;
    while true
      invariant cp <= StripPoint(str)
      invariant cp == 0 || str[cp - 1] == SLASH
      decreases |str| - cp
    {
      if cp < |str| && str[cp] == SLASH {
        assert cp != StripPoint(str);
        cp := cp + 1;
        continue;
      }
      if cp + 3 <= |str| && str[cp] == DOT && str[cp + 1] == DOT && str[cp + 2] == SLASH {
        assert DotDotAt(str, cp);
        cp := cp + 3;
        continue;
      }
      var cp2 := FindUnsafe(str, cp);
      if cp2 < 0 {
        break;
      }
      cp := cp2 + 4;
    }
    ghost var e := LastUnsafeEnd(str, |str|);
    assert e <= cp by {
      assert forall j :: cp < j < |str| ==> !DotDotAt(str, j);
    }
    assert forall j :: e <= j < cp ==> str[j] == SLASH;
  }

  /** What a name may not contain once it is stripped. */
  predicate Safe(s: seq<byte>) {
    && (s == [] || s[0] != SLASH)
    && forall j :: 0 <= j <= |s| ==> !DotDotAt(s, j)
  }

  predicate AllSlashes(s: seq<byte>) {
    forall i :: 0 <= i < |s| ==> s[i] == SLASH
  }

  /** Independent description of the cut: only unsafe material before it, a safe name after it. */
  predicate IsCut(s: seq<byte>, p: nat) {
    && p <= |s|
    && Safe(s[p..])
    && exists e :: 0 <= e <= p && (e == 0 || (e >= 3 && DotDotAt(s, e - 3))) && AllSlashes(s[e..p])
  }

  lemma SuffixDotDot(s: seq<byte>, p: nat, j: nat)
    requires p <= |s| && (p == 0 || s[p - 1] == SLASH)
    ensures DotDotAt(s[p..], j) <==> DotDotAt(s, p + j)
  {
  }

  lemma NoUnsafeAfter(s: seq<byte>, p: nat)
    requires p <= |s| && Safe(s[p..]) && (p == 0 || s[p - 1] == SLASH)
    ensures LastUnsafeEnd(s, |s|) <= p
  {
    forall j | p <= j <= |s| ensures !DotDotAt(s, j) {
      SuffixDotDot(s, p, j - p);
    }
  }

  lemma CutIsUnique(s: seq<byte>, p: nat)
    requires IsCut(s, p)
    ensures p == StripPoint(s)
  {
    var e := LastUnsafeEnd(s, |s|);
    var e' :| 0 <= e' <= p && (e' == 0 || (e' >= 3 && DotDotAt(s, e' - 3))) && AllSlashes(s[e'..p]);
    assert forall j :: e' <= j < p ==> s[j] == s[e'..p][j - e'];
    assert p == 0 || s[p - 1] == SLASH;
    assert e' <= e;
    NoUnsafeAfter(s, p);
    assert p < |s| ==> s[p..][0] == s[p] != SLASH;
  }

  /** The stripped name is safe, and the cut is the only one with that description. */
  lemma StripMeetsSpecification(s: seq<byte>)
    ensures IsCut(s, StripPoint(s))
    ensures forall p :: IsCut(s, p) ==> p == StripPoint(s)
  {
    var e, c := LastUnsafeEnd(s, |s|), StripPoint(s);
    assert c == 0 || s[c - 1] == SLASH;
    assert AllSlashes(s[e..c]);
    forall j | 0 <= j <= |s[c..]| ensures !DotDotAt(s[c..], j) {
      SuffixDotDot(s, c, j);
    }
    forall p | IsCut(s, p) ensures p == c {
      CutIsUnique(s, p);
    }
  }

  lemma SafeIsFixed(s: seq<byte>)
    requires Safe(s)
    ensures StripPoint(s) == 0 && Strip(s) == s
  {
  }

  /** Stripping a stripped name changes nothing; a name is left alone exactly when it is safe. */
  lemma StripIdempotent(s: seq<byte>)
    ensures Safe(Strip(s)) && Strip(Strip(s)) == Strip(s)
    ensures Safe(s) <==> Strip(s) == s
  {
    StripMeetsSpecification(s);
    SafeIsFixed(Strip(s));
    if Safe(s) {
      SafeIsFixed(s);
    }
  }

  /** The name ends in a ".." component. */
  predicate EndsInDotDot(s: seq<byte>) {
    && |s| >= 2 && s[|s| - 1] == DOT && s[|s| - 2] == DOT
    && (|s| == 2 || s[|s| - 3] == SLASH)
  }

  /** Appending the slash of a directory keeps a safe name safe exactly when its last component is not "..". */
  lemma TrailingSlashSafe(s: seq<byte>)
    requires Safe(s) && s != []
    ensures Safe(s + [SLASH]) <==> !EndsInDotDot(s)
  {
    var t := s + [SLASH];
    if EndsInDotDot(s) {
      assert DotDotAt(t, |s| - 2);
    } else {
      forall j | 0 <= j <= |t| ensures !DotDotAt(t, j) {
        if j + 3 <= |s| {
          assert DotDotAt(t, j) <==> DotDotAt(s, j);
        }
      }
    }
  }

  /** `concat_path_file` on C strings. */
  function Concat(path: seq<byte>, filename: seq<byte>): seq<byte> {
    path + (if EndsWith(path, SLASH) then [] else [SLASH]) + filename[SkipSlashes(filename, 0)..]
  }

  method ConcatPathFile(path: seq<byte>, filename: seq<byte>) returns (r: seq<byte>)
    ensures r == Concat(path, filename)
  {
    var lc := EndsWith(path, SLASH);
    var f := 0;
    while f < |filename| && filename[f] == SLASH
      invariant f <= |filename| && SkipSlashes(filename, 0) == SkipSlashes(filename, f)
    {
      f := f + 1;
    }
    r := path + (if lc then [] else [SLASH]) + filename[f..];
  }

  /** `overlapping_strcpy` inside one buffer, towards its start: the string s moves from src to dst. */
  method OverlappingStrcpy(buf: array<byte>, dst0: nat, src0: nat, ghost s: seq<byte>)
    requires dst0 <= src0 && HoldsAt(buf[..], src0, s)
    modifies buf
    ensures HoldsAt(buf[..], dst0, s)
    ensures buf[..dst0] == old(buf[..dst0])
  {
    ghost var d := src0 - dst0;
    assert forall i :: 0 <= i < |s| ==> buf[src0 + i] == buf[src0..src0 + |s|][i] == s[i];
    if dst0 != src0 {
      var dst, src := dst0, src0;
      buf[dst] := buf[src];
      while buf[dst] != NUL
        invariant dst0 <= dst <= dst0 + |s| && src == dst + d
        invariant forall i :: dst < i < buf.Length ==> buf[i] == old(buf[i])
        invariant forall i :: 0 <= i < dst0 ==> buf[i] == old(buf[i])
        invariant forall i :: dst0 <= i < dst ==> buf[i] == s[i - dst0]
        invariant buf[dst] == if dst < dst0 + |s| then s[dst - dst0] else NUL
        decreases buf.Length - dst
      {
        dst := dst + 1;
        src := src + 1;
        buf[dst] := buf[src];
      }
    }
  }
}

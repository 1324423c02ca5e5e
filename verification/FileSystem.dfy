/** An abstract file system, and `bb_make_directory` on top of it. */
module FileSystem {
  import opened Bytes
  import opened Masks
  import Names

  /** A path as the list of its components; repeated slashes and "." do not count. */
  type Path = seq<seq<byte>>

  datatype Node = Directory | File(content: seq<byte>)

  type Nodes = map<Path, Node>

  datatype Errno = Ok | EEXIST | ENOENT | ENOTDIR | EACCES

  /** The index of the first slash, or the length. */
  function FirstSlash(s: seq<byte>): (k: nat)
    ensures k <= |s|
    ensures k < |s| ==> s[k] == SLASH
    ensures forall i :: 0 <= i < k ==> s[i] != SLASH
  {
    if s == [] || s[0] == SLASH then 0 else 1 + FirstSlash(s[1..])
  }

  /** A component as a path; empty ones and "." name nothing. */
  function One(c: seq<byte>): Path {
    if c == [] || c == [DOT] then [] else [c]
  }

  function Components(s: seq<byte>): Path
    decreases |s|
  {
    var k := FirstSlash(s);
    if k == |s| then One(s) else One(s[..k]) + Components(s[k + 1..])
  }

  function Parent(p: Path): Path {
    if p == [] then [] else p[..|p| - 1]
  }

  /** Relative paths start at a directory, which is the empty path. */
  predicate IsDirAt(nodes: Nodes, p: Path) {
    p == [] || (p in nodes && nodes[p].Directory?)
  }

  predicate IsFileAt(nodes: Nodes, p: Path) {
    p != [] && p in nodes && nodes[p].File?
  }

  /** A proper prefix of the path is a file. */
  predicate Blocked(nodes: Nodes, p: Path) {
    exists i :: 0 <= i < |p| && IsFileAt(nodes, p[..i])
  }

  // ---------------------------------------------------------------- system calls

  function MkDirError(nodes: Nodes, path: seq<byte>): Errno {
    var p := Components(path);
    if path == [] then ENOENT
    else if p == [] || p in nodes then EEXIST
    else if IsDirAt(nodes, Parent(p)) then Ok
    else if Blocked(nodes, p) then ENOTDIR
    else ENOENT
  }

  function AfterMkDir(nodes: Nodes, path: seq<byte>): Nodes {
    if MkDirError(nodes, path) == Ok then nodes[Components(path) := Directory] else nodes
  }

  /** What follows the last slash. */
  function BaseName(s: seq<byte>): seq<byte> {
    if s == [] || s[|s| - 1] == SLASH then [] else BaseName(s[..|s| - 1]) + [s[|s| - 1]]
  }

  /** The text can only name a directory. */
  predicate DirectoryText(s: seq<byte>) {
    BaseName(s) == [] || BaseName(s) == [DOT]
  }

  function UnlinkError(nodes: Nodes, path: seq<byte>): Errno {
    var p := Components(path);
    if path == [] then ENOENT
    else if IsDirAt(nodes, p) then EACCES
    else if Blocked(nodes, p) then ENOTDIR
    else if p !in nodes then ENOENT
    else if DirectoryText(path) then ENOTDIR
    else Ok
  }

  function AfterUnlink(nodes: Nodes, path: seq<byte>): Nodes {
    if UnlinkError(nodes, path) == Ok then nodes - {Components(path)} else nodes
  }

  /** `open(path, O_WRONLY | O_CREAT | O_EXCL)` succeeds. */
  predicate CanCreate(nodes: Nodes, path: seq<byte>) {
    var p := Components(path);
    p != [] && p !in nodes && IsDirAt(nodes, Parent(p)) && !DirectoryText(path)
  }

  /** Nothing is lost or changed; what is new is a directory. */
  ghost predicate Grown(before: Nodes, after: Nodes) {
    && (forall p :: p in before ==> p in after && after[p] == before[p])
    && (forall p :: p in after && p !in before ==> after[p] == Directory)
  }

  /**
   * The system. A reliable one fails only when it must; any other may fail at will, but what it reports as done is
   * done, and a failed call changes nothing.
   */
  class System {
    const reliable: bool
    var nodes: Nodes
    var umask: nat
    ghost var masks: seq<nat>      // the umask in force at every `mkdir` so far

    constructor (nodes: Nodes, umask: nat, reliable: bool)
      ensures this.nodes == nodes && this.umask == umask && this.reliable == reliable
    {
      this.nodes, this.umask, this.reliable := nodes, umask, reliable;
      masks := [];
    }

    method MkDir(path: seq<byte>) returns (e: Errno)
      modifies this`nodes, this`masks
      ensures masks == old(masks) + [umask]
      ensures e == Ok ==> path != [] && IsDirAt(nodes, Components(path)) && nodes == old(AfterMkDir(nodes, path))
      ensures e != Ok ==> nodes == old(nodes)
      ensures reliable ==> e == old(MkDirError(nodes, path))
      ensures Grown(old(nodes), nodes)
    {
      e := MkDirError(nodes, path);
      masks := masks + [umask];
      if !reliable {
        var fails: bool, code: Errno := *, *;
        if fails && code != Ok {
          return code;
        }
      }
      nodes := AfterMkDir(nodes, path);
    }

    /** `stat` succeeds and reports a directory. */
    method StatIsDir(path: seq<byte>) returns (r: bool)
      ensures r ==> path != [] && IsDirAt(nodes, Components(path))
      ensures reliable ==> r == (path != [] && IsDirAt(nodes, Components(path)))
    {
      r := path != [] && IsDirAt(nodes, Components(path));
      if !reliable {
        var fails: bool := *;
        if fails {
          return false;
        }
      }
    }

    method ChMod(path: seq<byte>, mode: int) returns (ok: bool)
      ensures reliable ==> ok
    {
      ok := true;
      if !reliable {
        ok := *;
      }
    }

    method Umask(mask: nat) returns (previous: nat)
      modifies this`umask
      ensures previous == old(umask) && umask == mask
    {
      previous := umask;
      umask := mask;
    }

    method Unlink(path: seq<byte>) returns (e: Errno)
      modifies this`nodes
      ensures e == Ok ==> nodes == old(AfterUnlink(nodes, path)) && old(UnlinkError(nodes, path)) == Ok
      ensures e != Ok ==> nodes == old(nodes)
      ensures reliable ==> e == old(UnlinkError(nodes, path))
    {
      e := UnlinkError(nodes, path);
      if !reliable {
        var fails: bool, code: Errno := *, *;
        if fails && code != Ok {
          return code;
        }
      }
      nodes := AfterUnlink(nodes, path);
    }

    /** Creates an empty file that was not there before. */
    method CreateExclusive(path: seq<byte>) returns (ok: bool)
      modifies this`nodes
      ensures ok ==> old(CanCreate(nodes, path)) && nodes == old(nodes)[Components(path) := File([])]
      ensures !ok ==> nodes == old(nodes)
      ensures reliable ==> ok == old(CanCreate(nodes, path))
    {
      ok := CanCreate(nodes, path);
      if !reliable {
        var fails: bool := *;
        if fails {
          return false;
        }
      }
      if ok {
        nodes := nodes[Components(path) := File([])];
      }
    }

    /** What has been written to an open file becomes its content. */
    method Store(path: seq<byte>, content: seq<byte>)
      modifies this`nodes
      ensures nodes == old(nodes)[Components(path) := File(content)]
    {
      nodes := nodes[Components(path) := File(content)];
    }
  }

  // ---------------------------------------------------------------- bb_make_directory

  /** Where the path is cut next: behind the next run of slashes, or at its end. */
  function NextStop(s: seq<byte>, k: nat): (n: nat)
    requires k <= |s|
    ensures k <= n <= |s|
    ensures n < |s| ==> n > k && s[n - 1] == SLASH && s[n] != SLASH
  {
    var slash := k + FirstSlash(s[k..]);
    Names.SkipSlashes(s, slash)
  }

  datatype Made = Made(nodes: Nodes, cutAt: Option<nat>)    // cutAt: where the path was left cut, on failure

  predicate MkDirPasses(nodes: Nodes, path: seq<byte>) {
    || MkDirError(nodes, path) == Ok
    || (MkDirError(nodes, path) == EEXIST && IsDirAt(nodes, Components(path)))
  }

  /** `mkdir -p` from index k on, on a system that fails only when it must. */
  function MakeDirs(nodes: Nodes, path: seq<byte>, k: nat): Made
    requires k <= |path|
    decreases |path| - k
  {
    var n := NextStop(path, k);
    if !MkDirPasses(nodes, path[..n]) then Made(nodes, Some(n))
    else if n == |path| then Made(AfterMkDir(nodes, path), None)
    else MakeDirs(AfterMkDir(nodes, path[..n]), path, n)
  }

  const NO_MASK: nat := 0xFFFF_FFFF

  /** `mask & ~0300` */
  function ClearOwnerWX(mask: nat): nat {
    mask - mask / 64 % 4 * 64
  }

  lemma OwnerMask(mask: nat)
    ensures BitClear(mask, 0xC0) == ClearOwnerWX(mask)
  {
    hide BitAnd, BitClear, ShiftLeft, ShiftRight;
    PowersOfTwo();
    LowMask(mask / 64, 2);
    ShiftedMask(mask, 3, 6);
    ShiftSix(3);
    ShiftSix(mask);
    ShiftSix(mask / 64 % 4);
    ClearIsRest(mask, 0xC0);
  }

  /** Every prefix of the path that ends before a slash, up to index k, is a directory. */
  ghost predicate PrefixesAreDirs(nodes: Nodes, path: seq<byte>, k: nat) {
    forall i :: 0 <= i < k && i < |path| && path[i] == SLASH ==> IsDirAt(nodes, Components(path[..i]))
  }

  /** The buffer holds the string cut at index j, and is otherwise what it was. */
  ghost predicate CutAt(now: seq<byte>, before: seq<byte>, str: seq<byte>, j: nat) {
    j <= |str| < |before| && now == before[j := NUL]
  }

  lemma ComponentsStep(s: seq<byte>, f: nat)
    requires f == FirstSlash(s)
    ensures Components(s) == if f < |s| then One(s[..f]) + Components(s[f + 1..]) else One(s)
  {
    hide One, FirstSlash;
  }

  lemma FirstSlashOfPrefix(s: seq<byte>, k: nat)
    requires k < |s| && s[k] == SLASH
    ensures FirstSlash(s) <= k
    ensures FirstSlash(s[..k]) == FirstSlash(s)
  {
    hide FirstSlash;
  }

  lemma {:induction false} ComponentsSplit(s: seq<byte>, k: nat)
    requires k < |s| && s[k] == SLASH
    ensures Components(s) == Components(s[..k]) + Components(s[k + 1..])
    decreases |s|
  {
    hide Components, One, FirstSlash;
    var f := FirstSlash(s);
    FirstSlashOfPrefix(s, k);
    ComponentsStep(s, f);
    ComponentsStep(s[..k], f);
    if f < k {
      ComponentsSplit(s[f + 1..], k - f - 1);
      assert s[f + 1..][..k - f - 1] == s[..k][f + 1..];
      assert s[f + 1..][k - f..] == s[k + 1..];
      assert s[..k][..f] == s[..f];
    }
  }

  lemma {:induction false} SlashRun(s: seq<byte>, i: nat, n: nat)
    requires i <= n <= |s| && forall j :: i <= j < n ==> s[j] == SLASH
    ensures Components(s[..i]) == Components(s[..n])
  {
    if i < n {
      SlashRun(s, i, n - 1);
      ComponentsSplit(s[..n], n - 1);
      assert s[..n][..n - 1] == s[..n - 1] && s[..n][n..] == [];
      assert Components([]) == [];
    }
  }

  lemma FirstSlashIs(str: seq<byte>, s0: nat, s: nat)
    requires s0 <= s <= |str| && (s < |str| ==> str[s] == SLASH)
    requires forall i :: s0 <= i < s ==> str[i] != SLASH
    ensures s0 + FirstSlash(str[s0..]) == s
  {
  }

  method SkipRun(path: array<byte>, run: nat, ghost str: seq<byte>) returns (s: nat)
    requires HoldsAt(path[..], 0, str) && run < |str| && str[run] == SLASH
    ensures s == Names.SkipSlashes(str, run) && run < s
  {
    assert forall i :: 0 <= i < |str| ==> path[i] == path[..][0..|str|][i] == str[i];
    s := run + 1;
    while path[s] == SLASH
      invariant run < s <= |str| && Names.SkipSlashes(str, s) == Names.SkipSlashes(str, run)
      decreases |str| - s
    {
      s := s + 1;
    }
  }

  /** Moves from s0 past the rest of a component and the slashes that follow it. */
  method Bypass(path: array<byte>, s0: nat, ghost str: seq<byte>) returns (s: nat, found: bool)
    requires HoldsAt(path[..], 0, str) && s0 <= |str|
    ensures s == NextStop(str, s0)
    ensures found || s == |str|
    ensures s < |str| ==> found
    ensures forall i :: s0 <= i < s && str[i] == SLASH ==> forall j :: i <= j < s ==> str[j] == SLASH
  {
    s, found := s0, false;
    assert forall i :: 0 <= i < |str| ==> path[i] == path[..][0..|str|][i] == str[i];
    while path[s] != NUL
      invariant s0 <= s <= |str|
      invariant forall i :: s0 <= i < s ==> str[i] != SLASH
      decreases |str| - s
    {
      if path[s] == SLASH {
        found := true;
        FirstSlashIs(str, s0, s);
        s := SkipRun(path, s, str);
        return;
      }
      s := s + 1;
    }
    FirstSlashIs(str, s0, s);
  }

  /** What the two mask variables say between rounds: untouched so far, or owner write and search are let through. */
  ghost predicate MasksKnown(umask: nat, entry: nat, cur: nat, org: nat) {
    || (cur == org == NO_MASK && umask == entry)
    || (org == entry && cur == umask == ClearOwnerWX(entry))
  }

  ghost predicate Cleared(masks: seq<nat>, entry: nat) {
    forall i :: 0 <= i < |masks| ==> masks[i] == ClearOwnerWX(entry)
  }

  /** Directories on the way were made with owner write and search let through, and a complete path with the mask. */
  ghost predicate MasksUsed(masks: seq<nat>, entry: nat, complete: bool) {
    && (masks != [] ==> Cleared(masks[..|masks| - 1], entry))
    && (masks != [] ==> masks[|masks| - 1] in {ClearOwnerWX(entry), entry})
    && (masks != [] && complete ==> masks[|masks| - 1] == entry)
  }

  lemma TailOf(a: seq<nat>, b: seq<nat>)
    ensures (a + b)[|a|..] == b
  {
  }

  lemma AtFirst(nodes: Nodes, str: seq<byte>)
    ensures PrefixesAreDirs(nodes, str, 0) && Grown(nodes, nodes)
  {
  }

  lemma NoMasksYet(entry: nat)
    ensures Cleared([], entry) && MasksUsed([], entry, true)
  {
  }

  lemma MasksAtEnd(before: seq<nat>, last: nat, entry: nat, complete: bool)
    requires Cleared(before, entry) && last == if complete then entry else ClearOwnerWX(entry)
    ensures MasksUsed(before + [last], entry, complete) && MasksUsed(before + [last], entry, false)
    ensures !complete ==> Cleared(before + [last], entry)
  {
    hide ClearOwnerWX;
    assert (before + [last])[..|before|] == before;
  }

  /** The mask for one round: u=wx allowed for a parent, the original mask for the last component. */
  method AdjustMask(fs: System, parent: bool, cur0: nat, org0: nat, ghost entry: nat) returns (cur: nat, org: nat)
    requires MasksKnown(fs.umask, entry, cur0, org0) && entry < NO_MASK
    modifies fs`umask
    ensures parent ==> MasksKnown(fs.umask, entry, cur, org) && fs.umask == ClearOwnerWX(entry)
    ensures !parent ==> fs.umask == entry && cur == org
  {
    cur, org := cur0, org0;
    if parent {
      if cur == NO_MASK {
        org := fs.Umask(0);
        cur := 0;
        var newMask := ClearOwnerWX(org);
        if newMask != cur {
          cur := newMask;
          var _ := fs.Umask(newMask);
        }
      }
    } else {
      if org != cur {
        cur := org;
        var _ := fs.Umask(org);
      }
    }
  }

  /** One `mkdir`, and the test whether going on makes sense. `done`: the target was there already. */
  method TryMkDir(fs: System, path: array<byte>, last: bool, recur: bool, ghost p: seq<byte>)
    returns (failed: bool, done: bool)
    requires HoldsAt(path[..], 0, p)
    modifies fs`nodes, fs`masks
    ensures fs.masks == old(fs.masks) + [fs.umask]
    ensures Grown(old(fs.nodes), fs.nodes)
    ensures !failed ==> p != [] && IsDirAt(fs.nodes, Components(p))
    ensures done ==> last && !failed
    ensures fs.reliable && recur ==> (failed <==> !MkDirPasses(old(fs.nodes), p))
    ensures fs.reliable && recur ==> fs.nodes == AfterMkDir(old(fs.nodes), p)
  {
    hide Components;
    HoldsIsCStr(path[..], 0, p);
    assert path[..][0..] == path[..];
    var name := CStr(path[..]);
    var e := fs.MkDir(name);
    failed, done := false, false;
    if e != Ok {
      var isDir := false;
      if e == EEXIST && recur {
        isDir := fs.StatIsDir(name);
      }
      if !isDir {
        return true, false;
      }
      done := last;
    }
  }

  lemma GrownTransitive(a: Nodes, b: Nodes, c: Nodes)
    requires Grown(a, b) && Grown(b, c)
    ensures Grown(a, c)
  {
  }

  lemma PrefixesGrow(before: Nodes, after: Nodes, path: seq<byte>, k: nat, n: nat)
    requires k <= n <= |path| && Grown(before, after) && PrefixesAreDirs(before, path, k)
    requires IsDirAt(after, Components(path[..n]))
    requires forall i :: k <= i < n && path[i] == SLASH ==> forall j :: i <= j < n ==> path[j] == SLASH
    ensures PrefixesAreDirs(after, path, n)
  {
    hide Components;
    forall i | 0 <= i < n && path[i] == SLASH
      ensures IsDirAt(after, Components(path[..i]))
    {
      if i >= k {
        SlashRun(path, i, n);
      }
    }
  }

  lemma LoneDot(nodes: Nodes, str: seq<byte>, whole: seq<byte>)
    requires HoldsAt(whole, 0, str) && |whole| >= 2 && whole[0] == DOT && whole[1] == NUL
    ensures str == [DOT] && Components(str) == [] && Grown(nodes, nodes)
    ensures PrefixesAreDirs(nodes, str, |str|)
    ensures Made(nodes, None) == MakeDirs(nodes, str, 0)
  {
  }

  /** The buffer with a NUL at index n holds the string cut there. */
  lemma CutHolds(whole: seq<byte>, now: seq<byte>, str: seq<byte>, n: nat)
    requires HoldsAt(whole, 0, str) && n <= |str|
    requires now == whole[n := NUL] || (n == |str| && now == whole)
    ensures HoldsAt(now, 0, str[..n])
    ensures whole[n] == NUL <==> n == |str|
  {
  }

  /** The path is cut behind the next run of slashes, and the character there is saved; NUL means the whole path. */
  method CutNext(path: array<byte>, s0: nat, recur: bool, ghost str: seq<byte>)
    returns (s: nat, c: byte, ghost n: nat)
    requires HoldsAt(path[..], 0, str) && s0 <= |str|
    modifies path
    ensures s <= |str| && n <= |str| && HoldsAt(path[..], 0, str[..n])
    ensures if recur then s == n == NextStop(str, s0) else s == s0 && n == |str|
    ensures c == NUL <==> n == |str|
    ensures c == NUL ==> path[..] == old(path[..])
    ensures c != NUL ==> s == n && path[..] == old(path[..])[n := NUL] && c == old(path[..])[n]
    ensures recur ==> forall i :: s0 <= i < n && str[i] == SLASH ==> forall j :: i <= j < n ==> str[j] == SLASH
  {
    hide NextStop;
    ghost var whole := path[..];
    s, c, n := s0, NUL, |str|;
    if recur {
      var found;
      s, found := Bypass(path, s, str);
      n := s;
      if found {
        c := path[s];
        path[s] := NUL;
      }
    }
    CutHolds(whole, path[..], str, n);
    assert c == NUL ==> path[..] == whole;
  }

  /** The mask for the round, and the round's `mkdir`. */
  method OneRound(fs: System, path: array<byte>, parent: bool, recur: bool, cur0: nat, org0: nat, ghost entry: nat,
                  ghost p: seq<byte>)
    returns (cur: nat, org: nat, failed: bool, done: bool)
    requires MasksKnown(fs.umask, entry, cur0, org0) && entry < NO_MASK && HoldsAt(path[..], 0, p)
    modifies fs
    ensures parent ==> MasksKnown(fs.umask, entry, cur, org)
    ensures !parent ==> cur == org
    ensures fs.umask == if parent then ClearOwnerWX(entry) else entry
    ensures fs.masks == old(fs.masks) + [fs.umask]
    ensures Grown(old(fs.nodes), fs.nodes)
    ensures !failed ==> p != [] && IsDirAt(fs.nodes, Components(p))
    ensures done ==> !parent && !failed
    ensures fs.reliable && recur ==> (failed <==> !MkDirPasses(old(fs.nodes), p))
    ensures fs.reliable && recur ==> fs.nodes == AfterMkDir(old(fs.nodes), p)
  {
    hide Components, ClearOwnerWX, Grown, MkDirPasses, AfterMkDir;
    cur, org := AdjustMask(fs, parent, cur0, org0, entry);
    failed, done := TryMkDir(fs, path, !parent, recur, p);
  }

  /**
   * `bb_make_directory`: cuts the path in place behind every run of slashes, makes that directory, and puts the
   * character back. The ghost result says where the path was left cut.
   */
  method MakeDirectory(fs: System, path: array<byte>, mode: int, recur: bool, ignoreChmodErr: bool,
                       ghost str: seq<byte>)
    returns (r: int, ghost cutAt: Option<nat>)
    requires HoldsAt(path[..], 0, str) && fs.umask < NO_MASK
    modifies fs, path
    ensures fs.umask == old(fs.umask)
    ensures old(fs.masks) <= fs.masks && MasksUsed(fs.masks[|old(fs.masks)|..], old(fs.umask), r == 0)
    ensures r == 0 || r == -1
    ensures r == 0 ==> path[..] == old(path[..]) && cutAt == None
    ensures r == 0 ==> str != [] && IsDirAt(fs.nodes, Components(str))
    ensures r == 0 && recur ==> PrefixesAreDirs(fs.nodes, str, |str|)
    ensures r != 0 ==> cutAt.Some? && CutAt(path[..], old(path[..]), str, cutAt.value)
    ensures Grown(old(fs.nodes), fs.nodes)
    ensures fs.reliable && recur ==> Made(fs.nodes, cutAt) == MakeDirs(old(fs.nodes), str, 0)
  {
    hide Components, NextStop, MkDirError, CStr, Cleared, MasksUsed, ClearOwnerWX, PrefixesAreDirs, Grown;
    NoMasksYet(fs.umask);
    AtFirst(fs.nodes, str);
    ghost var entry, before, whole := fs.umask, fs.nodes, path[..];
    ghost var masks, used := fs.masks, [];
    if path[0] == DOT && path[1] == NUL {
      LoneDot(fs.nodes, str, whole);
      assert fs.masks[|masks|..] == [];
      return 0, None;
    }
    var cur, org := NO_MASK, NO_MASK;
    var s := 0;
    while true
      invariant path[..] == whole && 0 <= s <= |str|
      invariant MasksKnown(fs.umask, entry, cur, org)
      invariant fs.masks == masks + used && Cleared(used, entry)
      invariant Grown(before, fs.nodes)
      invariant recur ==> PrefixesAreDirs(fs.nodes, str, s)
      invariant fs.reliable && recur ==> MakeDirs(before, str, 0) == MakeDirs(fs.nodes, str, s)
      decreases |str| - s
    {
      ghost var k, n, nodes := s, |str|, fs.nodes;
      var c, failed, done;
      s, c, n := CutNext(path, s, recur, str);
      cur, org, failed, done := OneRound(fs, path, c != NUL, recur, cur, org, entry, str[..n]);
      MasksAtEnd(used, fs.umask, entry, c == NUL);
      used := used + [fs.umask];
      GrownTransitive(before, nodes, fs.nodes);
      if failed {
        r, cutAt := -1, Some(n);
        break;
      }
      if recur {
        PrefixesGrow(nodes, fs.nodes, str, k, n);
      }
      if c == NUL {
        assert str[..n] == str;
        assert path[..] == whole;
        r, cutAt := 0, None;
        if !done {
          if mode != -1 {
            var ok := fs.ChMod(CStr(path[..]), mode);
            if !ok && !ignoreChmodErr {
              r, cutAt := -1, Some(|str|);
            }
          }
        }
        break;
      }
      path[s] := c;
      assert path[..] == whole;
    }
    if org != cur {
      var _ := fs.Umask(org);
    }
    assert fs.masks[|masks|..] == used by { TailOf(masks, used); }
  }
}

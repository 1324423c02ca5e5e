/** What unpacking files and directories leaves behind: every file's name holds the body of its last occurrence. */
module LastWriter {
  import opened Bytes
  import opened Header
  import Names
  import opened FileSystem
  import opened Extract

  function NodeAt(nodes: Nodes, p: Path): Option<Node> {
    if p in nodes then Some(nodes[p]) else None
  }

  // ---------------------------------------------------------------- mkdir -p

  /** The path and all its ancestors, made directories where nothing was. */
  function AddDirs(nodes: Nodes, p: Path): Nodes {
    if p == [] then nodes
    else
      var n := AddDirs(nodes, Parent(p));
      if p in n then n else n[p := Directory]
  }

  lemma {:induction false} AddDirsAt(nodes: Nodes, p: Path, q: Path)
    ensures NodeAt(AddDirs(nodes, p), q) ==
            if q in nodes then Some(nodes[q])
            else if q != [] && q <= p then Some(Directory)
            else None
  {
    if p != [] {
      AddDirsAt(nodes, Parent(p), q);
      assert q <= p <==> q == p || q <= Parent(p) by {
        if q <= p && q != p {
          assert |q| < |p| by { assert |q| == |p| ==> q == p; }
          assert Parent(p)[..|q|] == p[..|q|];
        }
        assert q <= Parent(p) ==> p[..|q|] == Parent(p)[..|q|];
      }
    }
  }

  /** No prefix of the path, itself included, is a file. */
  predicate Clear(nodes: Nodes, p: Path) {
    forall i :: 0 <= i <= |p| ==> !IsFileAt(nodes, p[..i])
  }

  lemma NoSlashInside(s: seq<byte>, f: nat)
    requires f <= |s| && forall i :: 0 <= i < f ==> s[i] != SLASH
    ensures FirstSlash(s[..f]) == f
  {
  }

  lemma EmptyHasNone()
    ensures Components([]) == []
  {
  }

  /** Behind the next stop there is at most one more component. */
  lemma StopAddsOne(path: seq<byte>, k: nat)
    requires k < |path| && (k == 0 || path[k - 1] == SLASH)
    ensures var n := NextStop(path, k);
            exists c :: Components(path[..n]) == Components(path[..k]) + One(c)
  {
    hide Components, One, FirstSlash;
    var f := FirstSlash(path[k..]);
    var n, seg := NextStop(path, k), path[k..k + f];
    ComponentsStep(path[k..n][..f], f) by { NoSlashInside(path[k..n], f); }
    assert path[k..n][..f] == seg;
    SlashRun(path[k..n], f, n - k);
    assert path[k..n][..n - k] == path[k..n];
    assert Components(path[k..n]) == One(seg);
    if k > 0 {
      ComponentsSplit(path[..n], k - 1);
      assert path[..n][..k - 1] == path[..k - 1] && path[..n][k..] == path[k..n];
      SlashRun(path, k - 1, k);
    } else {
      assert path[0..n] == path[..n] && path[..0] == [];
      EmptyHasNone();
    }
    assert Components(path[..n]) == Components(path[..k]) + One(seg);
  }

  lemma {:induction false} ClearPrefix(nodes: Nodes, p: Path, q: Path)
    requires Clear(nodes, p) && q <= p
    ensures !IsFileAt(nodes, q)
  {
    assert p[..|q|] == q;
  }

  /** The prefixes of a path have prefixes of its components. */
  lemma PrefixComponents(path: seq<byte>, n: nat)
    requires n <= |path| && (n == |path| || (n > 0 && path[n - 1] == SLASH))
    ensures Components(path[..n]) <= Components(path)
  {
    hide Components;
    if n < |path| {
      ComponentsSplit(path, n - 1);
      SlashRun(path, n - 1, n);
    } else {
      assert path[..n] == path;
    }
  }

  lemma MadeIsDir(nodes0: Nodes, p: Path)
    requires !IsFileAt(nodes0, p)
    ensures IsDirAt(AddDirs(nodes0, p), p)
  {
    AddDirsAt(nodes0, p, p);
  }

  lemma MkDirOnDirectory(nodes: Nodes, text: seq<byte>)
    requires text != [] && IsDirAt(nodes, Components(text))
    ensures MkDirPasses(nodes, text) && AfterMkDir(nodes, text) == nodes
  {
    hide Components, Blocked;
  }

  lemma MkDirInDirectory(nodes: Nodes, text: seq<byte>, p: Path, c: seq<byte>)
    requires text != [] && Components(text) == p + [c] && IsDirAt(nodes, p) && p + [c] !in nodes
    ensures MkDirPasses(nodes, text) && AfterMkDir(nodes, text) == nodes[p + [c] := Directory]
  {
    hide Components, Blocked;
  }

  lemma AddDirsStep(nodes: Nodes, p: Path, c: seq<byte>)
    ensures AddDirs(nodes, p + [c]) == var n := AddDirs(nodes, p); if p + [c] in n then n else n[p + [c] := Directory]
  {
  }

  /** One `mkdir` of the loop. */
  lemma OneMkDir(nodes0: Nodes, text: seq<byte>, p: Path, c: seq<byte>)
    requires text != [] && Components(text) == p + One(c)
    requires !IsFileAt(nodes0, Components(text)) && !IsFileAt(nodes0, p)
    ensures MkDirPasses(AddDirs(nodes0, p), text)
    ensures AfterMkDir(AddDirs(nodes0, p), text) == AddDirs(nodes0, Components(text))
  {
    hide Components, AddDirs, AfterMkDir, MkDirPasses;
    MadeIsDir(nodes0, p);
    if One(c) == [] {
      assert Components(text) == p;
      MkDirOnDirectory(AddDirs(nodes0, p), text);
    } else {
      AddDirsStep(nodes0, p, c);
      AddDirsAt(nodes0, p, p + [c]);
      if p + [c] in AddDirs(nodes0, p) {
        MkDirOnDirectory(AddDirs(nodes0, p), text);
      } else {
        MkDirInDirectory(AddDirs(nodes0, p), text, p, c);
      }
    }
  }

  lemma NextStopMoves(path: seq<byte>, k: nat)
    requires k < |path|
    ensures k < NextStop(path, k)
  {
    hide FirstSlash;
  }

  /** On a clear path the loop makes exactly the directories that are missing. */
  lemma {:induction false} MakeDirsAdds(nodes0: Nodes, path: seq<byte>, k: nat)
    requires k < |path| && (k == 0 || path[k - 1] == SLASH)
    requires Clear(nodes0, Components(path))
    ensures MakeDirs(AddDirs(nodes0, Components(path[..k])), path, k)
            == Made(AddDirs(nodes0, Components(path)), None)
    decreases |path| - k
  {
    hide Components, AddDirs, NextStop, MkDirPasses, AfterMkDir, Clear;
    var n, p := NextStop(path, k), Components(path[..k]);
    NextStopMoves(path, k);
    StopAddsOne(path, k);
    var c :| Components(path[..n]) == p + One(c);
    PrefixComponents(path, n);
    ClearPrefix(nodes0, Components(path), Components(path[..n]));
    ClearPrefix(nodes0, Components(path), p);
    OneMkDir(nodes0, path[..n], p, c);
    if n == |path| {
      assert path[..n] == path;
    } else {
      MakeDirsAdds(nodes0, path, n);
    }
  }

  // ---------------------------------------------------------------- one file

  lemma {:induction false} BaseNameIs(s: seq<byte>)
    ensures BaseName(s) == s[LastSlash(s) + 1..]
  {
    if s != [] && s[|s| - 1] != SLASH {
      var init := s[..|s| - 1];
      BaseNameIs(init);
      assert init[LastSlash(init) + 1..] + [s[|s| - 1]] == s[LastSlash(init) + 1..];
    }
  }

  /** The directory a name's leading part stands for. */
  function LeadingPath(name: seq<byte>): Path {
    if LastSlash(name) < 0 then [] else Components(name[..LastSlash(name)])
  }

  lemma LastComponent(base: seq<byte>)
    requires forall i :: 0 <= i < |base| ==> base[i] != SLASH
    ensures Components(base) == One(base)
  {
    hide Components, One, FirstSlash;
    assert base[..|base|] == base;
    NoSlashInside(base, |base|);
    ComponentsStep(base, |base|);
  }

  lemma AfterLastSlash(name: seq<byte>)
    ensures Components(name[LastSlash(name) + 1..]) == One(name[LastSlash(name) + 1..])
  {
    hide Components, One, LastSlash;
    var k := LastSlash(name) + 1;
    assert forall i :: 0 <= i < |name[k..]| ==> name[k..][i] == name[k + i];
    LastComponent(name[k..]);
  }

  lemma NothingInFront(p: Path)
    ensures [] + p == p
  {
  }

  /** The path of a name is that of its leading part and at most one component more. */
  lemma LeadingAndLast(name: seq<byte>)
    ensures Components(name) == LeadingPath(name) + One(name[LastSlash(name) + 1..])
  {
    hide Components, One, LastSlash;
    AfterLastSlash(name);
    if LastSlash(name) < 0 {
      assert name[0..] == name;
      NothingInFront(One(name));
    } else {
      ComponentsSplit(name, LastSlash(name));
    }
  }

  /** The name is that of a file in the directory its leading part names. */
  lemma NameSplit(name: seq<byte>)
    requires !DirectoryText(name)
    ensures Components(name) == LeadingPath(name) + [BaseName(name)]
  {
    hide Components, LastSlash, BaseName, LeadingPath;
    BaseNameIs(name);
    LeadingAndLast(name);
  }

  /** A relative name that can be a file's. */
  predicate IsFileName(name: seq<byte>) {
    name != [] && name[0] != SLASH && !DirectoryText(name)
  }

  /** A hard link to its own name. */
  predicate IsSelfLink(m: Member) {
    Format(m.mode) == 0x8000 && m.linkTarget == Some(m.name) && m.size == 0 && IsFileName(m.name)
  }

  /** A file, or a hard link to another name, which is unpacked as an empty file. */
  predicate IsFileMember(m: Member) {
    Format(m.mode) == 0x8000 && IsFileName(m.name) && !IsSelfLink(m)
  }

  /** Nothing in the way: no ancestor is a file, and the place itself is not a directory. */
  predicate Free(nodes: Nodes, p: Path) {
    p != [] && Clear(nodes, Parent(p)) && !IsDirAt(nodes, p)
  }

  lemma LeadingDirsAdds(nodes: Nodes, name: seq<byte>)
    requires name != [] && name[0] != SLASH && Clear(nodes, LeadingPath(name))
    ensures LeadingDirs(nodes, name) == (AddDirs(nodes, LeadingPath(name)), name)
  {
    hide Components, MakeDirs, Clear;
    var k := LastSlash(name);
    if k >= 0 {
      MakeDirsAdds(nodes, name[..k], 0);
      assert name[..k][..0] == [];
      EmptyHasNone();
      assert AddDirs(nodes, []) == nodes;
    }
  }

  lemma ParentIsDir(nodes: Nodes, p: Path)
    requires p != [] && Clear(nodes, Parent(p))
    ensures IsDirAt(AddDirs(nodes, Parent(p)), Parent(p))
  {
    hide AddDirs;
    assert Parent(p)[..|Parent(p)|] == Parent(p);
    MadeIsDir(nodes, Parent(p));
  }

  lemma NotBlocked(nodes: Nodes, p: Path)
    requires p != [] && Clear(nodes, Parent(p))
    ensures !Blocked(AddDirs(nodes, Parent(p)), p)
  {
    hide AddDirs;
    forall i | 0 <= i < |p| ensures !IsFileAt(AddDirs(nodes, Parent(p)), p[..i]) {
      assert Parent(p)[..i] == p[..i];
      AddDirsAt(nodes, Parent(p), p[..i]);
    }
  }

  lemma FormatsDiffer()
    ensures S_IFREG != S_IFDIR
  {
  }

  /** Unpacking one file makes its ancestors and puts the body in place, whatever was there before. */
  lemma OneFile(nodes: Nodes, d: Delivery)
    requires IsFileMember(d.m) && Free(nodes, Components(d.m.name))
    ensures ExtractOne(nodes, d).fate.Alive?
    ensures ExtractOne(nodes, d).nodes ==
            AddDirs(nodes, Parent(Components(d.m.name)))[Components(d.m.name) := File(d.body)]
  {
    hide Components, LeadingDirs, LeadingPath, AddDirs, BaseName, Clear, DirectoryText, Format;
    var name := d.m.name;
    var p := Components(name);
    var n := AddDirs(nodes, Parent(p));
    NameSplit(name);
    assert Parent(p) == LeadingPath(name);
    LeadingDirsAdds(nodes, name);
    AddDirsAt(nodes, Parent(p), p);
    ParentIsDir(nodes, p);
    NotBlocked(nodes, p);
    FormatsDiffer();
    assert !IsDirAt(n, p);
    if p in n {
      assert AfterUnlink(n, name) == n - {p};
      assert IsDirAt(n - {p}, Parent(p));
      assert (n - {p})[p := File(d.body)] == n[p := File(d.body)];
    }
  }

  /** Unpacking a hard link to its own name makes its ancestors and nothing else. */
  lemma OneSelfLink(nodes: Nodes, d: Delivery)
    requires IsSelfLink(d.m) && Clear(nodes, Parent(Components(d.m.name)))
    ensures ExtractOne(nodes, d) == Extraction(AddDirs(nodes, Parent(Components(d.m.name))), Alive)
  {
    hide Components, LeadingDirs, LeadingPath, AddDirs, BaseName, Clear, DirectoryText, Format;
    NameSplit(d.m.name);
    assert Parent(Components(d.m.name)) == LeadingPath(d.m.name);
    LeadingDirsAdds(nodes, d.m.name);
    FormatsDiffer();
  }

  lemma SameEverywhere(a: Nodes, b: Nodes)
    requires forall p :: NodeAt(a, p) == NodeAt(b, p)
    ensures a == b
  {
    forall p ensures p in a <==> p in b {
      assert NodeAt(a, p) == NodeAt(b, p);
    }
    forall p | p in a ensures a[p] == b[p] {
      assert NodeAt(a, p) == NodeAt(b, p);
    }
  }

  /**
   * A regular member of no size whose link target is its own name: whatever is in the file system stays as it is, the
   * file of that name included, and if the leading directories are there nothing is added either.
   */
  lemma SelfLinkKeepsEverything(nodes: Nodes, d: Delivery)
    requires Format(d.m.mode) == 0x8000 && d.m.size == 0 && d.m.linkTarget == Some(d.m.name)
    requires d.m.name != [] && d.m.name[0] != SLASH && !DirectoryText(d.m.name)
    requires Clear(nodes, Parent(Components(d.m.name)))
    ensures ExtractOne(nodes, d).fate.Alive?
    ensures forall p :: p in nodes ==> NodeAt(ExtractOne(nodes, d).nodes, p) == Some(nodes[p])
    ensures forall p :: p !in nodes && !(p <= Parent(Components(d.m.name))) ==> p !in ExtractOne(nodes, d).nodes
    ensures (forall p :: p != [] && p <= Parent(Components(d.m.name)) ==> p in nodes) ==>
              ExtractOne(nodes, d).nodes == nodes
  {
    hide Components, ExtractOne, AddDirs, Clear, DirectoryText, Format;
    OneSelfLink(nodes, d);
    var q := Parent(Components(d.m.name));
    forall p ensures NodeAt(AddDirs(nodes, q), p) == if p in nodes then Some(nodes[p])
                                                     else if p != [] && p <= q then Some(Directory) else None
    {
      AddDirsAt(nodes, q, p);
    }
    if forall p :: p != [] && p <= q ==> p in nodes {
      SameEverywhere(AddDirs(nodes, q), nodes);
    }
  }

  // ---------------------------------------------------------------- what cannot be unpacked

  /** Where a directory is, no file is put: that ends the extraction. */
  lemma DirectoryInPlaceIsFatal(nodes: Nodes, d: Delivery)
    requires Format(d.m.mode) != 0x4000 && IsFileName(d.m.name) && !IsSelfLink(d.m)
    requires Clear(nodes, Parent(Components(d.m.name))) && IsDirAt(nodes, Components(d.m.name))
    ensures ExtractOne(nodes, d) == Extraction(AddDirs(nodes, Parent(Components(d.m.name))), Dead(FsError))
  {
    hide Components, LeadingDirs, LeadingPath, AddDirs, BaseName, Clear, DirectoryText, Format;
    var p := Components(d.m.name);
    NameSplit(d.m.name);
    assert Parent(p) == LeadingPath(d.m.name);
    LeadingDirsAdds(nodes, d.m.name);
    AddDirsAt(nodes, Parent(p), p);
  }

  lemma ClearMore(nodes: Nodes, p: Path, c: seq<byte>)
    requires Clear(nodes, p) && !IsFileAt(nodes, p + One(c))
    ensures Clear(nodes, p + One(c))
  {
    var q := p + One(c);
    forall i | 0 <= i <= |q| ensures !IsFileAt(nodes, q[..i]) {
      if i <= |p| {
        assert q[..i] == p[..i];
      } else {
        assert q[..i] == q;
      }
    }
  }

  lemma FileStopsMkDir(nodes0: Nodes, text: seq<byte>, p: Path)
    requires text != [] && IsFileAt(nodes0, Components(text))
    ensures !MkDirPasses(AddDirs(nodes0, p), text)
  {
    hide Components, AddDirs, Blocked;
    AddDirsAt(nodes0, p, Components(text));
  }

  /** A file among the components stops `mkdir -p` there, and what was there before is still there. */
  lemma {:induction false} FileStopsMakeDirs(nodes0: Nodes, path: seq<byte>, k: nat)
    requires k < |path| && (k == 0 || path[k - 1] == SLASH)
    requires !Clear(nodes0, Components(path)) && Clear(nodes0, Components(path[..k]))
    ensures var made := MakeDirs(AddDirs(nodes0, Components(path[..k])), path, k);
            && made.cutAt.Some? && 0 < made.cutAt.value <= |path|
            && IsFileAt(nodes0, Components(path[..made.cutAt.value]))
            && (made.cutAt.value < |path| ==> path[made.cutAt.value - 1] == SLASH)
            && exists p :: made.nodes == AddDirs(nodes0, p)
    decreases |path| - k
  {
    hide Components, AddDirs, NextStop, MkDirPasses, AfterMkDir, Clear, IsFileAt;
    var n, p := NextStop(path, k), Components(path[..k]);
    NextStopMoves(path, k);
    StopAddsOne(path, k);
    var c :| Components(path[..n]) == p + One(c);
    if IsFileAt(nodes0, Components(path[..n])) {
      FileStopsMkDir(nodes0, path[..n], p);
    } else {
      ClearMore(nodes0, p, c);
      assert path[..|path|] == path;
      ClearPrefix(nodes0, p, p);
      OneMkDir(nodes0, path[..n], p, c);
      FileStopsMakeDirs(nodes0, path, n);
    }
  }

  lemma SlashIsDirectoryText(s: seq<byte>)
    requires EndsWith(s, SLASH)
    ensures DirectoryText(s)
  {
  }

  /** A text that stands for a file, as a directory, cannot be unlinked; nor can what would lie below a file. */
  lemma UnlinkFails(nodes0: Nodes, p: Path, text: seq<byte>)
    requires text != []
    requires || (IsFileAt(nodes0, Components(text)) && DirectoryText(text))
             || Blocked(nodes0, Components(text))
    ensures UnlinkError(AddDirs(nodes0, p), text) !in {Ok, ENOENT}
  {
    hide Components, AddDirs, DirectoryText;
    var q := Components(text);
    AddDirsAt(nodes0, p, q);
    if Blocked(nodes0, q) {
      var i :| 0 <= i < |q| && IsFileAt(nodes0, q[..i]);
      AddDirsAt(nodes0, p, q[..i]);
    }
  }

  lemma NotClearIsBlocked(nodes: Nodes, p: Path)
    requires p != [] && !Clear(nodes, Parent(p))
    ensures Blocked(nodes, p)
  {
    var i :| 0 <= i <= |Parent(p)| && IsFileAt(nodes, Parent(p)[..i]);
    assert Parent(p)[..i] == p[..i];
  }

  lemma EmptyIsClear(nodes: Nodes)
    ensures Clear(nodes, [])
  {
  }

  lemma NoDirsToAdd(nodes: Nodes)
    ensures AddDirs(nodes, []) == nodes
  {
  }

  /**
   * A file where a member needs a directory ends the extraction, unless the member is a directory; what was there
   * before is still there.
   */
  lemma FileInTheWayIsFatal(nodes: Nodes, d: Delivery)
    requires Format(d.m.mode) != 0x4000 && IsFileName(d.m.name)
    requires !Clear(nodes, Parent(Components(d.m.name)))
    requires d.m.size == 0 && d.m.linkTarget.Some? ==>
               d.m.linkTarget.value != d.m.name && !DirectoryText(d.m.linkTarget.value)
    ensures ExtractOne(nodes, d).fate == Dead(FsError)
    ensures forall p :: p in nodes ==> NodeAt(ExtractOne(nodes, d).nodes, p) == Some(nodes[p])
  {
    hide Components, AddDirs, BaseName, Clear, DirectoryText, Format, MakeDirs, UnlinkError, AfterUnlink, LastSlash;
    hide IsFileAt, Blocked;
    var name, k := d.m.name, LastSlash(d.m.name);
    var p := Components(name);
    NameSplit(name);
    assert Parent(p) == LeadingPath(name);
    assert k >= 0 by { EmptyIsClear(nodes); }
    var path := name[..k];
    assert path[..0] == [] && AddDirs(nodes, []) == nodes by { NoDirsToAdd(nodes); }
    EmptyHasNone();
    EmptyIsClear(nodes);
    FileStopsMakeDirs(nodes, path, 0);
    var made := MakeDirs(nodes, path, 0);
    var q :| made.nodes == AddDirs(nodes, q);
    var cut := made.cutAt.value;
    NotClearIsBlocked(nodes, p);
    if cut < k {
      assert name[..cut] == path[..cut];
      SlashIsDirectoryText(name[..cut]);
      UnlinkFails(nodes, q, name[..cut]);
    } else {
      UnlinkFails(nodes, q, name);
    }
    forall r | r in nodes ensures NodeAt(AddDirs(nodes, q), r) == Some(nodes[r]) {
      AddDirsAt(nodes, q, r);
    }
  }

  /** A member without a name changes nothing. */
  lemma NamelessChangesNothing(nodes: Nodes, d: Delivery)
    requires d.m.name == [] && Format(d.m.mode) in {0x8000, 0x4000}
    ensures ExtractOne(nodes, d) == Extraction(nodes, Alive)
  {
    hide Format;
    EmptyHasNone();
  }

  lemma FirstStop(path: seq<byte>)
    requires path == [102, SLASH, 103]
    ensures NextStop(path, 0) == 2
  {
    assert path[0..] == path;
    assert path[1..][0] == SLASH && FirstSlash(path) == 1;
    assert Names.SkipSlashes(path, 2) == 2;
  }

  lemma FileComponent(s: seq<byte>)
    requires s == [102, SLASH]
    ensures Components(s) == [[102]]
  {
    hide Components;
    assert s[..1] == [102] && s[2..] == [];
    ComponentsSplit(s, 1);
    LastComponent([102]);
    EmptyHasNone();
    assert [[102]] + [] == [[102]];
  }

  /** When the directories cannot be made the name stays cut: of "f/g/h", with a file "f", "f/" is left. */
  lemma NameStaysCut(content: seq<byte>)
    ensures LeadingDirs(map[[[102]] := File(content)], [102, SLASH, 103, SLASH, 104]).1 == [102, SLASH]
  {
    var name: seq<byte> := [102, SLASH, 103, SLASH, 104];
    var nodes := map[[[102]] := File(content)];
    assert LastSlash(name) == 3 by { assert name[..4] == [102, SLASH, 103, SLASH]; }
    var path := name[..3];
    assert path == [102, SLASH, 103];
    FirstStop(path);
    FileComponent(path[..2]);
    assert !MkDirPasses(nodes, path[..2]);
  }

  // ---------------------------------------------------------------- one directory

  /** A directory whose name is not absolute. */
  predicate IsDirMember(m: Member) {
    Format(m.mode) == S_IFDIR && m.name != [] && m.name[0] != SLASH
  }

  lemma ClearLeading(nodes: Nodes, name: seq<byte>)
    requires Clear(nodes, Components(name))
    ensures Clear(nodes, LeadingPath(name))
  {
    hide Components, LeadingPath, LastSlash;
    LeadingAndLast(name);
    var p, q := LeadingPath(name), Components(name);
    forall i | 0 <= i <= |p| ensures !IsFileAt(nodes, p[..i]) {
      assert p[..i] == q[..i];
    }
  }

  /** Unpacking a directory makes it and its ancestors, as far as they are missing. */
  lemma OneDirectory(nodes: Nodes, d: Delivery)
    requires IsDirMember(d.m) && Clear(nodes, Components(d.m.name))
    ensures ExtractOne(nodes, d) == Extraction(AddDirs(nodes, Components(d.m.name)), Alive)
  {
    hide Components, LeadingPath, LeadingDirs, AddDirs, AfterMkDir, MkDirPasses, Clear, Format, One, LastSlash;
    var name := d.m.name;
    ClearLeading(nodes, name);
    LeadingDirsAdds(nodes, name);
    LeadingAndLast(name);
    ClearPrefix(nodes, Components(name), Components(name));
    ClearPrefix(nodes, LeadingPath(name), LeadingPath(name));
    OneMkDir(nodes, name, LeadingPath(name), name[LastSlash(name) + 1..]);
    FormatsDiffer();
  }

  // ---------------------------------------------------------------- all members

  /** The path a member is unpacked to. */
  function PathOf(d: Delivery): Path {
    Components(d.m.name)
  }

  /** The directory a member needs: its own path or that of its parent. */
  function DirPart(d: Delivery): Path {
    if IsDirMember(d.m) then PathOf(d) else Parent(PathOf(d))
  }

  /** The body of the last file delivered to a path. */
  function LastBody(ds: seq<Delivery>, p: Path): Option<seq<byte>> {
    if ds == [] then None
    else
      var d := ds[|ds| - 1];
      if IsFileMember(d.m) && PathOf(d) == p then Some(d.body) else LastBody(ds[..|ds| - 1], p)
  }

  /** Some member needs a directory at the path. */
  predicate Wanted(ds: seq<Delivery>, p: Path) {
    p != [] && exists i :: 0 <= i < |ds| && p <= DirPart(ds[i])
  }

  /** What the file system should hold at a path in the end. */
  function Final(nodes: Nodes, ds: seq<Delivery>, p: Path): Option<Node> {
    if LastBody(ds, p).Some? then Some(File(LastBody(ds, p).value))
    else if p in nodes then Some(nodes[p])
    else if Wanted(ds, p) then Some(Directory)
    else None
  }

  /** A directory, a file or a hard link to itself with nothing in its way. */
  predicate Placeable(nodes: Nodes, d: Delivery) {
    && Clear(nodes, DirPart(d))
    && (IsFileMember(d.m) || IsDirMember(d.m) || IsSelfLink(d.m))
    && (IsFileMember(d.m) ==> PathOf(d) != [] && !IsDirAt(nodes, PathOf(d)))
  }

  /** Members with nothing in their way, and no file where another one needs a directory. */
  predicate Unpackable(nodes: Nodes, ds: seq<Delivery>) {
    && (forall i :: 0 <= i < |ds| ==> Placeable(nodes, ds[i]))
    && forall i, j :: 0 <= i < |ds| && 0 <= j < |ds| && IsFileMember(ds[i].m) ==> !(PathOf(ds[i]) <= DirPart(ds[j]))
  }

  lemma KindsDiffer(m: Member)
    ensures !(IsFileMember(m) && IsDirMember(m)) && !(IsSelfLink(m) && (IsFileMember(m) || IsDirMember(m)))
  {
    hide DirectoryText, Format;
    FormatsDiffer();
  }

  /** Unpacking one member with nothing in its way. */
  lemma OnePlaceable(nodes: Nodes, d: Delivery)
    requires Placeable(nodes, d)
    ensures ExtractOne(nodes, d).fate.Alive?
    ensures var n := AddDirs(nodes, DirPart(d));
            ExtractOne(nodes, d).nodes == if IsFileMember(d.m) then n[PathOf(d) := File(d.body)] else n
  {
    KindsDiffer(d.m);
    hide Components, ExtractOne, AddDirs, Clear, IsFileMember, IsDirMember, IsSelfLink;
    if IsFileMember(d.m) {
      OneFile(nodes, d);
    } else if IsDirMember(d.m) {
      OneDirectory(nodes, d);
    } else {
      OneSelfLink(nodes, d);
    }
  }

  lemma {:induction false} LastBodyFound(ds: seq<Delivery>, p: Path)
    ensures LastBody(ds, p).Some? <==> exists i :: 0 <= i < |ds| && IsFileMember(ds[i].m) && PathOf(ds[i]) == p
    ensures LastBody(ds, p).Some? ==>
              exists i :: 0 <= i < |ds| && IsFileMember(ds[i].m) && PathOf(ds[i]) == p
                          && ds[i].body == LastBody(ds, p).value
  {
    hide PathOf, IsFileMember;
    if ds != [] {
      var init, d := ds[..|ds| - 1], ds[|ds| - 1];
      LastBodyFound(init, p);
      assert forall i :: 0 <= i < |init| ==> ds[i] == init[i];
      if LastBody(init, p).Some? {
        var i :| 0 <= i < |init| && IsFileMember(init[i].m) && PathOf(init[i]) == p
                 && init[i].body == LastBody(init, p).value;
        assert ds[i] == init[i];
      }
      if i :| 0 <= i < |ds| && IsFileMember(ds[i].m) && PathOf(ds[i]) == p {
        assert i < |init| ==> init[i] == ds[i];
      }
    }
  }

  lemma StaysPlaceable(nodes: Nodes, init: seq<Delivery>, d: Delivery, now: Nodes)
    requires Unpackable(nodes, init + [d])
    requires forall p :: NodeAt(now, p) == Final(nodes, init, p)
    ensures Placeable(now, d)
  {
    hide PathOf, DirPart, IsFileMember, IsDirMember, IsSelfLink;
    var ds, p, q := init + [d], PathOf(d), DirPart(d);
    assert ds[|init|] == d;
    assert Placeable(nodes, ds[|init|]);
    assert forall j :: 0 <= j < |init| ==> ds[j] == init[j];
    forall i | 0 <= i <= |q| ensures !IsFileAt(now, q[..i]) {
      LastBodyFound(init, q[..i]);
      assert !IsFileAt(nodes, q[..i]);
      assert NodeAt(now, q[..i]) == Final(nodes, init, q[..i]);
      forall j | 0 <= j < |init| && IsFileMember(init[j].m) ensures PathOf(init[j]) != q[..i] {
        assert !(PathOf(ds[j]) <= DirPart(ds[|init|]));
      }
    }
    if IsFileMember(d.m) {
      assert NodeAt(now, p) == Final(nodes, init, p);
      forall j | 0 <= j < |init| ensures !(p <= DirPart(init[j])) {
        assert !(PathOf(ds[|init|]) <= DirPart(ds[j]));
      }
    }
  }

  lemma FinalStep(nodes: Nodes, init: seq<Delivery>, d: Delivery, q: Path)
    ensures Final(nodes, init + [d], q) ==
            if IsFileMember(d.m) && q == PathOf(d) then Some(File(d.body))
            else if Final(nodes, init, q).Some? then Final(nodes, init, q)
            else if q != [] && q <= DirPart(d) then Some(Directory)
            else None
  {
    hide PathOf, DirPart, IsFileMember;
    var ds := init + [d];
    assert ds[..|ds| - 1] == init && ds[|init|] == d;
    assert forall j :: 0 <= j < |init| ==> ds[j] == init[j];
    assert Wanted(ds, q) <==> Wanted(init, q) || (q != [] && q <= DirPart(d)) by {
      if Wanted(init, q) {
        var j :| 0 <= j < |init| && q <= DirPart(init[j]);
        assert q <= DirPart(ds[j]);
      }
      if q != [] && q <= DirPart(d) {
        assert q <= DirPart(ds[|init|]);
      }
    }
  }

  lemma NothingYet(nodes: Nodes, p: Path)
    ensures Final(nodes, [], p) == NodeAt(nodes, p)
  {
  }

  lemma InitUnpackable(nodes: Nodes, init: seq<Delivery>, d: Delivery)
    requires Unpackable(nodes, init + [d])
    ensures Unpackable(nodes, init)
  {
    hide PathOf, DirPart, IsFileMember, Placeable;
    assert forall i :: 0 <= i < |init| ==> (init + [d])[i] == init[i];
  }

  /**
   * Last writer wins: unpacking succeeds, every file's name holds the body of its last occurrence, the directories
   * that are members or ancestors of members exist, and nothing else has changed.
   */
  lemma {:induction false} LastWriterWins(nodes: Nodes, ds: seq<Delivery>)
    requires Unpackable(nodes, ds)
    ensures ExtractAll(nodes, ds).fate.Alive?
    ensures forall p :: NodeAt(ExtractAll(nodes, ds).nodes, p) == Final(nodes, ds, p)
  {
    hide PathOf, DirPart, AddDirs, ExtractOne, Final, IsFileMember, Placeable;
    if ds == [] {
      forall p ensures NodeAt(nodes, p) == Final(nodes, ds, p) {
        NothingYet(nodes, p);
      }
    } else {
      var init, d := ds[..|ds| - 1], ds[|ds| - 1];
      assert init + [d] == ds;
      InitUnpackable(nodes, init, d);
      LastWriterWins(nodes, init);
      var now := ExtractAll(nodes, init).nodes;
      StaysPlaceable(nodes, init, d, now);
      OnePlaceable(now, d);
      forall q ensures NodeAt(ExtractAll(nodes, ds).nodes, q) == Final(nodes, ds, q) {
        FinalStep(nodes, init, d, q);
        AddDirsAt(now, DirPart(d), q);
        assert NodeAt(now, q) == Final(nodes, init, q);
      }
    }
  }
}

/** A directory tree that is archived and extracted: where its entries go, and that they come back. */
module TreeTrip {
  import opened Bytes
  import opened Names
  import opened Header
  import HeaderBlock
  import opened Writer
  import opened Archive
  import opened FileSystem
  import Extract
  import opened LastWriter
  import opened RoundTrip
  import opened Walk
  import opened TarWriter

  // ---------------------------------------------------------------- names of children

  /** Appending a slash-free name to a path that ends in a slash adds no unsafe component. */
  lemma DotDotInChild(base: seq<byte>, name: seq<byte>, j: nat)
    requires NoSlash(name)
    ensures DotDotAt(base + name, j) <==> DotDotAt(base, j)
  {
    var q := base + name;
    if DotDotAt(q, j) {
      assert q[j + 2] == SLASH;
      assert j + 2 < |base|;
    }
  }

  /** Nor does the slash itself, unless the path ends in "..". */
  lemma DotDotInBase(path: seq<byte>, j: nat)
    requires !EndsInDotDot(path)
    ensures DotDotAt(Base(path), j) <==> DotDotAt(path, j)
  {
  }

  /** The text of a child's name once it is stripped. */
  function StrippedChild(path: seq<byte>, name: seq<byte>): seq<byte> {
    if Strip(path) == [] then name else Base(Strip(path)) + name
  }

  lemma NoRoom(s: seq<byte>, j: nat)
    ensures DotDotAt(s, j) ==> j <= |s|
  {
  }

  lemma SafeChild(s: seq<byte>, name: seq<byte>)
    requires Safe(s) && s != [] && !EndsInDotDot(s) && name != [] && NoSlash(name)
    ensures Safe(Base(s) + name)
  {
    hide DotDotAt, EndsInDotDot;
    var q := Base(s) + name;
    assert q[0] == s[0];
    forall j | 0 <= j <= |q| ensures !DotDotAt(q, j) {
      DotDotInChild(Base(s), name, j);
      DotDotInBase(s, j);
      NoRoom(s, j);
    }
  }

  lemma SafeName(name: seq<byte>)
    requires name != [] && NoSlash(name)
    ensures Safe(name)
  {
  }

  lemma StripPointFollowsSlash(s: seq<byte>)
    ensures StripPoint(s) == 0 || s[StripPoint(s) - 1] == SLASH
  {
  }

  lemma StripEnds(path: seq<byte>)
    requires !EndsInDotDot(path)
    ensures !EndsInDotDot(Strip(path))
    ensures Strip(path) != [] ==> (EndsWith(Strip(path), SLASH) <==> EndsWith(path, SLASH))
  {
    hide DotDotAt;
    StripPointFollowsSlash(path);
    hide StripPoint;
  }

  lemma StripIsTail(path: seq<byte>)
    ensures Strip(path) == path[StripPoint(path)..]
  {
  }

  /** What is left of q = Base(path) + name behind the cut. */
  lemma TailOfChild(path: seq<byte>, name: seq<byte>, p: nat)
    requires p == if Strip(path) == [] then |Base(path)| else StripPoint(path)
    ensures p <= |Base(path)| && (Base(path) + name)[p..] == StrippedChild(path, name)
  {
    hide StripPoint, Strip;
    StripIsTail(path);
    if Strip(path) != [] {
      assert EndsWith(Strip(path), SLASH) <==> EndsWith(path, SLASH);
      assert Base(path)[p..] == Base(Strip(path));
    }
  }

  lemma ChildCut(path: seq<byte>, name: seq<byte>, p: nat)
    requires !EndsInDotDot(path) && name != [] && NoSlash(name)
    requires p == if Strip(path) == [] then |Base(path)| else StripPoint(path)
    ensures IsCut(Base(path) + name, p)
  {
    hide StripPoint, DotDotAt, EndsInDotDot;
    var q := Base(path) + name;
    TailOfChild(path, name, p);
    StripMeetsSpecification(path);
    StripEnds(path);
    if Strip(path) == [] {
      SafeName(name);
    } else {
      SafeChild(Strip(path), name);
    }
    var e :| 0 <= e <= StripPoint(path) && (e == 0 || (e >= 3 && DotDotAt(path, e - 3)))
             && AllSlashes(path[e..StripPoint(path)]);
    if e >= 3 {
      DotDotInBase(path, e - 3);
      DotDotInChild(Base(path), name, e - 3);
    }
    assert AllSlashes(q[e..p]) by {
      StripIsTail(path);
      forall i | 0 <= i < p - e ensures q[e..p][i] == SLASH {
        assert e + i < StripPoint(path) ==> q[e..p][i] == path[e..StripPoint(path)][i];
      }
    }
  }

  /** Stripping a child's path leaves the stripped path of its directory and the child's name. */
  lemma StripChild(path: seq<byte>, name: seq<byte>)
    requires !EndsInDotDot(path) && name != [] && NoSlash(name)
    ensures Strip(Concat(path, name)) == StrippedChild(path, name)
  {
    ChildPath(path, name);
    var q := Base(path) + name;
    var p := if Strip(path) == [] then |Base(path)| else StripPoint(path);
    assert IsCut(q, p) by { ChildCut(path, name, p); }
    StripMeetsSpecification(q);
    TailOfChild(path, name, p);
  }

  lemma NameIsComponent(name: seq<byte>)
    requires name != [] && NoSlash(name) && name != [DOT]
    ensures Components(name) == [name]
  {
    hide Components;
    LastComponent(name);
  }

  lemma BaseComponents(s: seq<byte>, name: seq<byte>)
    requires name != [] && NoSlash(name) && name != [DOT]
    ensures Components(Base(s) + name) == Components(s) + [name]
  {
    hide Components, NoSlash;
    var q, k := Base(s) + name, |Base(s)| - 1;
    NameIsComponent(name);
    assert q[k] == SLASH && q[k + 1..] == name && q[..k] == Base(s)[..k];
    ComponentsSplit(q, k);
    assert Components(s) == Components(Base(s)[..k]) by {
      if EndsWith(s, SLASH) {
        ComponentsSplit(s, k);
        EmptyHasNone();
        assert s[k + 1..] == [];
      } else {
        assert Base(s)[..k] == s;
      }
    }
  }

  lemma {:induction false} BaseNameOfChild(base: seq<byte>, name: seq<byte>)
    requires NoSlash(name) && (base == [] || base[|base| - 1] == SLASH)
    ensures BaseName(base + name) == name
    decreases |name|
  {
    var q := base + name;
    if name != [] {
      var init := name[..|name| - 1];
      assert q[..|q| - 1] == base + init && q[|q| - 1] == name[|name| - 1];
      BaseNameOfChild(base, init);
      assert init + [name[|name| - 1]] == name;
    }
  }

  lemma ChildTail(base: seq<byte>, name: seq<byte>)
    requires name != [] && NoSlash(name) && name != [46] && name != [46, 46]
    requires (base == [] || base[|base| - 1] == SLASH)
    ensures !EndsWith(base + name, SLASH) && !EndsInDotDot(base + name)
  {
    var q := base + name;
    assert q[|q| - 1] == name[|name| - 1];
  }

  lemma BaseEnds(path: seq<byte>)
    ensures Base(path) != [] && Base(path)[|Base(path)| - 1] == SLASH
  {
  }

  lemma ChildText(base: seq<byte>, name: seq<byte>)
    requires name != [] && NoSlash(name) && name != [46] && name != [46, 46]
    requires (base == [] || base[|base| - 1] == SLASH)
    ensures !DirectoryText(base + name) && !EndsWith(base + name, SLASH)
  {
    hide BaseName, NoSlash;
    BaseNameOfChild(base, name);
    ChildTail(base, name);
  }

  /** A child's place is that of its directory and one component more, and its name is one that survives. */
  lemma ChildPlace(path: seq<byte>, name: seq<byte>)
    requires !EndsInDotDot(path) && name != [] && NoSlash(name) && name != [46] && name != [46, 46]
    ensures !EndsInDotDot(Concat(path, name))
    ensures var q := Strip(Concat(path, name));
            Components(q) == Components(Strip(path)) + [name] && !DirectoryText(q) && !EndsWith(q, SLASH)
  {
    hide Strip, Components, NoSlash, EndsInDotDot, DirectoryText, EndsWith, Concat, Base;
    StripChild(path, name);
    ChildPath(path, name);
    BaseEnds(path);
    ChildTail(Base(path), name);
    if Strip(path) == [] {
      EmptyHasNone();
      NameIsComponent(name);
      ChildText([], name);
      assert [] + name == name && [] + [name] == [name];
    } else {
      BaseComponents(Strip(path), name);
      BaseEnds(Strip(path));
      ChildText(Base(Strip(path)), name);
    }
  }

  // ---------------------------------------------------------------- entries by name

  /** The child with the name. */
  function ChildNamed(listing: seq<Child>, name: seq<byte>): (r: Option<nat>)
    ensures r.Some? ==> r.value < |listing| && listing[r.value].name == name
    ensures r.None? ==> forall i :: 0 <= i < |listing| ==> listing[i].name != name
  {
    if listing == [] then None
    else if listing[0].name == name then Some(0)
    else
      var r := ChildNamed(listing[1..], name);
      if r.Some? then Some(r.value + 1) else None
  }

  /** The entry at a relative path below a tree's root. */
  function Find(t: Tree, rel: Path): (r: Option<Tree>)
    ensures r.Some? ==> r.value.Entry?
    decreases |rel|
  {
    if t.Missing? then None
    else if rel == [] then Some(t)
    else if !IsDir(t.stat) || rel[0] == [46] || rel[0] == [46, 46] then None
    else
      match ChildNamed(t.listing, rel[0])
      case None => None
      case Some(k) => Find(t.listing[k].tree, rel[1..])
  }

  /** The text by which the walk calls the entry. */
  function Spell(path: seq<byte>, rel: Path): seq<byte>
    decreases |rel|
  {
    if rel == [] then path else Spell(Concat(path, rel[0]), rel[1..])
  }

  /** The visit an entry gets. */
  function VisitAt(path: seq<byte>, t: Tree, rel: Path): Visit
    requires Find(t, rel).Some?
  {
    VisitOf(Spell(path, rel), Find(t, rel).value)
  }

  /** Where an entry goes when it is unpacked. */
  function Place(v: Visit): Path {
    Components(Strip(v.fileName))
  }

  lemma ChildIsNamed(t: Tree, k: nat)
    requires t.Entry? && WellNamed(t) && k < |t.listing|
    ensures ChildNamed(t.listing, t.listing[k].name) == Some(k)
  {
    assert ChildNamed(t.listing, t.listing[k].name).Some?;
  }

  lemma {:induction false} ReachIsFind(path: seq<byte>, t: Tree, ks: seq<nat>) returns (rel: Path)
    requires WellNamed(t) && Reach(path, t, ks, Always).Some?
    ensures Find(t, rel).Some? && VisitAt(path, t, rel) == Reach(path, t, ks, Always).value
    decreases |ks|
  {
    hide Concat, IsDir;
    if ks == [] {
      return [];
    }
    var c := t.listing[ks[0]];
    ChildIsNamed(t, ks[0]);
    var rest := ReachIsFind(Concat(path, c.name), c.tree, ks[1..]);
    rel := [c.name] + rest;
    assert rel[1..] == rest;
  }

  /** Every visit is that of an entry of the tree. */
  lemma VisitedIsFound(path: seq<byte>, t: Tree, v: Visit) returns (rel: Path)
    requires WellNamed(t) && v in Preorder(path, t, Always)
    ensures Find(t, rel).Some? && v == VisitAt(path, t, rel)
  {
    hide Preorder, Reach, WellNamed;
    var ks := VisitedIsReached(path, t, v, Always);
    rel := ReachIsFind(path, t, ks);
  }

  /** Every entry of the tree is visited. */
  lemma {:induction false} FoundIsVisited(path: seq<byte>, t: Tree, rel: Path)
    requires Find(t, rel).Some?
    ensures VisitAt(path, t, rel) in Preorder(path, t, Always)
    decreases |rel|
  {
    hide Concat;
    if rel == [] {
      OwnVisit(path, t, Always);
    } else {
      var k := ChildNamed(t.listing, rel[0]).value;
      FoundIsVisited(Concat(path, rel[0]), t.listing[k].tree, rel[1..]);
      ChildIsIncluded(path, t, 0, k, Always);
    }
  }

  /** An entry goes to the place of the root, followed by its own path. */
  lemma {:induction false} PlaceOf(path: seq<byte>, t: Tree, rel: Path)
    requires WellNamed(t) && Find(t, rel).Some? && !EndsInDotDot(path)
    ensures var q := Strip(Spell(path, rel));
            && Components(q) == Components(Strip(path)) + rel
            && (rel != [] ==> !DirectoryText(q) && !EndsWith(q, SLASH))
    ensures !EndsInDotDot(Spell(path, rel))
    decreases |rel|
  {
    hide Strip, Components, DirectoryText, EndsInDotDot, EndsWith, Concat, NoSlash;
    if rel == [] {
      assert Components(Strip(path)) + [] == Components(Strip(path));
    } else {
      var k := ChildNamed(t.listing, rel[0]).value;
      var p := Concat(path, rel[0]);
      ChildPlace(path, rel[0]);
      PlaceOf(p, t.listing[k].tree, rel[1..]);
      assert [rel[0]] + rel[1..] == rel;
      assert rel[1..] == [] ==> Spell(p, rel[1..]) == p;
    }
  }

  /** What contains an entry is a directory. */
  lemma {:induction false} FoundInside(t: Tree, rel: Path, j: nat)
    requires Find(t, rel).Some? && j < |rel|
    ensures Find(t, rel[..j]).Some? && IsDir(Find(t, rel[..j]).value.stat)
    decreases |rel|
  {
    hide IsDir;
    if j > 0 {
      var k := ChildNamed(t.listing, rel[0]).value;
      FoundInside(t.listing[k].tree, rel[1..], j - 1);
      assert rel[..j][1..] == rel[1..][..j - 1];
    }
  }

  // ---------------------------------------------------------------- what is delivered

  predicate Ordinary(st: Stat) {
    IsReg(st) || IsDir(st)
  }

  /**
   * A tree that can be archived and put back: the path does not end in ".." (nor, for a file, in a slash or "."), no
   * file is shorter than its stat says, and no FIFO or device gets into the archive. Entries may well be dropped.
   */
  predicate Plantable(path: seq<byte>, t: Tree, job: Job) {
    && job.visits == Preorder(path, t, Always)
    && WellNamed(t) && !EndsInDotDot(path)
    && (t.Entry? && !IsDir(t.stat) ==> !DirectoryText(Strip(path)))
    && Sound(job)
    && forall i :: 0 <= i < |job.visits| && ArchivedAt(job, i) ==> Ordinary(job.visits[i].stat)
  }

  /** What visit i puts in its place: a directory, or a file with its body; a further name of a file has none. */
  function NodeFor(job: Job, i: nat): Node
    requires i < |job.visits|
  {
    var v := job.visits[i];
    if IsDir(v.stat) then Directory else File(BodyFor(v, FoundLink(job.Links(i), v)))
  }

  /** The delivery for visit i. */
  function DeliveryFor(job: Job, i: nat): Extract.Delivery
    requires i < |job.visits|
  {
    var v, link := job.visits[i], FoundLink(job.Links(i), job.visits[i]);
    Extract.Delivery(MemberFor(Strip(v.fileName), v.stat, link), BodyFor(v, link))
  }

  /** A visit has a name that survives, and that of a file is the name of a file. */
  lemma VisitFacts(path: seq<byte>, t: Tree, job: Job, i: nat) returns (rel: Path)
    requires Plantable(path, t, job) && i < |job.visits|
    ensures Find(t, rel).Some? && job.visits[i] == VisitAt(path, t, rel)
    ensures Place(job.visits[i]) == Components(Strip(path)) + rel
    ensures !EndsInDotDot(Strip(job.visits[i].fileName))
    ensures !IsDir(job.visits[i].stat) ==>
              !DirectoryText(Strip(job.visits[i].fileName)) && Place(job.visits[i]) != []
  {
    hide Preorder, Strip, Components, DirectoryText, EndsInDotDot, WellNamed, IsDir, Sound, ArchivedAt;
    var v := job.visits[i];
    rel := VisitedIsFound(path, t, v);
    PlaceOf(path, t, rel);
    StripEnds(v.fileName);
    if !IsDir(v.stat) {
      NameSplit(Strip(v.fileName));
    }
  }

  lemma NotDirectoryText(s: seq<byte>)
    requires !DirectoryText(s)
    ensures s != [] && !EndsWith(s, SLASH)
  {
  }

  lemma SameTail(p: Path, a: Path, b: Path)
    requires p + a == p + b
    ensures a == b
  {
    assert a == (p + a)[|p|..] && b == (p + b)[|p|..];
  }

  lemma NoRepeats(vs: seq<Visit>, i: nat, j: nat)
    requires WellOrdered(vs, Always) && i < |vs| && j < |vs| && vs[i] == vs[j]
    ensures i == j
  {
    hide Under;
  }

  /** Different visits go to different places. */
  lemma PlacesDiffer(path: seq<byte>, t: Tree, job: Job, i: nat, j: nat)
    requires Plantable(path, t, job) && i < |job.visits| && j < |job.visits|
    requires Place(job.visits[i]) == Place(job.visits[j])
    ensures i == j
  {
    hide Preorder, Place, VisitAt, Find, Components, Strip, DirectoryText, Sound, ArchivedAt;
    var a := VisitFacts(path, t, job, i);
    var b := VisitFacts(path, t, job, j);
    SameTail(Components(Strip(path)), a, b);
    WalkIsPreorder(path, t, Always);
    NoRepeats(job.visits, i, j);
  }

  lemma TrackedIsNoDirectory(job: Job, i: nat)
    requires i < |job.visits|
    ensures FoundLink(job.Links(i), job.visits[i]).Some? ==> !IsDir(job.visits[i].stat)
  {
    hide Strip, Lookup, Job.Links;
  }

  lemma OrdinaryIsKept(st: Stat, link: Option<seq<byte>>)
    requires Ordinary(st) && (link.Some? ==> !IsDir(st))
    ensures TypeKept(st, link)
  {
  }

  lemma PlantableIsPortable(path: seq<byte>, t: Tree, job: Job)
    requires Plantable(path, t, job)
    ensures AllPortable(job)
  {
    hide Preorder, Strip, Components, DirectoryText, EndsInDotDot, WellNamed, FoundLink, ArchivedAt, Sound, TypeKept;
    hide IsDir, Ordinary;
    forall i | 0 <= i < |job.visits| && ArchivedAt(job, i) ensures PortableAt(job, i) {
      var rel := VisitFacts(path, t, job, i);
      TrackedIsNoDirectory(job, i);
      OrdinaryIsKept(job.visits[i].stat, FoundLink(job.Links(i), job.visits[i]));
      if !IsDir(job.visits[i].stat) {
        NotDirectoryText(Strip(job.visits[i].fileName));
      }
    }
  }

  lemma ExpectedIsDelivery(job: Job, i: nat)
    requires i < |job.visits|
    ensures Expected(job, i) == if ArchivedAt(job, i) then [DeliveryFor(job, i)] else []
  {
    hide Strip, FoundLink, ArchivedAt, MemberFor, BodyFor;
  }

  /** Every delivery is that of an archived visit. */
  lemma {:induction false} DeliveredIsVisited(job: Job, n: nat, d: Extract.Delivery) returns (i: nat)
    requires n <= |job.visits| && d in ExpectedFrom(job, n)
    ensures i < |job.visits| && d == DeliveryFor(job, i) && ArchivedAt(job, i)
    decreases |job.visits| - n
  {
    hide Expected, DeliveryFor, ArchivedAt;
    ExpectedIsDelivery(job, n);
    if d in Expected(job, n) {
      return n;
    }
    i := DeliveredIsVisited(job, n + 1, d);
  }

  /** Every archived visit is delivered. */
  lemma {:induction false} VisitedIsDelivered(job: Job, n: nat, i: nat)
    requires n <= i < |job.visits| && ArchivedAt(job, i)
    ensures DeliveryFor(job, i) in ExpectedFrom(job, n)
    decreases i - n
  {
    hide Expected, DeliveryFor, ArchivedAt;
    if n < i {
      VisitedIsDelivered(job, n + 1, i);
    } else {
      ExpectedIsDelivery(job, n);
    }
  }

  /** A named entry that is no directory and has more than one link. */
  predicate Linkable(v: Visit) {
    Strip(v.fileName) != [] && Format(v.stat.mode) != 0x4000 && v.stat.nlink >= 2
  }

  /** A further name of a file: the file has been visited before, and had several links both times. */
  predicate OtherName(job: Job, i: nat)
    requires i < |job.visits|
  {
    Linkable(job.visits[i]) && exists j :: 0 <= j < i && SharesFile(job, i, j) && Linkable(job.visits[j])
  }

  /** Those are the visits that become links, each to the name of an earlier visit. */
  lemma LinkIsOtherName(job: Job, i: nat)
    requires i < |job.visits|
    ensures FoundLink(job.Links(i), job.visits[i]).Some? <==> OtherName(job, i)
    ensures FoundLink(job.Links(i), job.visits[i]).Some? ==>
              exists j :: 0 <= j < i
                          && FoundLink(job.Links(i), job.visits[i]) == Some(Strip(job.visits[j].fileName))
  {
    hide Strip, Lookup, Job.Links, Format;
    var st := job.visits[i].stat;
    TableIsFirstSeen(job, i, st.dev, st.ino);
    var r := job.FirstSeen(i, st.dev, st.ino);
    if r.Some? {
      assert SharesFile(job, i, r.value);
    } else {
      forall j | 0 <= j < i && SharesFile(job, i, j) ensures !Tracked(job.visits[j]) {
        assert job.SameFile(j, st.dev, st.ino);
      }
    }
  }

  lemma ArchivedHasName(job: Job, i: nat)
    requires i < |job.visits| && ArchivedAt(job, i)
    ensures 0 < |Strip(job.visits[i].fileName)| < 100
  {
    hide Strip, FoundLink;
  }

  lemma CutIsItself(s: seq<byte>, name: seq<byte>)
    requires HeaderBlock.Cut(s) == name && |name| < 100
    ensures s == name
  {
  }

  /** No entry is written as a link to itself. */
  lemma NotItsOwnLink(path: seq<byte>, t: Tree, job: Job, i: nat)
    requires Plantable(path, t, job) && i < |job.visits| && ArchivedAt(job, i)
    ensures var link := FoundLink(job.Links(i), job.visits[i]);
            link.Some? ==> HeaderBlock.Cut(link.value) != Strip(job.visits[i].fileName)
  {
    hide Plantable, Strip, Components, FoundLink, Job.Links, ArchivedAt, HeaderBlock.Cut, OtherName;
    LinkIsOtherName(job, i);
    ArchivedHasName(job, i);
    var link := FoundLink(job.Links(i), job.visits[i]);
    if link.Some? && HeaderBlock.Cut(link.value) == Strip(job.visits[i].fileName) {
      CutIsItself(link.value, Strip(job.visits[i].fileName));
      var j :| 0 <= j < i && link == Some(Strip(job.visits[j].fileName));
      PlacesDiffer(path, t, job, i, j);
    }
  }

  lemma MemberFormat(name: seq<byte>, st: Stat, link: Option<seq<byte>>)
    ensures Format(MemberFor(name, st, link).mode) == Format(st.mode)
  {
    var f, low := st.mode / 4096 % 16, st.mode % 4096;
    assert (f * 4096 + low) / 4096 == f;
  }

  lemma OrdinaryAt(path: seq<byte>, t: Tree, job: Job, i: nat)
    requires Plantable(path, t, job) && i < |job.visits| && ArchivedAt(job, i)
    ensures IsReg(job.visits[i].stat) <==> !IsDir(job.visits[i].stat)
  {
    hide Preorder, ArchivedAt, WellNamed, Sound, DirectoryText, EndsInDotDot;
    RegIsNotDir(job.visits[i].stat);
  }

  /** An archived visit is delivered as a file or a directory, to its place. */
  lemma DeliveryFacts(path: seq<byte>, t: Tree, job: Job, i: nat)
    requires Plantable(path, t, job) && i < |job.visits| && ArchivedAt(job, i)
    ensures var d := DeliveryFor(job, i);
            && PathOf(d) == Place(job.visits[i])
            && (IsFileMember(d.m) <==> !IsDir(job.visits[i].stat))
            && (IsDirMember(d.m) <==> IsDir(job.visits[i].stat))
  {
    hide Plantable, Strip, Components, FoundLink, Job.Links, DirectoryText, Format, HeaderBlock.Cut;
    hide VisitAt, Find, ArchivedAt, BodyFor;
    var v, link := job.visits[i], FoundLink(job.Links(i), job.visits[i]);
    var rel := VisitFacts(path, t, job, i);
    NotItsOwnLink(path, t, job, i);
    ArchivedHasName(job, i);
    OrdinaryAt(path, t, job, i);
    MemberFormat(Strip(v.fileName), v.stat, link);
    StripIdempotent(v.fileName);
    FormatsDiffer();
  }

  // ---------------------------------------------------------------- nothing in the way

  /**
   * No file is where an archived directory goes or on the way to an archived entry, and no directory where an archived
   * file goes.
   */
  ghost predicate Fits(nodes: Nodes, job: Job) {
    forall i :: 0 <= i < |job.visits| && ArchivedAt(job, i) ==>
                  var p, isDir := Place(job.visits[i]), IsDir(job.visits[i].stat);
                  && Clear(nodes, if isDir then p else Parent(p))
                  && (!isDir ==> !IsDirAt(nodes, p))
  }

  /** An empty file system has nothing in the way. */
  lemma EmptyFits(path: seq<byte>, t: Tree, job: Job)
    requires Plantable(path, t, job)
    ensures Fits(map[], job)
  {
    hide Plantable, Place, IsDir, ArchivedAt, Components, Strip, DirectoryText, EndsInDotDot, Find, VisitAt;
    forall i | 0 <= i < |job.visits| && ArchivedAt(job, i) && !IsDir(job.visits[i].stat)
      ensures Place(job.visits[i]) != []
    {
      var rel := VisitFacts(path, t, job, i);
    }
  }

  lemma VisitStat(path: seq<byte>, t: Tree, rel: Path)
    requires Find(t, rel).Some?
    ensures VisitAt(path, t, rel).stat == Find(t, rel).value.stat
  {
  }

  lemma PrefixOfTail(base: Path, a: Path, b: Path)
    requires base + a <= base + b
    ensures |a| <= |b| && a == b[..|a|]
  {
    var p, q := base + a, base + b;
    assert p == q[..|p|];
    assert a == p[|base|..] == q[..|p|][|base|..];
  }

  lemma ParentIsPrefix(p: Path, q: Path)
    ensures p <= Parent(q) ==> p <= q
  {
    if p <= Parent(q) {
      assert p == Parent(q)[..|p|] == q[..|p|];
    }
  }

  /** No archived file is where another entry needs a directory. */
  lemma FileIsNotAbove(path: seq<byte>, t: Tree, job: Job, i: nat, j: nat)
    requires Plantable(path, t, job) && i < |job.visits| && j < |job.visits| && ArchivedAt(job, j)
    requires !IsDir(job.visits[i].stat)
    ensures !(Place(job.visits[i]) <= DirPart(DeliveryFor(job, j)))
  {
    hide Plantable, Components, Strip, DirectoryText, EndsInDotDot, Find, VisitOf, ArchivedAt, DeliveryFor, Place;
    hide IsDir, PathOf, IsFileMember, IsDirMember;
    if Place(job.visits[i]) <= DirPart(DeliveryFor(job, j)) {
      var a := VisitFacts(path, t, job, i);
      var b := VisitFacts(path, t, job, j);
      DeliveryFacts(path, t, job, j);
      var p, q := Place(job.visits[i]), Place(job.visits[j]);
      assert p <= q by { ParentIsPrefix(p, q); }
      PrefixOfTail(Components(Strip(path)), a, b);
      VisitStat(path, t, a);
      if |a| < |b| {
        FoundInside(t, b, |a|);
      } else {
        assert a == b;
        PlacesDiffer(path, t, job, i, j);
      }
    }
  }

  lemma FileHasPlace(path: seq<byte>, t: Tree, job: Job, i: nat)
    requires Plantable(path, t, job) && i < |job.visits|
    ensures !IsDir(job.visits[i].stat) ==> Place(job.visits[i]) != []
  {
    hide Plantable, Place, IsDir, Find, VisitAt, DirectoryText, EndsInDotDot, Strip, Components;
    var rel := VisitFacts(path, t, job, i);
  }

  /** A tree that fits can be unpacked. */
  lemma TreeIsUnpackable(nodes: Nodes, path: seq<byte>, t: Tree, job: Job)
    requires Plantable(path, t, job) && Fits(nodes, job)
    ensures Unpackable(nodes, ExpectedFrom(job, 0))
  {
    hide Plantable, Place, DeliveryFor, PathOf, IsFileMember, IsDirMember, ExpectedFrom, ArchivedAt, Clear, IsDir;
    hide IsDirAt, Parent;
    var ds := ExpectedFrom(job, 0);
    forall n | 0 <= n < |ds| ensures Placeable(nodes, ds[n]) {
      assert ds[n] in ds;
      var i := DeliveredIsVisited(job, 0, ds[n]);
      DeliveryFacts(path, t, job, i);
      FileHasPlace(path, t, job, i);
    }
    forall m, n | 0 <= m < |ds| && 0 <= n < |ds| && IsFileMember(ds[m].m)
      ensures !(PathOf(ds[m]) <= DirPart(ds[n]))
    {
      assert ds[m] in ds && ds[n] in ds;
      var i := DeliveredIsVisited(job, 0, ds[m]);
      var j := DeliveredIsVisited(job, 0, ds[n]);
      DeliveryFacts(path, t, job, i);
      FileIsNotAbove(path, t, job, i, j);
    }
  }

  // ---------------------------------------------------------------- what is left in the end

  /** An archived entry goes to the path. */
  predicate Occupied(job: Job, q: Path) {
    exists i :: 0 <= i < |job.visits| && ArchivedAt(job, i) && Place(job.visits[i]) == q
  }

  predicate IsBelow(q: Path, p: Path) {
    |q| < |p| && q <= p
  }

  /** An archived entry goes somewhere below the path. */
  predicate Leads(job: Job, q: Path) {
    q != [] && exists i :: 0 <= i < |job.visits| && ArchivedAt(job, i) && IsBelow(q, Place(job.visits[i]))
  }

  /** What the file system should hold at a path where no archived entry goes. */
  function Around(before: Nodes, job: Job, q: Path): Option<Node> {
    if q in before then Some(before[q]) else if Leads(job, q) then Some(Directory) else None
  }

  /**
   * The archived part of the tree has been put into the file system: every archived visit's place holds what the visit
   * puts there, what leads to it is there, and everything else is as it was.
   */
  ghost predicate Replanted(before: Nodes, after: Nodes, job: Job) {
    && (forall i :: 0 <= i < |job.visits| && ArchivedAt(job, i) && Place(job.visits[i]) != [] ==>
          NodeAt(after, Place(job.visits[i])) == Some(NodeFor(job, i)))
    && forall q :: !Occupied(job, q) ==> NodeAt(after, q) == Around(before, job, q)
  }

  /** The delivery to a visit's place is that visit's. */
  lemma OnlyDelivery(path: seq<byte>, t: Tree, job: Job, i: nat, d: Extract.Delivery)
    requires Plantable(path, t, job) && i < |job.visits| && d in ExpectedFrom(job, 0)
    requires PathOf(d) == Place(job.visits[i])
    ensures d == DeliveryFor(job, i)
  {
    hide Plantable, DeliveryFor, PathOf, Place, IsFileMember, IsDirMember, IsDir, ExpectedFrom, ArchivedAt;
    var j := DeliveredIsVisited(job, 0, d);
    DeliveryFacts(path, t, job, j);
    PlacesDiffer(path, t, job, i, j);
  }

  lemma DeliveredNode(job: Job, i: nat)
    requires i < |job.visits|
    ensures NodeFor(job, i) == if IsDir(job.visits[i].stat) then Directory else File(DeliveryFor(job, i).body)
  {
    hide BodyFor, FoundLink, IsDir, MemberFor;
  }

  lemma DirectoryFits(nodes: Nodes, job: Job, i: nat)
    requires Fits(nodes, job) && i < |job.visits| && ArchivedAt(job, i) && IsDir(job.visits[i].stat)
    ensures !IsFileAt(nodes, Place(job.visits[i]))
  {
    hide Place, ArchivedAt, IsDir;
    var p := Place(job.visits[i]);
    assert Clear(nodes, p) && p[..|p|] == p;
  }

  /** Every archived visit's place ends up with what the visit puts there. */
  lemma VisitComesBack(nodes: Nodes, path: seq<byte>, t: Tree, job: Job, i: nat)
    requires Plantable(path, t, job) && Fits(nodes, job)
    requires i < |job.visits| && ArchivedAt(job, i) && Place(job.visits[i]) != []
    ensures Final(nodes, ExpectedFrom(job, 0), Place(job.visits[i])) == Some(NodeFor(job, i))
  {
    hide Plantable, DeliveryFor, PathOf, IsFileMember, IsDirMember, IsDir, ExpectedFrom, LastBody, Fits, Place, NodeFor;
    hide ArchivedAt;
    var ds, q, d := ExpectedFrom(job, 0), Place(job.visits[i]), DeliveryFor(job, i);
    VisitedIsDelivered(job, 0, i);
    DeliveryFacts(path, t, job, i);
    LastBodyFound(ds, q);
    DeliveredNode(job, i);
    if IsDir(job.visits[i].stat) {
      if LastBody(ds, q).Some? {
        var n :| 0 <= n < |ds| && IsFileMember(ds[n].m) && PathOf(ds[n]) == q;
        OnlyDelivery(path, t, job, i, ds[n]);
        assert false;
      }
      DirectoryFits(nodes, job, i);
      var n :| 0 <= n < |ds| && ds[n] == d;
      assert q <= DirPart(ds[n]);
    } else {
      var n :| 0 <= n < |ds| && ds[n] == d;
      assert LastBody(ds, q).Some?;
      var m :| 0 <= m < |ds| && IsFileMember(ds[m].m) && PathOf(ds[m]) == q && ds[m].body == LastBody(ds, q).value;
      OnlyDelivery(path, t, job, i, ds[m]);
    }
  }

  lemma NeededIsBelow(p: Path, q: Path, isDir: bool)
    requires q != p && q != []
    ensures q <= (if isDir then p else Parent(p)) <==> IsBelow(q, p)
  {
    ParentIsPrefix(q, p);
    if IsBelow(q, p) {
      assert Parent(p)[..|q|] == p[..|q|] == q;
    }
  }

  /** Elsewhere only what leads to archived entries is made. */
  lemma RestStays(nodes: Nodes, path: seq<byte>, t: Tree, job: Job, q: Path)
    requires Plantable(path, t, job) && !Occupied(job, q)
    ensures Final(nodes, ExpectedFrom(job, 0), q) == Around(nodes, job, q)
  {
    hide Plantable, DeliveryFor, PathOf, IsFileMember, IsDirMember, IsDir, ExpectedFrom, LastBody, ArchivedAt, Place;
    hide Parent, IsBelow;
    var ds := ExpectedFrom(job, 0);
    LastBodyFound(ds, q);
    forall n | 0 <= n < |ds|
      ensures PathOf(ds[n]) != q && (q != [] && q <= DirPart(ds[n]) ==> Leads(job, q))
    {
      assert ds[n] in ds;
      var i := DeliveredIsVisited(job, 0, ds[n]);
      DeliveryFacts(path, t, job, i);
      if q != [] {
        NeededIsBelow(Place(job.visits[i]), q, IsDir(job.visits[i].stat));
      }
    }
    if Leads(job, q) {
      var i :| 0 <= i < |job.visits| && ArchivedAt(job, i) && IsBelow(q, Place(job.visits[i]));
      VisitedIsDelivered(job, 0, i);
      DeliveryFacts(path, t, job, i);
      NeededIsBelow(Place(job.visits[i]), q, IsDir(job.visits[i].stat));
      var n :| 0 <= n < |ds| && ds[n] == DeliveryFor(job, i);
      assert q <= DirPart(ds[n]);
    }
  }

  /** What the deliveries of a tree leave in a file system where it fits is its archived part. */
  lemma TreeIsReplanted(nodes: Nodes, after: Nodes, path: seq<byte>, t: Tree, job: Job)
    requires Plantable(path, t, job) && Fits(nodes, job)
    requires forall p :: NodeAt(after, p) == Final(nodes, ExpectedFrom(job, 0), p)
    ensures Replanted(nodes, after, job)
  {
    hide Plantable, ExpectedFrom, NodeFor, Place, Occupied, Around, Final, Fits, ArchivedAt;
    forall i | 0 <= i < |job.visits| && ArchivedAt(job, i) && Place(job.visits[i]) != []
      ensures NodeAt(after, Place(job.visits[i])) == Some(NodeFor(job, i))
    {
      VisitComesBack(nodes, path, t, job, i);
    }
    forall q | !Occupied(job, q) ensures NodeAt(after, q) == Around(nodes, job, q) {
      RestStays(nodes, path, t, job, q);
    }
  }

  /** Nothing lies below a file. */
  lemma FileLeadsNowhere(path: seq<byte>, t: Tree, job: Job, i: nat)
    requires Plantable(path, t, job) && i < |job.visits| && !IsDir(job.visits[i].stat)
    ensures !Leads(job, Place(job.visits[i]))
  {
    hide Plantable, Components, Strip, DirectoryText, EndsInDotDot, Find, VisitOf, ArchivedAt, Place, IsDir;
    if Leads(job, Place(job.visits[i])) {
      var j :| 0 <= j < |job.visits| && ArchivedAt(job, j) && IsBelow(Place(job.visits[i]), Place(job.visits[j]));
      var a := VisitFacts(path, t, job, i);
      var b := VisitFacts(path, t, job, j);
      PrefixOfTail(Components(Strip(path)), a, b);
      VisitStat(path, t, a);
      FoundInside(t, b, |a|);
    }
  }

  /**
   * An entry that was dropped is not there, unless it was before, or is a directory on the way to another entry. At
   * the place of a file nothing has changed.
   */
  lemma DroppedIsAbsent(before: Nodes, after: Nodes, path: seq<byte>, t: Tree, job: Job, i: nat)
    requires Plantable(path, t, job) && Replanted(before, after, job)
    requires i < |job.visits| && !ArchivedAt(job, i)
    ensures NodeAt(after, Place(job.visits[i])) == Around(before, job, Place(job.visits[i]))
    ensures !IsDir(job.visits[i].stat) ==> NodeAt(after, Place(job.visits[i])) == NodeAt(before, Place(job.visits[i]))
  {
    hide Plantable, Place, ArchivedAt, NodeFor, IsDir, Leads;
    if !IsDir(job.visits[i].stat) {
      FileLeadsNowhere(path, t, job, i);
    }
    if Occupied(job, Place(job.visits[i])) {
      var j :| 0 <= j < |job.visits| && ArchivedAt(job, j) && Place(job.visits[j]) == Place(job.visits[i]);
      PlacesDiffer(path, t, job, i, j);
    }
  }

  /** What an entry of the tree is in a file system. */
  function NodeOf(u: Tree): Node
    requires u.Entry?
  {
    if IsDir(u.stat) then Directory
    else if u.stat.size <= |u.content| then File(u.content[..u.stat.size])
    else File(u.content)
  }

  /** Every entry of the tree is in the file system, with its own content. */
  ghost predicate SameTree(after: Nodes, base: Path, t: Tree) {
    forall rel :: Find(t, rel).Some? && base + rel != [] ==>
                    NodeAt(after, base + rel) == Some(NodeOf(Find(t, rel).value))
  }

  /** Visit i's entry comes back: archived and no further name of a file with content, or made on the way to another. */
  predicate ComesBack(job: Job, i: nat)
    requires i < |job.visits|
  {
    var v := job.visits[i];
    if ArchivedAt(job, i) then OtherName(job, i) ==> v.stat.size == 0 || v.content == []
    else IsDir(v.stat) && Leads(job, Place(v))
  }

  /** What the file system holds at visit i's place is the entry itself. */
  predicate IsBack(after: Nodes, job: Job, i: nat)
    requires i < |job.visits|
  {
    var v := job.visits[i];
    NodeAt(after, Place(v)) == Some(NodeOf(Tree.Entry(v.stat, v.readable, v.content, v.failing, [])))
  }

  lemma ArchivedIsComplete(job: Job, i: nat)
    requires i < |job.visits| && Sound(job) && ArchivedAt(job, i)
    requires FoundLink(job.Links(i), job.visits[i]).None? && IsReg(job.visits[i].stat)
    ensures job.visits[i].stat.size <= |job.visits[i].content|
  {
    hide Strip, FoundLink, Job.Links;
    assert !job.At(i).Truncated?;
    ArchivedIsEmitted(job, i);
  }

  lemma ArchivedNode(path: seq<byte>, t: Tree, job: Job, i: nat)
    requires Plantable(path, t, job) && i < |job.visits| && ArchivedAt(job, i)
    ensures var v := job.visits[i];
            NodeFor(job, i) == NodeOf(Tree.Entry(v.stat, v.readable, v.content, v.failing, []))
            <==> (OtherName(job, i) ==> v.stat.size == 0 || v.content == [])
  {
    hide Preorder, FoundLink, Job.Links, ArchivedAt, OtherName, Format, WellNamed, Sound, DirectoryText, EndsInDotDot;
    LinkIsOtherName(job, i);
    TrackedIsNoDirectory(job, i);
    OrdinaryAt(path, t, job, i);
    var v := job.visits[i];
    if FoundLink(job.Links(i), v).None? && IsReg(v.stat) {
      ArchivedIsComplete(job, i);
    }
    assert v.stat.size == 0 ==> v.content[..0] == [];
  }

  lemma BackExactly(before: Nodes, after: Nodes, path: seq<byte>, t: Tree, job: Job, i: nat)
    requires Plantable(path, t, job) && Replanted(before, after, job)
    requires i < |job.visits| && Place(job.visits[i]) != []
    requires !ArchivedAt(job, i) ==> Place(job.visits[i]) !in before
    ensures IsBack(after, job, i) <==> ComesBack(job, i)
  {
    hide Plantable, Place, ArchivedAt, NodeFor, Leads, OtherName, Occupied;
    if ArchivedAt(job, i) {
      ArchivedNode(path, t, job, i);
    } else {
      DroppedIsAbsent(before, after, path, t, job, i);
    }
  }

  lemma BackIsOwn(path: seq<byte>, t: Tree, rel: Path, after: Nodes, job: Job, i: nat)
    requires Find(t, rel).Some? && i < |job.visits| && job.visits[i] == VisitAt(path, t, rel)
    ensures IsBack(after, job, i)
            <==> NodeAt(after, Place(job.visits[i])) == Some(NodeOf(Find(t, rel).value))
  {
    hide Find, Place, Spell;
  }

  lemma PlaceAt(path: seq<byte>, t: Tree, job: Job, rel: Path)
    requires Plantable(path, t, job) && Find(t, rel).Some?
    ensures Place(VisitAt(path, t, rel)) == Components(Strip(path)) + rel
  {
    hide Preorder, Strip, Components, WellNamed, Find, EndsInDotDot, DirectoryText, Sound, ArchivedAt;
    PlaceOf(path, t, rel);
  }

  /**
   * Where nothing of what was dropped is there already, the tree comes back as it was exactly if every entry comes
   * back: it was archived and is no further name of a file with content, or it is a directory on the way to another.
   */
  lemma TreeComesBackExactly(before: Nodes, after: Nodes, path: seq<byte>, t: Tree, job: Job)
    requires Plantable(path, t, job) && Replanted(before, after, job)
    requires forall i :: 0 <= i < |job.visits| && !ArchivedAt(job, i) && Place(job.visits[i]) != [] ==>
                           Place(job.visits[i]) !in before
    ensures SameTree(after, Components(Strip(path)), t)
            <==> forall i :: 0 <= i < |job.visits| && Place(job.visits[i]) != [] ==> ComesBack(job, i)
  {
    hide Preorder, WellNamed, EndsInDotDot, DirectoryText, Sound, ArchivedAt, Strip, Components, Place, Find, VisitAt;
    hide NodeOf, ComesBack, Replanted, IsBack;
    var base := Components(Strip(path));
    forall i | 0 <= i < |job.visits| && Place(job.visits[i]) != []
      ensures IsBack(after, job, i) <==> ComesBack(job, i)
    {
      BackExactly(before, after, path, t, job, i);
    }
    if SameTree(after, base, t) {
      forall i | 0 <= i < |job.visits| && Place(job.visits[i]) != [] ensures IsBack(after, job, i) {
        var rel := VisitFacts(path, t, job, i);
        BackIsOwn(path, t, rel, after, job, i);
      }
    } else {
      var rel :| Find(t, rel).Some? && base + rel != []
                 && NodeAt(after, base + rel) != Some(NodeOf(Find(t, rel).value));
      FoundIsVisited(path, t, rel);
      PlaceAt(path, t, job, rel);
      var i :| 0 <= i < |job.visits| && job.visits[i] == VisitAt(path, t, rel);
      BackIsOwn(path, t, rel, after, job, i);
      assert !ComesBack(job, i);
    }
  }

  /** A file of one byte that has two names. */
  function Twin(): Tree {
    Tree.Entry(Stat(1, 1, S_IFREG, 2, 0, 0, 1, 0), true, [97], false, [])
  }

  /** The directory "d" in which those names are "a" and "b". */
  function TwinTree(): Tree {
    Tree.Entry(PlainStat(S_IFDIR), true, [], false, [Child([97], Twin()), Child([98], Twin())])
  }

  lemma OneLetterChild(c: byte)
    requires c != SLASH && c != DOT
    ensures Concat([100], [c]) == [100, SLASH, c] && [c] != [46] && [c] != [46, 46]
  {
    assert SkipSlashes([c], 0) == 0;
  }

  lemma OpenedDirectory(path: seq<byte>, t: Tree)
    requires t.Entry? && IsDir(t.stat)
    ensures Preorder(path, t, Always) == [VisitOf(path, t)] + Children(path, t, 0, Always)
  {
  }

  lemma TwinVisits()
    ensures Preorder([100], TwinTree(), Always)
            == [VisitOf([100], TwinTree()), VisitOf([100, SLASH, 97], Twin()), VisitOf([100, SLASH, 98], Twin())]
  {
    hide VisitOf, Preorder, Children, Concat;
    var t := TwinTree();
    OneLetterChild(97);
    OneLetterChild(98);
    ChildrenStep([100], t, 0, Always);
    ChildrenStep([100], t, 1, Always);
    NoMoreChildren([100], t, Always);
    OwnVisit([100, SLASH, 97], Twin(), Always);
    OwnVisit([100, SLASH, 98], Twin(), Always);
    OpenedDirectory([100], t);
    hide Twin, TwinTree;
    var a, b := VisitOf([100, SLASH, 97], Twin()), VisitOf([100, SLASH, 98], Twin());
    assert [a] + ([b] + []) == [a, b];
  }

  /** A visit of a small file or directory under a safe name is never cut short. */
  lemma NeverTruncated(job: Job, i: nat)
    requires i < |job.visits| && Safe(job.visits[i].fileName)
    requires job.visits[i].stat.size <= |job.visits[i].content|
    ensures !job.At(i).Truncated? && Strip(job.visits[i].fileName) == job.visits[i].fileName
  {
    hide Lookup, Job.Links, StoredTime;
    SafeIsFixed(job.visits[i].fileName);
  }

  lemma TwinSound(job: Job)
    requires job == JobFor([100], TwinTree(), 0, 0)
    ensures |job.visits| == 3 && Sound(job)
    ensures forall i :: 0 <= i < 3 ==> Ordinary(job.visits[i].stat)
    ensures Strip(job.visits[1].fileName) == [100, SLASH, 97] && Strip(job.visits[2].fileName) == [100, SLASH, 98]
  {
    hide Preorder, Strip, Job.At;
    TwinVisits();
    forall i | 0 <= i < 3
      ensures !job.At(i).Truncated? && Strip(job.visits[i].fileName) == job.visits[i].fileName
    {
      NeverTruncated(job, i);
    }
  }

  lemma TwinShape()
    ensures WellNamed(TwinTree()) && !EndsInDotDot([100]) && IsDir(TwinTree().stat) && TwinTree().Entry?
  {
  }

  lemma TwinIsPlantable()
    ensures Plantable([100], TwinTree(), JobFor([100], TwinTree(), 0, 0))
  {
    hide Preorder, WellNamed, EndsInDotDot, IsDir, DirectoryText, Strip, TwinTree, Sound, Ordinary, ArchivedAt;
    TwinShape();
    TwinSound(JobFor([100], TwinTree(), 0, 0));
  }

  lemma TwinIsOtherName(job: Job)
    requires job == JobFor([100], TwinTree(), 0, 0)
    ensures |job.visits| == 3 && OtherName(job, 2) && job.visits[2].stat.size == 1 && job.visits[2].content != []
    ensures ArchivedAt(job, 2)
  {
    hide Preorder, Strip, Lookup, Job.Links, Sound;
    TwinVisits();
    TwinSound(job);
    assert SharesFile(job, 2, 1);
  }

  lemma SecondDoesNotComeBack(job: Job)
    requires job == JobFor([100], TwinTree(), 0, 0)
    ensures |job.visits| == 3 && !ComesBack(job, 2)
  {
    hide OtherName, ArchivedAt, Preorder;
    TwinIsOtherName(job);
  }

  lemma TwinIsFile(job: Job)
    requires job == JobFor([100], TwinTree(), 0, 0)
    ensures |job.visits| == 3 && !IsDir(job.visits[2].stat)
  {
    hide Preorder;
    TwinVisits();
  }

  /** Of two names of a file that is not empty the second comes back empty. */
  lemma SecondNameIsEmptied(after: Nodes)
    ensures var job := JobFor([100], TwinTree(), 0, 0);
            && Plantable([100], TwinTree(), job)
            && (Replanted(map[], after, job) ==> !SameTree(after, Components(Strip([100])), TwinTree()))
  {
    var job := JobFor([100], TwinTree(), 0, 0);
    hide *;
    TwinIsPlantable();
    SecondDoesNotComeBack(job);
    FileHasPlace([100], TwinTree(), job, 2);
    TwinIsFile(job);
    if Replanted(map[], after, job) {
      TreeComesBackExactly(map[], after, [100], TwinTree(), job);
    }
  }

  lemma LockedVisits(job: Job)
    requires job == JobFor([100], LockedTree(), 0, 0)
    ensures job.visits == [Visit([100], PlainStat(S_IFDIR), true, [], false),
                           Visit([100, SLASH, 102], PlainStat(S_IFREG), false, [], false)]
    ensures WellNamed(LockedTree()) && !EndsInDotDot([100]) && IsDir(LockedTree().stat)
  {
    hide Preorder;
    OneFileInside(LockedTree().listing[0].tree, LockedTree(), [100, SLASH, 102]);
  }

  lemma LockedSound(job: Job)
    requires job == JobFor([100], LockedTree(), 0, 0)
    ensures |job.visits| == 2 && Sound(job)
    ensures forall i :: 0 <= i < 2 ==> Ordinary(job.visits[i].stat)
    ensures !IsDir(job.visits[1].stat) && !ArchivedAt(job, 1)
  {
    hide Preorder, Strip, Job.At, LockedTree;
    LockedVisits(job);
    forall i | 0 <= i < 2 ensures !job.At(i).Truncated? {
      NeverTruncated(job, i);
    }
  }

  lemma LockedIsPlantable(job: Job)
    requires job == JobFor([100], LockedTree(), 0, 0)
    ensures Plantable([100], LockedTree(), job)
  {
    hide Preorder, WellNamed, EndsInDotDot, IsDir, DirectoryText, Strip, LockedTree, Sound, Ordinary, ArchivedAt;
    LockedVisits(job);
    LockedSound(job);
  }

  /** The file that cannot be opened is left out: extracting what was archived does not bring it back. */
  lemma UnreadableIsLost(after: Nodes)
    ensures var job := JobFor([100], LockedTree(), 0, 0);
            && Plantable([100], LockedTree(), job) && |job.visits| == 2
            && (Replanted(map[], after, job) ==> NodeAt(after, Place(job.visits[1])) == None)
  {
    var job := JobFor([100], LockedTree(), 0, 0);
    hide Plantable, Replanted, Preorder, LockedTree, Place, ArchivedAt, IsDir, Sound;
    LockedIsPlantable(job);
    LockedSound(job);
    if Replanted(map[], after, job) {
      DroppedIsAbsent(map[], after, [100], LockedTree(), job, 1);
    }
  }
}

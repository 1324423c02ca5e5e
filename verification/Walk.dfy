/** `recursive_action`: the directory walk that feeds the archiver. */
module Walk {
  import opened Bytes
  import opened Names
  import Header
  import FileSystem
  import opened Writer
  import opened Archive

  datatype Child = Child(name: seq<byte>, tree: Tree)

  /** What lies at a path: nothing that can be examined, or an entry; the listing of a directory, empty if it fails. */
  datatype Tree =
    | Missing
    | Entry(stat: Stat, readable: bool, content: seq<byte>, failing: bool, listing: seq<Child>)

  /** What the visitor answers for a directory. */
  datatype Answer = False | True | Skip

  predicate DotOrDotDot(name: seq<byte>) {
    name == [DOT] || name == [DOT, DOT]
  }

  function VisitOf(path: seq<byte>, t: Tree): Visit
    requires t.Entry?
  {
    Visit(path, t.stat, t.readable, t.content, t.failing)
  }

  /** The walk goes into the entry. */
  predicate Entered(path: seq<byte>, t: Tree, answer: seq<byte> -> Answer) {
    t.Entry? && IsDir(t.stat) && answer(path) == True
  }

  function Width(t: Tree): nat {
    if t.Entry? then |t.listing| + 1 else 0
  }

  /** The visits below a directory, from child k on. */
  function Children(path: seq<byte>, t: Tree, k: nat, answer: seq<byte> -> Answer): seq<Visit>
    requires t.Entry? && k <= |t.listing|
    decreases t, |t.listing| - k
  {
    if k == |t.listing| then []
    else
      var c := t.listing[k];
      (if DotOrDotDot(c.name) then [] else Preorder(Concat(path, c.name), c.tree, answer))
      + Children(path, t, k + 1, answer)
  }

  /** The visits in preorder. */
  function Preorder(path: seq<byte>, t: Tree, answer: seq<byte> -> Answer): seq<Visit>
    decreases t, Width(t)
  {
    if t.Missing? then []
    else [VisitOf(path, t)] + if Entered(path, t, answer) then Children(path, t, 0, answer) else []
  }

  predicate StringsOnly(vs: seq<Visit>) {
    forall i :: 0 <= i < |vs| ==> NoNul(vs[i].fileName)
  }

  /**
   * The walk over an entry reports failure: nothing is there, the visitor fails on it, or its listing fails. What
   * becomes of the entries below makes no difference. The entry's own visit, if there is one, is number i of the job.
   */
  predicate Fails(path: seq<byte>, t: Tree, answer: seq<byte> -> Answer, job: Job, i: nat) {
    if t.Missing? then true
    else if !IsDir(t.stat) then i < |job.visits| && job.At(i).Failed?
    else answer(path) == False || (answer(path) == True && t.listing == [])
  }

  /** A directory fails if its visitor says FALSE, not if it says SKIP, and otherwise if nothing is listed. */
  lemma AnswersDecide(path: seq<byte>, t: Tree, answer: seq<byte> -> Answer, job: Job, i: nat)
    requires t.Entry? && Header.Format(t.stat.mode) == 0x4000
    ensures answer(path) == False ==> Fails(path, t, answer, job, i)
    ensures answer(path) == Skip ==> !Fails(path, t, answer, job, i)
    ensures answer(path) == True ==> (Fails(path, t, answer, job, i) <==> t.listing == [])
  {
    hide Job.At;
  }

  datatype Walked = Returned(status: Answer) | Lost(why: Death)

  lemma FirstIsString(path: seq<byte>, t: Tree, answer: seq<byte> -> Answer)
    requires t.Entry? && StringsOnly(Preorder(path, t, answer))
    ensures NoNul(VisitOf(path, t).fileName)
  {
    assert Preorder(path, t, answer)[0] == VisitOf(path, t);
  }

  lemma NoChildren(path: seq<byte>, t: Tree, answer: seq<byte> -> Answer)
    requires t.Entry? && t.listing == []
    ensures Preorder(path, t, answer) == [VisitOf(path, t)]
  {
  }

  lemma ChildrenStep(path: seq<byte>, t: Tree, k: nat, answer: seq<byte> -> Answer)
    requires t.Entry? && k < |t.listing|
    ensures var c := t.listing[k];
            Children(path, t, k, answer)
            == (if DotOrDotDot(c.name) then [] else Preorder(Concat(path, c.name), c.tree, answer))
               + Children(path, t, k + 1, answer)
  {
  }

  lemma StringsInside(a: seq<Visit>, b: seq<Visit>, c: seq<Visit>)
    requires StringsOnly(a + (b + c))
    ensures StringsOnly(b)
  {
    assert forall i :: 0 <= i < |b| ==> b[i] == (a + (b + c))[|a| + i];
  }

  lemma NoMoreChildren(path: seq<byte>, t: Tree, answer: seq<byte> -> Answer)
    requires t.Entry?
    ensures Children(path, t, |t.listing|, answer) == []
  {
  }

  /**
   * `recursive_action` with ACTION_RECURSE, the archiver being its visitor. The answer the visitor gives for a
   * directory is a parameter: the archiver itself always answers TRUE.
   */
  method RecursiveAction(tb: TarBallInfo, fileName: seq<byte>, t: Tree, answer: seq<byte> -> Answer,
                         ghost start: seq<byte>, ghost done: seq<Visit>)
    returns (r: Walked, ghost visited: seq<Visit>)
    requires Progress(tb, start, done) && StringsOnly(Preorder(fileName, t, answer))
    modifies tb, tb.tarFd
    ensures r.Returned? ==> visited == Preorder(fileName, t, answer) && Progress(tb, start, done + visited)
    ensures r.Returned? ==>
              (r.status == False <==> Fails(fileName, t, answer, Job(done + visited, tb.tarDev, tb.tarIno), |done|))
    ensures r.Lost? ==> visited <= Preorder(fileName, t, answer)
    ensures r.Lost? ==> tb.tarFd.faulty || !FilesReadable(Job(done + visited, tb.tarDev, tb.tarIno))
    decreases t
  {
    hide Concat, VisitOf, IsDir, Progress, FilesReadable, Children, StringsOnly, DotOrDotDot, NoNul, Job.At, Width;
    visited := [];
    if t.Missing? {
      assert done + [] == done;
      return Returned(False), visited;
    }
    var own := VisitOf(fileName, t);
    visited := [own];
    FirstIsString(fileName, t, answer);
    var v := VisitNext(tb, own, start, done);
    if v.Died? {
      return Lost(v.why), visited;
    }
    if !IsDir(t.stat) {
      return Returned(if v.Failure? then False else True), visited;
    }
    var status := answer(fileName);
    if status == False {
      return Returned(False), visited;
    }
    if status == Skip {
      return Returned(True), visited;
    }
    if t.listing == [] {
      NoChildren(fileName, t, answer);
      return Returned(False), visited;
    }
    var k := 0;
    ghost var all := Preorder(fileName, t, answer);
    while k < |t.listing|
      invariant 0 <= k <= |t.listing|
      invariant visited + Children(fileName, t, k, answer) == all
      invariant Progress(tb, start, done + visited)
    {
      var next := t.listing[k];
      ghost var before, rest := visited, Children(fileName, t, k + 1, answer);
      ChildrenStep(fileName, t, k, answer);
      if !DotOrDotDot(next.name) {
        var nextFile := ConcatPathFile(fileName, next.name);
        var below; ghost var more;
        assert StringsOnly(Preorder(nextFile, next.tree, answer)) by {
          StringsInside(before, Preorder(nextFile, next.tree, answer), rest);
        }
        assert before + (Preorder(nextFile, next.tree, answer) + rest)
               == before + Preorder(nextFile, next.tree, answer) + rest;
        below, more := RecursiveAction(tb, nextFile, next.tree, answer, start, done + before);
        visited := before + more;
        assert done + before + more == done + visited;
        if below.Lost? {
          return Lost(below.why), visited;
        }
      } else {
        assert before + ([] + rest) == visited + rest;
      }
      k := k + 1;
    }
    NoMoreChildren(fileName, t, answer);
    assert visited + [] == visited;
    return Returned(status), visited;
  }

  // ---------------------------------------------------------------- which paths are visited

  predicate NoSlash(s: seq<byte>) {
    forall i :: 0 <= i < |s| ==> s[i] != SLASH
  }

  /** The names in a directory are distinct, not empty, and without slashes. */
  predicate WellNamed(t: Tree)
    decreases t
  {
    t.Entry? ==>
      && (forall i :: 0 <= i < |t.listing| ==> t.listing[i].name != [] && NoSlash(t.listing[i].name))
      && (forall i, j :: 0 <= i < j < |t.listing| ==> t.listing[i].name != t.listing[j].name)
      && (forall i :: 0 <= i < |t.listing| ==> WellNamed(t.listing[i].tree))
  }

  /** The text that every path below p starts with. */
  function Base(p: seq<byte>): (b: seq<byte>)
    ensures |p| <= |b|
  {
    if EndsWith(p, SLASH) then p else p + [SLASH]
  }

  /** q lies below p. */
  predicate Under(p: seq<byte>, q: seq<byte>) {
    |Base(p)| < |q| && q[..|Base(p)|] == Base(p)
  }

  /** The component of q that follows the first b characters. */
  function Segment(q: seq<byte>, b: nat): seq<byte>
    requires b <= |q|
  {
    q[b..b + FileSystem.FirstSlash(q[b..])]
  }

  lemma ChildPath(path: seq<byte>, name: seq<byte>)
    requires name != [] && NoSlash(name)
    ensures Concat(path, name) == Base(path) + name
    ensures Under(path, Concat(path, name))
    ensures Base(Concat(path, name)) == Base(path) + name + [SLASH]
  {
  }

  lemma SlashAt(s: seq<byte>, n: nat)
    requires n <= |s| && (n < |s| ==> s[n] == SLASH) && forall i :: 0 <= i < n ==> s[i] != SLASH
    ensures FileSystem.FirstSlash(s) == n
  {
    hide FileSystem.FirstSlash;
  }

  /** A path that is a child's, or lies below it, has the child's name as its component there. */
  lemma SegmentOf(path: seq<byte>, name: seq<byte>, q: seq<byte>)
    requires name != [] && NoSlash(name)
    requires q == Concat(path, name) || Under(Concat(path, name), q)
    ensures Under(path, q) && Segment(q, |Base(path)|) == name
  {
    ChildPath(path, name);
    var b, c := |Base(path)|, Base(path) + name;
    assert q[..|c|] == c by {
      if q != c {
        assert q[..|c|] == q[..|c| + 1][..|c|];
      }
    }
    assert q[..b] == q[..|c|][..b] == Base(path);
    assert q[b..|c|] == q[..|c|][b..] == name;
    assert |q| > |c| ==> q[|c|] == SLASH by {
      if |q| > |c| {
        assert q[|c|] == q[..|c| + 1][|c|];
      }
    }
    assert forall i :: 0 <= i < |name| ==> q[b..][i] == name[i];
    SlashAt(q[b..], |name|);
  }

  /** Below y the component after the first b characters is y's own. */
  lemma SegmentInherited(b: nat, y: seq<byte>, x: seq<byte>)
    requires b < |y| && y[b] != SLASH && Under(y, x)
    ensures Segment(x, b) == Segment(y, b)
  {
    var f := FileSystem.FirstSlash(y[b..]);
    assert x[..|y|] == x[..|Base(y)|][..|y|] == y;
    assert forall i :: 0 <= i < |y| - b ==> x[b..][i] == y[b..][i];
    assert y[b..][0] == y[b];
    if f == |y| - b {
      assert y[b..][f - 1] == y[|y| - 1];
      assert x[|y|] == x[..|Base(y)|][|y|] == SLASH;
    }
    SlashAt(x[b..], f);
    assert x[b..][..f] == y[b..][..f];
  }

  /** A visit somewhere below a directory, by way of its child k. */
  predicate Through(path: seq<byte>, name: seq<byte>, q: seq<byte>) {
    && Under(path, q)
    && q[|Base(path)|] != SLASH
    && Segment(q, |Base(path)|) == name
  }

  lemma ThroughChild(path: seq<byte>, name: seq<byte>, q: seq<byte>)
    requires name != [] && NoSlash(name)
    requires q == Concat(path, name) || Under(Concat(path, name), q)
    ensures Through(path, name, q)
  {
    SegmentOf(path, name, q);
    assert Segment(q, |Base(path)|)[0] == q[|Base(path)|];
  }

  /** Visits through different children are unrelated. */
  lemma ChildrenUnrelated(path: seq<byte>, n: seq<byte>, x: seq<byte>, m: seq<byte>, y: seq<byte>)
    requires Through(path, n, x) && Through(path, m, y) && n != m
    ensures x != y && !Under(x, y) && !Under(y, x)
  {
    if Under(x, y) {
      SegmentInherited(|Base(path)|, x, y);
    }
    if Under(y, x) {
      SegmentInherited(|Base(path)|, y, x);
    }
  }

  predicate AllUnder(vs: seq<Visit>, path: seq<byte>) {
    forall i :: 0 <= i < |vs| ==> Under(path, vs[i].fileName)
  }

  predicate AllThrough(vs: seq<Visit>, path: seq<byte>, name: seq<byte>) {
    forall i :: 0 <= i < |vs| ==> Through(path, name, vs[i].fileName)
  }

  /** A visit below a directory is through one of its children from k on. */
  predicate FromChild(path: seq<byte>, t: Tree, k: nat, q: seq<byte>)
    requires t.Entry?
  {
    exists j :: k <= j < |t.listing| && Through(path, t.listing[j].name, q)
  }

  predicate AllFromChildren(vs: seq<Visit>, path: seq<byte>, t: Tree, k: nat)
    requires t.Entry?
  {
    forall i :: 0 <= i < |vs| ==> FromChild(path, t, k, vs[i].fileName)
  }

  lemma FromChildrenIsUnder(vs: seq<Visit>, path: seq<byte>, t: Tree, k: nat)
    requires t.Entry? && AllFromChildren(vs, path, t, k)
    ensures AllUnder(vs, path)
  {
    hide Under, Segment;
  }

  lemma MoreChildren(a: seq<Visit>, b: seq<Visit>, path: seq<byte>, t: Tree, k: nat)
    requires t.Entry? && k < |t.listing|
    requires AllThrough(a, path, t.listing[k].name) && AllFromChildren(b, path, t, k + 1)
    ensures AllFromChildren(a + b, path, t, k)
  {
    hide Through;
  }

  lemma NoVisits(path: seq<byte>)
    ensures AllUnder([], path)
  {
  }

  lemma MissingIsSilent(path: seq<byte>, t: Tree, answer: seq<byte> -> Answer)
    ensures t.Missing? ==> Preorder(path, t, answer) == []
  {
  }

  lemma NoneThrough(path: seq<byte>, name: seq<byte>)
    ensures AllThrough([], path, name)
  {
  }

  lemma {:induction false} ChildrenStayInside(path: seq<byte>, t: Tree, k: nat, answer: seq<byte> -> Answer)
    requires t.Entry? && k <= |t.listing| && WellNamed(t)
    ensures AllFromChildren(Children(path, t, k, answer), path, t, k)
    decreases t, |t.listing| - k
  {
    hide Concat, FromChild, AllThrough, Preorder;
    if k < |t.listing| {
      var c := t.listing[k];
      ChildrenStayInside(path, t, k + 1, answer);
      InsideChild(path, t, k, answer);
      NoneThrough(path, c.name);
      MoreChildren(if DotOrDotDot(c.name) then [] else Preorder(Concat(path, c.name), c.tree, answer),
                   Children(path, t, k + 1, answer), path, t, k);
    }
  }

  /** Every visit is the root or below it, and the root comes first. */
  lemma {:induction false} VisitsStayInside(path: seq<byte>, t: Tree, answer: seq<byte> -> Answer)
    requires WellNamed(t)
    ensures t.Entry? ==> Preorder(path, t, answer) != [] && Preorder(path, t, answer)[0] == VisitOf(path, t)
    ensures t.Entry? ==> AllUnder(Preorder(path, t, answer)[1..], path)
    decreases t, Width(t)
  {
    hide AllUnder;
    if t.Entry? {
      var below := if Entered(path, t, answer) then Children(path, t, 0, answer) else [];
      NoVisits(path);
      if Entered(path, t, answer) {
        ChildrenStayInside(path, t, 0, answer);
        FromChildrenIsUnder(below, path, t, 0);
      }
      assert Preorder(path, t, answer)[1..] == below;
    }
  }

  lemma {:induction false} InsideChild(path: seq<byte>, t: Tree, k: nat, answer: seq<byte> -> Answer)
    requires t.Entry? && k < |t.listing| && WellNamed(t)
    ensures AllThrough(Preorder(Concat(path, t.listing[k].name), t.listing[k].tree, answer), path, t.listing[k].name)
    decreases t, 0
  {
    hide Under, Segment, Concat, Preorder, Through;
    var c := t.listing[k];
    var p := Concat(path, c.name);
    var vs := Preorder(p, c.tree, answer);
    VisitsStayInside(p, c.tree, answer);
    MissingIsSilent(p, c.tree, answer);
    forall i | 0 <= i < |vs| ensures Through(path, c.name, vs[i].fileName) {
      assert i > 0 ==> vs[i] == vs[1..][i - 1];
      ThroughChild(path, c.name, vs[i].fileName);
    }
  }

  predicate Opens(v: Visit, answer: seq<byte> -> Answer) {
    IsDir(v.stat) && answer(v.fileName) == True
  }

  /**
   * No visit is repeated, a directory comes before what lies below it, and nothing is visited below an entry that is
   * not a directory or whose visitor did not answer TRUE.
   */
  ghost predicate WellOrdered(vs: seq<Visit>, answer: seq<byte> -> Answer) {
    && (forall i, j :: 0 <= i < j < |vs| ==>
          vs[i].fileName != vs[j].fileName && !Under(vs[j].fileName, vs[i].fileName))
    && (forall i, j :: 0 <= i < |vs| && 0 <= j < |vs| && !Opens(vs[i], answer) ==>
                         !Under(vs[i].fileName, vs[j].fileName))
  }

  lemma WellOrderedConcat(a: seq<Visit>, b: seq<Visit>, answer: seq<byte> -> Answer)
    requires WellOrdered(a, answer) && WellOrdered(b, answer)
    requires forall i, j :: 0 <= i < |a| && 0 <= j < |b| ==>
               && a[i].fileName != b[j].fileName
               && !Under(b[j].fileName, a[i].fileName)
               && (!Opens(a[i], answer) ==> !Under(a[i].fileName, b[j].fileName))
    ensures WellOrdered(a + b, answer)
  {
    hide Under, Opens;
  }

  lemma NotUnderItself(p: seq<byte>, q: seq<byte>)
    ensures !Under(p, p)
    ensures Under(p, q) ==> p != q && !Under(q, p)
  {
  }

  lemma NoVisitsAreWellOrdered(answer: seq<byte> -> Answer)
    ensures WellOrdered([], answer)
  {
  }

  lemma SiblingsUnrelated(a: seq<Visit>, b: seq<Visit>, path: seq<byte>, t: Tree, k: nat)
    requires t.Entry? && k < |t.listing| && WellNamed(t)
    requires AllThrough(a, path, t.listing[k].name) && AllFromChildren(b, path, t, k + 1)
    ensures forall i, j :: 0 <= i < |a| && 0 <= j < |b| ==>
              && a[i].fileName != b[j].fileName
              && !Under(b[j].fileName, a[i].fileName) && !Under(a[i].fileName, b[j].fileName)
  {
    hide Under, Through;
    forall i, j | 0 <= i < |a| && 0 <= j < |b|
      ensures && a[i].fileName != b[j].fileName
              && !Under(b[j].fileName, a[i].fileName) && !Under(a[i].fileName, b[j].fileName)
    {
      assert FromChild(path, t, k + 1, b[j].fileName);
      var m :| k + 1 <= m < |t.listing| && Through(path, t.listing[m].name, b[j].fileName);
      ChildrenUnrelated(path, t.listing[k].name, a[i].fileName, t.listing[m].name, b[j].fileName);
    }
  }

  lemma {:induction false} ChildrenAreWellOrdered(path: seq<byte>, t: Tree, k: nat, answer: seq<byte> -> Answer)
    requires t.Entry? && k <= |t.listing| && WellNamed(t)
    ensures WellOrdered(Children(path, t, k, answer), answer)
    decreases t, |t.listing| - k
  {
    hide Under, Concat, Through, AllThrough, AllFromChildren, Preorder, WellOrdered;
    if k == |t.listing| {
      NoVisitsAreWellOrdered(answer);
    } else {
      var c, rest := t.listing[k], Children(path, t, k + 1, answer);
      ChildrenAreWellOrdered(path, t, k + 1, answer);
      if DotOrDotDot(c.name) {
        assert [] + rest == rest;
      } else {
        var first := Preorder(Concat(path, c.name), c.tree, answer);
        PreorderIsWellOrdered(Concat(path, c.name), c.tree, answer);
        InsideChild(path, t, k, answer);
        ChildrenStayInside(path, t, k + 1, answer);
        SiblingsUnrelated(first, rest, path, t, k);
        WellOrderedConcat(first, rest, answer);
      }
    }
  }

  lemma {:induction false} PreorderIsWellOrdered(path: seq<byte>, t: Tree, answer: seq<byte> -> Answer)
    requires WellNamed(t)
    ensures WellOrdered(Preorder(path, t, answer), answer)
    decreases t, Width(t)
  {
    hide Under;
    if t.Entry? {
      var root := [VisitOf(path, t)];
      NotUnderItself(path, path);
      if Entered(path, t, answer) {
        var below := Children(path, t, 0, answer);
        ChildrenAreWellOrdered(path, t, 0, answer);
        ChildrenStayInside(path, t, 0, answer);
        FromChildrenIsUnder(below, path, t, 0);
        forall j | 0 <= j < |below|
          ensures path != below[j].fileName && !Under(below[j].fileName, path)
        {
          NotUnderItself(path, below[j].fileName);
        }
        WellOrderedConcat(root, below, answer);
      } else {
        assert root + [] == root;
      }
    }
  }

  // ---------------------------------------------------------------- completeness

  /** A name that is neither "." nor "..". */
  predicate IsChildName(name: seq<byte>) {
    name != [46] && name != [46, 46]
  }

  /** The entry found by following child numbers, through directories that are entered and never through "." or "..". */
  function Reach(path: seq<byte>, t: Tree, ks: seq<nat>, answer: seq<byte> -> Answer): Option<Visit>
    decreases |ks|
  {
    if t.Missing? then None
    else if ks == [] then Some(VisitOf(path, t))
    else if Entered(path, t, answer) && ks[0] < |t.listing| && IsChildName(t.listing[ks[0]].name) then
      Reach(Concat(path, t.listing[ks[0]].name), t.listing[ks[0]].tree, ks[1..], answer)
    else None
  }

  ghost predicate Reachable(path: seq<byte>, t: Tree, v: Visit, answer: seq<byte> -> Answer) {
    exists ks :: Reach(path, t, ks, answer) == Some(v)
  }

  lemma {:induction false} ChildIsIncluded(path: seq<byte>, t: Tree, k: nat, j: nat, answer: seq<byte> -> Answer)
    requires t.Entry? && k <= j < |t.listing| && IsChildName(t.listing[j].name)
    ensures forall v :: v in Preorder(Concat(path, t.listing[j].name), t.listing[j].tree, answer) ==>
                          v in Children(path, t, k, answer)
    decreases j - k
  {
    hide Concat, Preorder;
    if k < j {
      ChildIsIncluded(path, t, k + 1, j, answer);
    }
  }

  lemma {:induction false} ReachedIsVisited(path: seq<byte>, t: Tree, ks: seq<nat>, answer: seq<byte> -> Answer)
    requires Reach(path, t, ks, answer).Some?
    ensures Reach(path, t, ks, answer).value in Preorder(path, t, answer)
    decreases |ks|
  {
    hide Concat;
    if ks != [] {
      var c := t.listing[ks[0]];
      ReachedIsVisited(Concat(path, c.name), c.tree, ks[1..], answer);
      ChildIsIncluded(path, t, 0, ks[0], answer);
    }
  }

  lemma InChildren(path: seq<byte>, t: Tree, k: nat, v: Visit, answer: seq<byte> -> Answer)
    requires t.Entry? && k <= |t.listing| && v in Children(path, t, k, answer)
    ensures k < |t.listing|
    ensures || (IsChildName(t.listing[k].name)
                && v in Preorder(Concat(path, t.listing[k].name), t.listing[k].tree, answer))
            || v in Children(path, t, k + 1, answer)
  {
    hide Concat, Preorder;
  }

  lemma {:induction false} ChildIsReached(path: seq<byte>, t: Tree, k: nat, v: Visit, answer: seq<byte> -> Answer)
    returns (ks: seq<nat>)
    requires t.Entry? && Entered(path, t, answer) && k <= |t.listing| && v in Children(path, t, k, answer)
    ensures Reach(path, t, ks, answer) == Some(v)
    decreases t, |t.listing| - k
  {
    hide Concat, Entered, Children, Preorder, IsChildName;
    InChildren(path, t, k, v, answer);
    var c := t.listing[k];
    if IsChildName(c.name) && v in Preorder(Concat(path, c.name), c.tree, answer) {
      var rest := VisitedIsReached(Concat(path, c.name), c.tree, v, answer);
      ks := [k] + rest;
      assert ks[1..] == rest;
    } else {
      ks := ChildIsReached(path, t, k + 1, v, answer);
    }
  }

  lemma {:induction false} VisitedIsReached(path: seq<byte>, t: Tree, v: Visit, answer: seq<byte> -> Answer)
    returns (ks: seq<nat>)
    requires v in Preorder(path, t, answer)
    ensures Reach(path, t, ks, answer) == Some(v)
    decreases t, Width(t)
  {
    if v == VisitOf(path, t) {
      return [];
    }
    ks := ChildIsReached(path, t, 0, v, answer);
  }

  /** In a directory that is entered every child is visited, whatever its name, unless that is "." or "..". */
  lemma ChildIsVisited(path: seq<byte>, t: Tree, j: nat, answer: seq<byte> -> Answer)
    requires t.Entry? && IsDir(t.stat) && answer(path) == True && j < |t.listing|
    requires t.listing[j].name != [46] && t.listing[j].name != [46, 46]
    ensures var c := t.listing[j];
            c.tree.Entry? ==>
              Visit(Concat(path, c.name), c.tree.stat, c.tree.readable, c.tree.content, c.tree.failing)
              in Preorder(path, t, answer)
  {
    hide Concat, IsDir, Children;
    var c := t.listing[j];
    ChildIsIncluded(path, t, 0, j, answer);
    if c.tree.Entry? {
      assert Preorder(Concat(path, c.name), c.tree, answer)[0] == VisitOf(Concat(path, c.name), c.tree);
    }
  }

  /** A listing of nothing but "." and ".." gives no visits below. */
  lemma {:induction false} DotsAreSkipped(path: seq<byte>, t: Tree, k: nat, answer: seq<byte> -> Answer)
    requires t.Entry? && k <= |t.listing|
    requires forall i :: k <= i < |t.listing| ==> t.listing[i].name == [46] || t.listing[i].name == [46, 46]
    ensures Children(path, t, k, answer) == []
    decreases |t.listing| - k
  {
    if k < |t.listing| {
      DotsAreSkipped(path, t, k + 1, answer);
    }
  }

  lemma ThreeParts(a: seq<Visit>, b: seq<Visit>, c: seq<Visit>, d: seq<Visit>)
    ensures a + (b + c + d) == (a + b) + c + d
  {
  }

  /** The visits below child j, and what comes before and after them. */
  lemma {:induction false} ChildrenSplit(path: seq<byte>, t: Tree, k: nat, j: nat, answer: seq<byte> -> Answer)
    returns (before: seq<Visit>)
    requires t.Entry? && k <= j < |t.listing| && IsChildName(t.listing[j].name)
    ensures Children(path, t, k, answer)
            == before + Preorder(Concat(path, t.listing[j].name), t.listing[j].tree, answer)
               + Children(path, t, j + 1, answer)
    decreases j - k
  {
    hide Concat, Preorder;
    ChildrenStep(path, t, k, answer);
    if k == j {
      before := [];
      return;
    }
    before := ChildrenSplit(path, t, k + 1, j, answer);
    var c := t.listing[k];
    var first := if DotOrDotDot(c.name) then [] else Preorder(Concat(path, c.name), c.tree, answer);
    ThreeParts(first, before, Preorder(Concat(path, t.listing[j].name), t.listing[j].tree, answer),
               Children(path, t, j + 1, answer));
    before := first + before;
  }

  lemma SixParts(v: Visit, a: seq<Visit>, b: seq<Visit>, c: seq<Visit>, d: seq<Visit>, e: seq<Visit>)
    ensures [v] + (a + b + (c + d + e)) == ([v] + a) + b + c + d + e
  {
  }

  /** Children are visited in the order of the listing. */
  lemma SiblingsInOrder(path: seq<byte>, t: Tree, i: nat, j: nat, answer: seq<byte> -> Answer)
    returns (before: seq<Visit>, between: seq<Visit>, after: seq<Visit>)
    requires Entered(path, t, answer) && i < j < |t.listing|
    requires IsChildName(t.listing[i].name) && IsChildName(t.listing[j].name)
    ensures var a, b := t.listing[i], t.listing[j];
            Preorder(path, t, answer)
            == before + Preorder(Concat(path, a.name), a.tree, answer) + between
               + Preorder(Concat(path, b.name), b.tree, answer) + after
  {
    hide Concat, Children, IsChildName, VisitOf;
    var a, b := t.listing[i], t.listing[j];
    before := ChildrenSplit(path, t, 0, i, answer);
    between := ChildrenSplit(path, t, i + 1, j, answer);
    after := Children(path, t, j + 1, answer);
    SixParts(VisitOf(path, t), before, Preorder(Concat(path, a.name), a.tree, answer), between,
             Preorder(Concat(path, b.name), b.tree, answer), after);
    before := [VisitOf(path, t)] + before;
  }

  /**
   * The walk visits exactly the entries that can be reached, each once, every directory before what lies below it,
   * and nothing below a directory whose visitor answered FALSE or SKIP.
   */
  lemma WalkIsPreorder(path: seq<byte>, t: Tree, answer: seq<byte> -> Answer)
    requires WellNamed(t)
    ensures WellOrdered(Preorder(path, t, answer), answer)
    ensures forall v :: v in Preorder(path, t, answer) <==> Reachable(path, t, v, answer)
  {
    hide Preorder, Reach;
    PreorderIsWellOrdered(path, t, answer);
    forall v ensures v in Preorder(path, t, answer) <==> Reachable(path, t, v, answer) {
      if v in Preorder(path, t, answer) {
        var ks := VisitedIsReached(path, t, v, answer);
      }
      if Reachable(path, t, v, answer) {
        var ks :| Reach(path, t, ks, answer) == Some(v);
        ReachedIsVisited(path, t, ks, answer);
      }
    }
  }
}

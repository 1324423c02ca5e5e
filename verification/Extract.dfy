/** Unpacking one member, and what a whole archive leaves in the file system. */
module Extract {
  import opened Bytes
  import opened Header
  import opened Streams
  import opened FileSystem

  /** What `action_data` is given: the header, and the bytes that follow it in the stream. */
  datatype Delivery = Delivery(m: Member, body: seq<byte>)

  /** The index of the last slash, or -1. */
  function LastSlash(s: seq<byte>): (k: int)
    ensures -1 <= k < |s|
    ensures k >= 0 ==> s[k] == SLASH
    ensures forall i :: k < i < |s| ==> s[i] != SLASH
  {
    if s == [] then -1
    else if s[|s| - 1] == SLASH then |s| - 1
    else LastSlash(s[..|s| - 1])
  }

  datatype Extraction = Extraction(nodes: Nodes, fate: Fate)

  /** Leading directories. When they cannot be made the name may be left cut short. */
  function LeadingDirs(nodes: Nodes, name: seq<byte>): (Nodes, seq<byte>) {
    var k := LastSlash(name);
    if k < 0 then (nodes, name)
    else
      var made := MakeDirs(nodes, name[..k], 0);
      (made.nodes, if made.cutAt.Some? && made.cutAt.value < k then name[..made.cutAt.value] else name)
  }

  /** A file of no size whose link target is its own name: the entry is left alone. */
  predicate LinksToItself(m: Member, name: seq<byte>) {
    Format(m.mode) == S_IFREG && m.linkTarget == Some(name) && m.size == 0
  }

  /** Creating the entry under its final name, after any old one is gone. */
  function CreateEntry(nodes: Nodes, name: seq<byte>, m: Member, body: seq<byte>): Extraction {
    if Format(m.mode) == S_IFREG then
      Extraction(if CanCreate(nodes, name) then nodes[Components(name) := File(body)] else nodes, Alive)
    else if Format(m.mode) == S_IFDIR then Extraction(AfterMkDir(nodes, name), Alive)
    else Extraction(nodes, Dead(FsError))
  }

  /** `data_extract_all` with the flags of `tarExtract`, on a system that fails only when it must. */
  function ExtractOne(nodes0: Nodes, d: Delivery): Extraction {
    var (nodes, name) := LeadingDirs(nodes0, d.m.name);
    if Format(d.m.mode) == S_IFDIR then CreateEntry(nodes, name, d.m, d.body)
    else if LinksToItself(d.m, name) then Extraction(nodes, Alive)
    else if UnlinkError(nodes, name) != Ok && UnlinkError(nodes, name) != ENOENT then Extraction(nodes, Dead(FsError))
    else CreateEntry(AfterUnlink(nodes, name), name, d.m, d.body)
  }

  /** Unpacking deliveries in order, up to the first that is fatal. */
  function ExtractAll(nodes: Nodes, ds: seq<Delivery>): Extraction {
    if ds == [] then Extraction(nodes, Alive)
    else
      var before := ExtractAll(nodes, ds[..|ds| - 1]);
      if before.fate.Dead? then before else ExtractOne(before.nodes, ds[|ds| - 1])
  }

  /** The header fields as the reader keeps them; the name is a buffer that is edited in place. */
  class FileHeader {
    var name: array<byte>
    var linkTarget: Option<seq<byte>>
    var size: int
    var uid: nat
    var gid: nat
    var mode: nat
    var mtime: int
    var device: bv32

    constructor ()
    {
      name := new byte[1](_ => NUL);
      linkTarget, size, uid, gid, mode, mtime, device := None, 0, 0, 0, 0, 0, 0;
    }

    /** The header stands for the member m. */
    ghost predicate Holds(m: Member)
      reads this, name
    {
      && HoldsAt(name[..], 0, m.name)
      && linkTarget == m.linkTarget && size == m.size && mode == m.mode
      && uid == m.uid && gid == m.gid && mtime == m.mtime
    }
  }

  /** What is in the stream behind a header, as far as the member's size goes. */
  ghost function BodyOf(src: Source, m: Member): seq<byte>
    reads src
  {
    Slice(src.data, src.pos, src.pos + Abs(m.size))
  }

  /** `strrchr(name, '/')` */
  method StrRChr(name: array<byte>, ghost str: seq<byte>) returns (k: int)
    requires HoldsAt(name[..], 0, str)
    ensures k == LastSlash(str)
  {
    assert forall i :: 0 <= i < |str| ==> name[i] == name[..][0..|str|][i] == str[i];
    var i := 0;
    k := -1;
    while name[i] != NUL
      invariant 0 <= i <= |str|
      invariant -1 <= k < i && (k >= 0 ==> str[k] == SLASH) && forall j :: k < j < i ==> str[j] != SLASH
      decreases |str| - i
    {
      if name[i] == SLASH {
        k := i;
      }
      i := i + 1;
    }
  }

  /** The leading directories of the name, which is cut at its last slash for the time being. */
  method CreateLeadingDirs(fs: System, name: array<byte>, ghost str: seq<byte>) returns (ghost left: seq<byte>)
    requires HoldsAt(name[..], 0, str) && fs.umask < NO_MASK
    modifies fs, name
    ensures fs.umask == old(fs.umask)
    ensures HoldsAt(name[..], 0, left)
    ensures fs.reliable ==> (fs.nodes, left) == LeadingDirs(old(fs.nodes), str)
  {
    hide MakeDirs;
    left := str;
    var slash := StrRChr(name, str);
    if slash >= 0 {
      ghost var whole := name[..];
      CutHolds(whole, whole[slash := NUL], str, slash);
      name[slash] := NUL;
      assert name[..] == whole[slash := NUL];
      var r; ghost var cutAt;
      r, cutAt := MakeDirectory(fs, name, -1, true, false, str[..slash]);
      name[slash] := SLASH;
      assert whole[slash] == whole[0..|str|][slash] == SLASH;
      if cutAt.Some? && cutAt.value < slash {
        left := str[..cutAt.value];
        assert name[..] == whole[cutAt.value := NUL];
        CutHolds(whole, name[..], str, cutAt.value);
      } else {
        assert name[..] == whole;
      }
    }
  }

  /** An empty destination that got everything, or everything there was, holds the slice. */
  lemma ReceivedIsSlice(now: seq<byte>, data: seq<byte>, from: nat, kept: nat, n: nat)
    requires Received(now, [], data, from, kept) && kept <= n
    ensures kept == n || from + kept == |data| || (kept == 0 && from >= |data|) ==> now == Slice(data, from, from + n)
  {
  }

  /** The regular-file case: when the file cannot be created the body is read all the same. */
  method ExtractFile(fs: System, src: Source, name: seq<byte>, size: int) returns (fate: Fate)
    modifies fs`nodes, src
    ensures fate.Alive? ==> src.pos == old(src.pos) + Abs(size) && (size == 0 || Abs(size) <= old(src.Left()))
    ensures fate.Dead? ==> fate.why == ShortRead || fate.why == IoError
    ensures fate == Dead(ShortRead) ==> old(src.Left()) < Abs(size)
    ensures fate == Dead(IoError) ==> src.faulty || !fs.reliable
    ensures fs.reliable && fate != Dead(IoError) ==>
              var body := old(Slice(src.data, src.pos, src.pos + Abs(size)));
              fs.nodes == if old(CanCreate(fs.nodes, name)) then old(fs.nodes)[Components(name) := File(body)]
                          else old(fs.nodes)
  {
    hide CanCreate, Components;
    var dst: Sink? := null;
    var ok := fs.CreateExclusive(name);
    if ok {
      dst := new Sink(!fs.reliable);
    }
    ghost var kept;
    ghost var nodes, pos := fs.nodes, src.pos;
    fate, kept := CopyFdExactSize(src, dst, size);
    if dst != null {
      fs.Store(name, dst.content);
      ReceivedIsSlice(dst.content, src.data, pos, kept, Abs(size));
      assert nodes == old(fs.nodes)[Components(name) := File([])];
      assert fs.nodes == old(fs.nodes)[Components(name) := File(dst.content)];
    }
  }

  /** `data_extract_all` */
  method DataExtractAll(fs: System, src: Source, header: FileHeader, ghost m: Member) returns (fate: Fate)
    requires header.Holds(m) && fs.umask < NO_MASK
    requires Format(m.mode) != S_IFREG ==> m.size == 0
    modifies fs, src, header.name
    ensures fs.umask == old(fs.umask)
    ensures fate.Alive? ==> src.pos == old(src.pos) + Abs(m.size) && (m.size == 0 || Abs(m.size) <= old(src.Left()))
    ensures fate.Dead? ==> fate.why == FsError || fate.why == ShortRead || fate.why == IoError
    ensures fate == Dead(ShortRead) ==> old(src.Left()) < Abs(m.size)
    ensures fate == Dead(IoError) ==> src.faulty || !fs.reliable
    ensures fs.reliable && fate != Dead(IoError) ==>
              var x := ExtractOne(old(fs.nodes), Delivery(m, old(BodyOf(src, m))));
              fs.nodes == x.nodes && (fate == Dead(FsError) <==> x.fate.Dead?)
  {
    hide LeadingDirs, UnlinkError, MkDirError, CanCreate, Components, Format, CStr;
    ghost var left := CreateLeadingDirs(fs, header.name, m.name);
    HoldsIsCStr(header.name[..], 0, left);
    assert header.name[..][0..] == header.name[..];
    var name := CStr(header.name[..]);
    if Format(header.mode) != S_IFDIR {
      if Format(header.mode) == S_IFREG && header.linkTarget == Some(name) && header.size == 0 {
        return Alive;
      }
      var e := fs.Unlink(name);
      if e != Ok && e != ENOENT {
        return Dead(FsError);
      }
      assert e == ENOENT && fs.reliable ==> AfterUnlink(fs.nodes, name) == fs.nodes;
    }
    if Format(header.mode) == S_IFREG {
      fate := ExtractFile(fs, src, name, header.size);
    } else if Format(header.mode) == S_IFDIR {
      var _ := fs.MkDir(name);
      return Alive;
    } else {
      return Dead(FsError);
    }
  }
}

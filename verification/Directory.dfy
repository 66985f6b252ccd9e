/** Directories as files of 16-byte records, path lookup, and `fs_mknod`,
    as functions of the disk. */
module Directory {
  import opened Bytes
  import opened Layout
  import opened ReadWrite
  import opened File
  import opened Path

  const DIRENT: nat := 16

  /** `struct dirent`: a 16-bit inode number and 14 name bytes. */
  function EncodeDirent(n: u16, name: Name): (s: seq<byte>)
    requires |name| < MAXNAME
    ensures |s| == DIRENT
  {
    EncodeHalf(n) + name + Zeros(MAXNAME - |name|)
  }

  /** The bytes before the first zero, or all of them. */
  function CStr(s: seq<byte>): (r: seq<byte>)
    ensures |r| <= |s| && CString(r)
  {
    if s == [] || s[0] == 0 then [] else [s[0]] + CStr(s[1..])
  }

  function DirentInum(s: seq<byte>): u16
    requires |s| == DIRENT
  {
    Half(s, 0)
  }

  function DirentName(s: seq<byte>): Name
    requires |s| == DIRENT
  {
    CStr(s[2..])
  }

  lemma {:induction false} CStrPadded(name: Name, n: nat)
    requires CString(name)
    ensures CStr(name + Zeros(n)) == name
  {
    if name == [] {
      assert name + Zeros(n) == Zeros(n);
    } else {
      assert (name + Zeros(n))[1..] == name[1..] + Zeros(n);
      CStrPadded(name[1..], n);
    }
  }

  lemma DirentRoundTrip(n: u16, name: Name)
    requires |name| < MAXNAME && CString(name)
    ensures DirentInum(EncodeDirent(n, name)) == n && DirentName(EncodeDirent(n, name)) == name
  {
    var s := EncodeDirent(n, name);
    assert s[0..2] == EncodeHalf(n);
    HalfCopy(s, 0, EncodeHalf(n), 0);
    assert s[2..] == name + Zeros(MAXNAME - |name|);
    CStrPadded(name, MAXNAME - |name|);
  }

  /** The number of records a directory's size accounts for. */
  function Records(su: Super, d: Image, n: nat): (r: nat)
    ensures r * DIRENT <= CAPBYTES
  {
    Min(InodeAt(su, d, n).size, CAPBYTES) / DIRENT
  }

  /** Record i of file n. */
  function Record(su: Super, d: Image, n: nat, i: nat): (s: seq<byte>)
    requires n < NINODES && (i + 1) * DIRENT <= CAPBYTES
    ensures |s| == DIRENT
  {
    seq<byte>(DIRENT, j requires 0 <= j < DIRENT => FileByte(su, d, n, i * DIRENT + j))
  }

  /** The record scan of `dir_lookup`, from record i on: the index of the first match, or the count. */
  function Scan(su: Super, d: Image, n: nat, name: Name, i: nat): (r: nat)
    requires n < NINODES && i <= Records(su, d, n)
    ensures i <= r <= Records(su, d, n)
    ensures r < Records(su, d, n) ==> DirentName(Record(su, d, n, r)) == name
    ensures forall j :: i <= j < r ==> DirentName(Record(su, d, n, j)) != name
    decreases Records(su, d, n) - i
  {
    if i == Records(su, d, n) || DirentName(Record(su, d, n, i)) == name then i
    else Scan(su, d, n, name, i + 1)
  }

  /** `dir_lookup` */
  function DirLookup(su: Super, d: Image, n: nat, name: Name): nat
    requires n < NINODES
  {
    if InodeAt(su, d, n).typ != T_DIR then NULLINUM
    else
      var r := Scan(su, d, n, name, 0);
      if r < Records(su, d, n) then DirentInum(Record(su, d, n, r)) else NULLINUM
  }

  /** Look up one name after the other. */
  function Walk(su: Super, d: Image, n: nat, names: seq<Name>): nat
    decreases |names|
  {
    if names == [] then n
    else if n >= NINODES then NULLINUM
    else
      var m := DirLookup(su, d, n, names[0]);
      if m == NULLINUM then NULLINUM else Walk(su, d, m, names[1..])
  }

  predicate AllShort(names: seq<Name>)
  {
    forall i :: 0 <= i < |names| ==> |names[i]| <= MAXNAME
  }

  /** `fs_lookup`. A name that does not fit the buffer ends the search with nothing found. */
  function FsLookup(su: Super, d: Image, path: seq<byte>): nat
  {
    if |path| > MAXPATH - 1 || path == [] || path[0] != SLASH then NULLINUM
    else if !AllShort(Names(path[1..])) then NULLINUM
    else Walk(su, d, ROOTINUM, Names(path[1..]))
  }

  /** What the loop of `fs_lookup` comes to: an inode, 0 if nothing was found, or a store past the
      end of the name buffer: the terminator of a name of exactly 14 bytes has no room. */
  datatype Search = Found(inum: nat) | Overrun

  /** The loop of `fs_lookup` from inode n on, over the names still to look up. */
  function Seek(su: Super, d: Image, n: nat, names: seq<Name>): Search
    decreases |names|
  {
    if names == [] then Found(n)
    else if |names[0]| > MAXNAME then Found(NULLINUM)
    else if |names[0]| == MAXNAME then Overrun
    else if n >= NINODES then Found(NULLINUM)
    else
      var m := DirLookup(su, d, n, names[0]);
      if m == NULLINUM then Found(NULLINUM) else Seek(su, d, m, names[1..])
  }

  function SeekPath(su: Super, d: Image, path: seq<byte>): Search
  {
    if |path| > MAXPATH - 1 || path == [] || path[0] != SLASH then Found(NULLINUM)
    else Seek(su, d, ROOTINUM, Names(path[1..]))
  }

  /** Name k fills the buffer, and the search gets that far: the names before it resolve and are shorter. */
  ghost predicate OverrunAt(su: Super, d: Image, n: nat, names: seq<Name>, k: nat)
  {
    && k < |names| && |names[k]| == MAXNAME
    && (forall i | 0 <= i < k :: |names[i]| < MAXNAME)
    && Walk(su, d, n, names[..k]) != NULLINUM
  }

  ghost predicate CanOverrun(su: Super, d: Image, n: nat, names: seq<Name>)
  {
    exists k: nat :: OverrunAt(su, d, n, names, k)
  }

  lemma OverrunLater(su: Super, d: Image, n: nat, names: seq<Name>, k: nat)
    requires names != [] && |names[0]| < MAXNAME && k > 0 && n < NINODES
    ensures var m := DirLookup(su, d, n, names[0]);
      OverrunAt(su, d, n, names, k) <==> m != NULLINUM && OverrunAt(su, d, m, names[1..], k - 1)
  {
    hide DirLookup;
    if k < |names| {
      assert names[..k][1..] == names[1..][..k - 1];
      assert forall i :: 0 <= i < k - 1 ==> names[1..][i] == names[i + 1];
      assert (forall i | 0 <= i < k :: |names[i]| < MAXNAME)
        <==> (forall i | 0 <= i < k - 1 :: |names[1..][i]| < MAXNAME);
    }
  }

  /** A search overruns the buffer exactly if some prefix of the names resolves, all its names are
      shorter than 14 bytes, and the next one has 14. */
  lemma {:induction false} SeekOverruns(su: Super, d: Image, n: nat, names: seq<Name>)
    requires n != NULLINUM
    ensures Seek(su, d, n, names).Overrun? <==> CanOverrun(su, d, n, names)
    decreases |names|
  {
    hide DirLookup, OverrunAt;
    if names != [] && |names[0]| < MAXNAME && n < NINODES {
      var m := DirLookup(su, d, n, names[0]);
      NoOverrunFirst(su, d, n, names);
      forall k: nat | k > 0
        ensures OverrunAt(su, d, n, names, k) <==> m != NULLINUM && OverrunAt(su, d, m, names[1..], k - 1)
      {
        OverrunLater(su, d, n, names, k);
      }
      if m != NULLINUM {
        SeekOverruns(su, d, m, names[1..]);
        if k: nat :| OverrunAt(su, d, m, names[1..], k) {
          assert OverrunAt(su, d, n, names, k + 1);
        }
      }
    } else {
      OverrunAtOnce(su, d, n, names);
    }
  }

  lemma NoOverrunFirst(su: Super, d: Image, n: nat, names: seq<Name>)
    requires names != [] && |names[0]| < MAXNAME
    ensures !OverrunAt(su, d, n, names, 0)
  {
  }

  lemma OverrunAtOnce(su: Super, d: Image, n: nat, names: seq<Name>)
    requires n != NULLINUM && !(names != [] && |names[0]| < MAXNAME && n < NINODES)
    ensures CanOverrun(su, d, n, names) <==> names != [] && |names[0]| == MAXNAME
  {
    if names != [] {
      assert names[..0] == [];
      if |names[0]| == MAXNAME {
        assert OverrunAt(su, d, n, names, 0);
      }
    }
  }

  /** A search that does not overrun comes to what `FsLookup` says. */
  lemma {:induction false} SeekIsWalk(su: Super, d: Image, n: nat, names: seq<Name>)
    requires !Seek(su, d, n, names).Overrun?
    ensures Seek(su, d, n, names) == Found(if AllShort(names) then Walk(su, d, n, names) else NULLINUM)
    decreases |names|
  {
    hide DirLookup;
    if names != [] {
      assert AllShort(names) <==> |names[0]| <= MAXNAME && AllShort(names[1..]) by {
        assert forall i :: 0 <= i < |names[1..]| ==> names[1..][i] == names[i + 1];
      }
      if |names[0]| < MAXNAME && n < NINODES && DirLookup(su, d, n, names[0]) != NULLINUM {
        SeekIsWalk(su, d, DirLookup(su, d, n, names[0]), names[1..]);
      }
    }
  }

  /** `fs_lookup` overruns its name buffer exactly if a prefix of the path's names resolves and the
      next name fills the buffer; otherwise it finds what `FsLookup` says. */
  lemma LookupOverruns(su: Super, d: Image, path: seq<byte>)
    ensures SeekPath(su, d, path).Overrun? <==>
      0 < |path| < MAXPATH && path[0] == SLASH && CanOverrun(su, d, ROOTINUM, Names(path[1..]))
    ensures !SeekPath(su, d, path).Overrun? ==> SeekPath(su, d, path) == Found(FsLookup(su, d, path))
  {
    hide Names, CanOverrun, Seek, Walk;
    if 0 < |path| < MAXPATH && path[0] == SLASH {
      SeekOverruns(su, d, ROOTINUM, Names(path[1..]));
      if !SeekPath(su, d, path).Overrun? {
        SeekIsWalk(su, d, ROOTINUM, Names(path[1..]));
      }
    }
  }

  /** "/" followed by a name of 14 bytes overruns the buffer on every disk. */
  lemma OverrunExample(su: Super, d: Image, name: Name)
    requires |name| == MAXNAME && NoSlash(name)
    ensures SeekPath(su, d, [SLASH] + name).Overrun?
  {
    hide DirLookup;
    var path := [SLASH] + name;
    assert path[1..] == name;
    NamesOfName(name);
  }

  lemma NamesOfName(name: Name)
    requires name != [] && NoSlash(name)
    ensures Names(name) == [name]
  {
    NamesAppend([], name, []);
    assert [] + name + [] == name;
  }

  /** Absolute paths of up to 63 bytes are walked, unless a name is longer than 14; all others find nothing. */
  lemma LookupLimits(su: Super, d: Image, path: seq<byte>)
    ensures FsLookup(su, d, path) ==
      if 1 <= |path| <= 63 && path[0] == '/' as int then
        var names := Names(path[1..]);
        if forall i :: 0 <= i < |names| ==> |names[i]| <= 14 then Walk(su, d, 1, names) else 0
      else 0
  {
    hide Walk, Names;
  }

  // ----- inode allocation -----

  /** The first inode from k on whose type is zero, or the number of inodes scanned. */
  function FirstFreeInode(su: Super, d: Image, k: nat): (r: nat)
    requires k <= NINODES
    ensures k <= r <= NINODES
    ensures r < NINODES ==> InodeAt(su, d, r).typ == 0
    ensures forall j :: k <= j < r ==> InodeAt(su, d, j).typ != 0
    decreases NINODES - k
  {
    if k == NINODES || InodeAt(su, d, k).typ == 0 then k else FirstFreeInode(su, d, k + 1)
  }

  lemma {:induction false} FirstFreeIs(su: Super, d: Image, from: nat, k: nat)
    requires from <= k <= NINODES && (k < NINODES ==> InodeAt(su, d, k).typ == 0)
    requires forall j :: from <= j < k ==> InodeAt(su, d, j).typ != 0
    ensures FirstFreeInode(su, d, from) == k
    decreases NINODES - from
  {
    hide InodeAt;
    if from < k {
      FirstFreeIs(su, d, from + 1, k);
    }
  }

  function NewInode(typ: u16): Dinode
  {
    Dinode(typ, 0, 0, 0, 0, NoPtrs())
  }

  /** `alloc_inode` */
  function AllocInode(su: Super, d: Image, typ: u16): (r: (Image, nat))
    ensures |r.0| == |d| && r.1 < NINODES
  {
    if typ > T_DEV then (d, NULLINUM)
    else
      var k := FirstFreeInode(su, d, 0);
      if k == NINODES then (d, NULLINUM) else (WriteInode(su, d, k, NewInode(typ)), k)
  }

  /** `free_inode` of an inode without blocks. */
  function FreeInode(su: Super, d: Image, n: nat): (r: Image)
    ensures |r| == |d|
  {
    WriteInode(su, d, n, Freed(InodeAt(su, d, n)))
  }

  function Freed(di: Dinode): Dinode
  {
    Dinode(0, di.major, di.minor, di.linkcnt, di.size, di.ptrs)
  }

  /** Inode n lost its type, and no other inode changed. */
  ghost predicate TypeCleared(su: Super, d: Image, e: Image, n: nat)
  {
    var was := InodeAt(su, d, n);
    && InodeAt(su, e, n) == Dinode(0, was.major, was.minor, was.linkcnt, was.size, was.ptrs)
    && forall m: nat | m != n :: InodeAt(su, e, m) == InodeAt(su, d, m)
  }

  /** What freeing an inode without blocks does. */
  lemma Freeing(su: Super, d: Image, n: nat)
    ensures su.sinode + n / 8 < |d| ==> TypeCleared(su, d, FreeInode(su, d, n), n)
  {
    hide InodeAt, WriteInode;
    if su.sinode + n / 8 < |d| {
      forall m: nat ensures InodeAt(su, FreeInode(su, d, n), m) ==
        if m == n then Freed(InodeAt(su, d, n)) else InodeAt(su, d, m)
      {
        InodeReadWrite(su, d, n, Freed(InodeAt(su, d, n)), m);
      }
    }
  }

  function Linked(di: Dinode): Dinode
  {
    Dinode(di.typ, di.major, di.minor, (di.linkcnt + 1) % 0x1_0000, di.size, di.ptrs)
  }

  /** `fs_mknod` once the parent directory n and the new name are known. */
  function MakeNode(su: Super, d: Image, n: nat, name: Name, typ: u16): (r: (Image, nat))
    requires n < NINODES && |name| < MAXNAME
    ensures |r.0| == |d| && r.1 < NINODES
  {
    var (d1, m) := AllocInode(su, d, typ);
    if m == NULLINUM then (d1, NULLINUM)
    else
      var w := InodeRw(su, d1, n, EncodeDirent(m, name), DIRENT, InodeAt(su, d, n).size, true);
      if w.n != DIRENT then (FreeInode(su, w.d, m), NULLINUM)
      else (WriteInode(su, w.d, m, Linked(InodeAt(su, w.d, m))), m)
  }

  /** `fs_mknod`: the disk afterwards and the new inode, 0 when nothing was made. */
  function FsMknod(su: Super, d: Image, path: seq<byte>, typ: u16): (r: (Image, nat))
    ensures |r.0| == |d| && r.1 < NINODES
  {
    match GetName(path)
    case NoName => (d, NULLINUM)
    case Split(parent, name) =>
      var n := FsLookup(su, d, parent);
      if n == NULLINUM || n >= NINODES || InodeAt(su, d, n).typ != T_DIR then (d, NULLINUM)
      else if DirLookup(su, d, n, name) != NULLINUM then (d, NULLINUM)
      else MakeNode(su, d, n, name, typ)
  }
}

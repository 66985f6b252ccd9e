/** The tree of names read off a disk, and how `fs_mknod` changes it. */
module Namespace {
  import opened Bytes
  import opened Layout
  import opened Tree
  import opened WriteProof
  import opened File
  import opened Path
  import opened Directory
  import NameTree

  function EntryAt(su: Super, d: Image, n: nat, i: nat): NameTree.Entry
    requires n < NINODES && (i + 1) * DIRENT <= CAPBYTES
  {
    NameTree.Entry(DirentInum(Record(su, d, n, i)), DirentName(Record(su, d, n, i)))
  }

  function Listing(su: Super, d: Image, n: nat): (s: seq<NameTree.Entry>)
    requires n < NINODES
    ensures |s| == Records(su, d, n)
    ensures forall i :: 0 <= i < |s| ==> s[i] == EntryAt(su, d, n, i)
  {
    seq(Records(su, d, n), i requires 0 <= i < Records(su, d, n) => EntryAt(su, d, n, i))
  }

  function NodeOf(su: Super, d: Image, n: nat): NameTree.Node
    requires n < NINODES
  {
    var di := InodeAt(su, d, n);
    NameTree.Node(di.typ, if di.typ == 0 then 0 else di.linkcnt, if di.typ == T_DIR then Listing(su, d, n) else [])
  }

  function SpaceOf(su: Super, d: Image): (s: NameTree.Space)
    ensures forall n :: 0 <= n < NINODES ==> s[n] == NodeOf(su, d, n)
  {
    seq(NINODES, n requires 0 <= n < NINODES => NodeOf(su, d, n))
  }

  // ----- looking up on the disk is looking up in the tree -----

  lemma {:induction false} ScanAgrees(su: Super, d: Image, n: nat, name: Name, i: nat)
    requires n < NINODES && i <= Records(su, d, n)
    ensures Scan(su, d, n, name, i) == NameTree.Find(Listing(su, d, n), name, i)
    decreases Records(su, d, n) - i
  {
    hide Record, Records, InodeAt;
    if i < Records(su, d, n) && DirentName(Record(su, d, n, i)) != name {
      ScanAgrees(su, d, n, name, i + 1);
    }
  }

  lemma LookupAgrees(su: Super, d: Image, n: nat, name: Name)
    requires n < NINODES
    ensures DirLookup(su, d, n, name) == NameTree.Lookup(SpaceOf(su, d), n, name)
  {
    hide Record, Records, InodeAt;
    ScanAgrees(su, d, n, name, 0);
  }

  lemma {:induction false} WalkAgrees(su: Super, d: Image, n: nat, names: seq<Name>)
    ensures Walk(su, d, n, names) == NameTree.Walk(SpaceOf(su, d), n, names)
    decreases |names|
  {
    hide DirLookup, SpaceOf;
    if names != [] && n < NINODES {
      LookupAgrees(su, d, n, names[0]);
      WalkAgrees(su, d, DirLookup(su, d, n, names[0]), names[1..]);
    }
  }

  // ----- the invariant -----

  /** A free inode has no blocks and no size; a directory holds whole records. */
  ghost predicate InodesSane(su: Super, d: Image)
  {
    forall n: nat {:trigger InodeAt(su, d, n)} | n < NINODES ::
      var di := InodeAt(su, d, n);
      && di.typ <= T_DEV
      && (di.typ == 0 ==> di.ptrs == NoPtrs() && di.size == 0)
      && (di.typ == T_DIR ==> di.size % DIRENT == 0 && di.size <= CAPBYTES)
  }

  /** A file is zero from its size on. */
  ghost predicate Tidy(su: Super, d: Image)
  {
    forall n: nat, k: nat {:trigger FileByte(su, d, n, k)} |
      n < NINODES && k < CAPBYTES && InodeAt(su, d, n).size <= k :: FileByte(su, d, n, k) == 0
  }

  /** The invariant of a file system: its forest, its inodes and its names. */
  ghost predicate Inv(su: Super, d: Image, own: Owners, par: NameTree.Places, dep: NameTree.Depths)
  {
    && Good(su, d, own)
    && InodesSane(su, d)
    && Tidy(su, d)
    && NameTree.WellNamed(SpaceOf(su, d), par, dep)
  }

  lemma InvGood(su: Super, d: Image, own: Owners, par: NameTree.Places, dep: NameTree.Depths)
    requires Inv(su, d, own, par, dep)
    ensures Good(su, d, own) && su.ninodes == NINODES && su.nblockDat / 8 <= BLOCKSIZE
  {
  }

  ghost predicate Consistent(su: Super, d: Image)
  {
    exists own: Owners, par: NameTree.Places, dep: NameTree.Depths :: Inv(su, d, own, par, dep)
  }

  /** Directory sizes stay far below the capacity: there are not enough inodes to name. */
  lemma DirectorySize(su: Super, d: Image, own: Owners, par: NameTree.Places, dep: NameTree.Depths, n: nat)
    requires Inv(su, d, own, par, dep) && n < NINODES && InodeAt(su, d, n).typ == T_DIR
    ensures InodeAt(su, d, n).size == DIRENT * Records(su, d, n) <= DIRENT * (NINODES - 2)
  {
    hide Good, Tidy, InodeAt;
    NameTree.DirectoryBound(SpaceOf(su, d), par, dep, n);
  }

  // ----- disks that read the same -----

  /** File n has the same bytes on both disks. */
  ghost predicate SameContent(su: Super, d: Image, e: Image, n: nat)
    requires n < NINODES
  {
    forall k: nat {:trigger FileByte(su, e, n, k)} | k < CAPBYTES :: FileByte(su, e, n, k) == FileByte(su, d, n, k)
  }

  ghost predicate SameBytes(su: Super, d: Image, e: Image)
  {
    forall n: nat, k: nat {:trigger FileByte(su, e, n, k)} |
      n < NINODES && k < CAPBYTES :: FileByte(su, e, n, k) == FileByte(su, d, n, k)
  }

  lemma SameTreesBytes(su: Super, d: Image, own: Owners, e: Image)
    requires Good(su, d, own) && SameTrees(su, d, e)
    ensures SameBytes(su, d, e)
  {
    hide Good, SameTrees, Content;
    forall n: nat, k: nat {:trigger FileByte(su, e, n, k)} | n < NINODES && k < CAPBYTES
      ensures FileByte(su, e, n, k) == FileByte(su, d, n, k)
    {
      SameTreesContent(su, d, own, e, LeafAddr(n, k / BLOCKSIZE));
    }
  }

  /** Replacing inode m by one with the same pointers. */
  lemma ReplaceInode(su: Super, d: Image, own: Owners, m: nat, di: Dinode)
    requires Good(su, d, own) && m < NINODES && di.ptrs == InodeAt(su, d, m).ptrs
    ensures var e := WriteInode(su, d, m, di);
      && Good(su, e, own) && SameBytes(su, d, e) && PlainKept(su, d, e)
      && InodeAt(su, e, m) == di
      && (forall k: nat | k < NINODES && k != m :: InodeAt(su, e, k) == InodeAt(su, d, k))
  {
    hide WriteInode, InodeAt, Forest, BitmapExact;
    ReplaceOnly(su, d, m, di);
    hide Good;
    SameTreesGood(su, d, own, WriteInode(su, d, m, di));
    SameTreesBytes(su, d, own, WriteInode(su, d, m, di));
  }

  lemma ReplaceOnly(su: Super, d: Image, m: nat, di: Dinode)
    requires WellLaid(su, |d|) && m < NINODES && di.ptrs == InodeAt(su, d, m).ptrs
    ensures var e := WriteInode(su, d, m, di);
      && SameTrees(su, d, e) && PlainKept(su, d, e)
      && InodeAt(su, e, m) == di
      && (forall k: nat | k < NINODES && k != m :: InodeAt(su, e, k) == InodeAt(su, d, k))
  {
    hide GetInode, PutInode;
    var e := WriteInode(su, d, m, di);
    forall k: nat | k < NINODES ensures InodeAt(su, e, k) == if k == m then di else InodeAt(su, d, k) {
      InodeReadWrite(su, d, m, di, k);
    }
    hide InodeAt;
  }

  lemma SameRecord(su: Super, d: Image, e: Image, n: nat, i: nat)
    requires n < NINODES && (i + 1) * DIRENT <= CAPBYTES
    requires forall k: nat {:trigger FileByte(su, e, n, k)} |
      i * DIRENT <= k < (i + 1) * DIRENT :: FileByte(su, e, n, k) == FileByte(su, d, n, k)
    ensures Record(su, e, n, i) == Record(su, d, n, i)
  {
    hide FileByte;
  }

  /** A directory with the same size and bytes has the same records. */
  lemma SameNode(su: Super, d: Image, e: Image, n: nat)
    requires n < NINODES && Meta(InodeAt(su, e, n)) == Meta(InodeAt(su, d, n))
    requires SameContent(su, d, e, n)
    ensures NodeOf(su, e, n) == NodeOf(su, d, n)
  {
    hide FileByte, Record, InodeAt;
    forall i: nat | i < Records(su, d, n) ensures EntryAt(su, e, n, i) == EntryAt(su, d, n, i) {
      SameRecord(su, d, e, n, i);
    }
    assert Listing(su, e, n) == Listing(su, d, n);
  }
}

/** What `fs_mknod` does to a consistent file system. */
module Mknod {
  import opened Bytes
  import opened Layout
  import opened Tree
  import opened ReadWrite
  import opened WriteProof
  import opened File
  import opened Path
  import opened Directory
  import opened Namespace
  import NameTree

  // ----- the new inode -----

  /** d with the free inode m taken for the given type. */
  ghost predicate Allocated(su: Super, d: Image, m: nat, typ: u16, e: Image)
    requires m < NINODES
  {
    && InodeAt(su, d, m).typ == 0
    && InodeAt(su, e, m) == NewInode(typ)
    && (forall k: nat | k < NINODES && k != m :: InodeAt(su, e, k) == InodeAt(su, d, k))
    && SameBytes(su, d, e) && PlainKept(su, d, e)
  }

  /** An inode as it is when it was just made: its type and link count, and zeros. */
  predicate JustMade(di: Dinode, typ: int, links: int)
  {
    && di.typ == typ && di.major == 0 && di.minor == 0 && di.linkcnt == links && di.size == 0
    && forall i :: 0 <= i < 13 ==> di.ptrs[i] == 0
  }

  lemma AllocStep(su: Super, d: Image, own: Owners, typ: u16)
    requires Good(su, d, own) && InodesSane(su, d)
    ensures var (e, m) := AllocInode(su, d, typ);
      if m == NULLINUM then (InodeAt(su, d, 0).typ == 0 || e == d)
      else
        && Good(su, e, own) && Allocated(su, d, m, typ, e) && typ <= T_DEV && m == FirstFreeInode(su, d, 0)
        && JustMade(InodeAt(su, e, m), typ, 0)
  {
    hide Good, InodeAt, PlainKept, SameBytes, WriteInode;
    if typ <= T_DEV {
      var k := FirstFreeInode(su, d, 0);
      if k < NINODES {
        ReplaceInode(su, d, own, k, NewInode(typ));
      }
    }
  }

  // ----- the record -----

  /** e is d1 with one record for m appended to directory n. */
  ghost predicate Appended(su: Super, d: Image, n: nat, m: u16, name: Name, e: Image)
    requires n < NINODES && |name| < MAXNAME
  {
    && MetaButSize(InodeAt(su, e, n)) == MetaButSize(InodeAt(su, d, n))
    && InodeAt(su, e, n).size == InodeAt(su, d, n).size + DIRENT
    && (forall k: nat | k < NINODES && k != n :: InodeAt(su, e, k) == InodeAt(su, d, k))
    && PlainKept(su, d, e)
    && (forall k: nat, b: nat {:trigger FileByte(su, e, k, b)} | k < NINODES && b < CAPBYTES ::
          FileByte(su, e, k, b) ==
            if k == n && InodeAt(su, d, n).size <= b < InodeAt(su, d, n).size + DIRENT
            then EncodeDirent(m, name)[b - InodeAt(su, d, n).size] else FileByte(su, d, k, b))
  }

  /** e has no byte changed, and only pointers of n. */
  ghost predicate NotAppended(su: Super, d: Image, n: nat, e: Image)
    requires n < NINODES
  {
    && SameBytes(su, d, e)
    && Meta(InodeAt(su, e, n)) == Meta(InodeAt(su, d, n))
    && forall k: nat | k < NINODES && k != n :: InodeAt(su, e, k) == InodeAt(su, d, k)
  }

  /** The append of one record moves all of it or nothing. */
  lemma AppendStep(su: Super, d: Image, own: Owners, n: nat, m: u16, name: Name) returns (own': Owners)
    requires Good(su, d, own) && n < NINODES && |name| < MAXNAME
    requires InodeAt(su, d, n).size % DIRENT == 0 && InodeAt(su, d, n).size + DIRENT <= CAPBYTES
    ensures var w := InodeRw(su, d, n, EncodeDirent(m, name), DIRENT, InodeAt(su, d, n).size, true);
      && Good(su, w.d, own') && PlainKept(su, d, w.d) && Extends(own, own')
      && (w.n == DIRENT ==> Appended(su, d, n, m, name, w.d))
      && (w.n != DIRENT ==> w.n == 0 && DiskFull(su, w.d) && NotAppended(su, d, n, w.d))
  {
    hide Good, InodeAt, FileByte, InodeRw, PlainKept, DiskFull, EncodeDirent, WrittenMapped, MapEffect,
         ShortExplained, Stop;
    var off := InodeAt(su, d, n).size;
    own' := WriteRefinesView(su, d, own, n, EncodeDirent(m, name), DIRENT, off);
    var w := InodeRw(su, d, n, EncodeDirent(m, name), DIRENT, off, true);
    if w.n != DIRENT {
      ShortAppend(su, off, w);
    }
  }

  lemma ShortAppend(su: Super, off: u32, w: Result)
    requires ShortExplained(su, DIRENT, off, w) && 0 <= w.n < DIRENT && off % DIRENT == 0 && off + DIRENT <= CAPBYTES
    ensures w.n == 0 && DiskFull(su, w.d)
  {
    hide DiskFull;
    Aligned(off, w.n);
  }

  lemma Aligned(off: nat, n: nat)
    requires off % DIRENT == 0 && n < DIRENT && (n == 0 || (off + n) % BLOCKSIZE == 0)
    ensures n == 0
  {
    if n != 0 {
      NotBetween(off / DIRENT, 32 * ((off + n) / BLOCKSIZE), n);
    }
  }

  lemma NotBetween(a: nat, b: nat, n: nat)
    ensures DIRENT * a + n == DIRENT * b && n < DIRENT ==> n == 0
  {
  }

  lemma AppendedListing(su: Super, d: Image, n: nat, m: u16, name: Name, e: Image)
    requires n < NINODES && |name| < MAXNAME && CString(name) && Appended(su, d, n, m, name, e)
    requires InodeAt(su, d, n).size % DIRENT == 0 && InodeAt(su, d, n).size + DIRENT <= CAPBYTES
    ensures Listing(su, e, n) == Listing(su, d, n) + [NameTree.Entry(m, name)]
  {
    hide FileByte, Record, InodeAt, DirentName, DirentInum, EncodeDirent, PlainKept, MetaButSize;
    var c := Records(su, d, n);
    assert Records(su, e, n) == c + 1 && InodeAt(su, d, n).size == DIRENT * c;
    forall i: nat | i < c ensures EntryAt(su, e, n, i) == EntryAt(su, d, n, i) {
      SameRecord(su, d, e, n, i);
    }
    NewRecord(su, d, n, m, name, e);
    assert EntryAt(su, e, n, c) == NameTree.Entry(m, name);
  }

  lemma NewRecord(su: Super, d: Image, n: nat, m: u16, name: Name, e: Image)
    requires n < NINODES && |name| < MAXNAME && CString(name) && Appended(su, d, n, m, name, e)
    requires InodeAt(su, d, n).size % DIRENT == 0 && InodeAt(su, d, n).size + DIRENT <= CAPBYTES
    ensures (Records(su, d, n) + 1) * DIRENT <= CAPBYTES
    ensures EntryAt(su, e, n, Records(su, d, n)) == NameTree.Entry(m, name)
  {
    hide FileByte, InodeAt, DirentName, DirentInum, EncodeDirent, PlainKept, MetaButSize;
    DirentRoundTrip(m, name);
    assert Record(su, e, n, Records(su, d, n)) == EncodeDirent(m, name);
  }

  // ----- the whole creation -----

  /** The parent n is a directory of the tree, and the name is free in it. */
  ghost predicate CanMake(su: Super, d: Image, own: Owners, par: NameTree.Places, dep: NameTree.Depths,
                          n: nat, name: Name, typ: u16)
  {
    && Inv(su, d, own, par, dep) && 1 <= n < NINODES && InodeAt(su, d, n).typ == T_DIR
    && NameTree.GoodName(name) && DirLookup(su, d, n, name) == NULLINUM && 1 <= typ
  }

  /** What a successful creation of inode m leaves. */
  ghost predicate Made(su: Super, d: Image, n: nat, name: Name, typ: u16, m: nat, e: Image)
    requires n < NINODES && m < NINODES && |name| < MAXNAME
  {
    && InodeAt(su, d, m).typ == 0
    && InodeAt(su, e, m) == Linked(NewInode(typ))
    && SpaceOf(su, e) == NameTree.Added(SpaceOf(su, d), n, name, m, typ)
    && PlainKept(su, d, e)
    && InodeAt(su, e, n).size == InodeAt(su, d, n).size + DIRENT
    && MetaButSize(InodeAt(su, e, n)) == MetaButSize(InodeAt(su, d, n))
    && (forall k: nat | k < NINODES && k != n && k != m :: InodeAt(su, e, k) == InodeAt(su, d, k))
    && (forall k: nat, b: nat {:trigger FileByte(su, e, k, b)} | k < NINODES && b < CAPBYTES ::
          FileByte(su, e, k, b) ==
            if k == n && InodeAt(su, d, n).size <= b < InodeAt(su, d, n).size + DIRENT
            then EncodeDirent(m, name)[b - InodeAt(su, d, n).size] else FileByte(su, d, k, b))
  }

  /** A creation that fails leaves every file as it was. */
  ghost predicate Unmade(su: Super, d: Image, e: Image)
  {
    && SpaceOf(su, e) == SpaceOf(su, d)
    && SameBytes(su, d, e) && PlainKept(su, d, e)
    && forall k: nat {:trigger InodeAt(su, e, k)} | k < NINODES ::
         InodeAt(su, e, k).typ == InodeAt(su, d, k).typ && InodeAt(su, e, k).size == InodeAt(su, d, k).size
         && (InodeAt(su, d, k).typ != 0 ==> Meta(InodeAt(su, e, k)) == Meta(InodeAt(su, d, k)))
         && (InodeAt(su, d, k).typ == 0 ==> InodeAt(su, e, k).ptrs == InodeAt(su, d, k).ptrs)
  }

  lemma MadeSpace(su: Super, d: Image, d1: Image, d2: Image, e: Image, n: nat, m: u16, name: Name, typ: u16)
    requires n < NINODES && m < NINODES && n != m && |name| < MAXNAME && CString(name)
    requires InodeAt(su, d, n).typ == T_DIR
    requires InodeAt(su, d, n).size % DIRENT == 0 && InodeAt(su, d, n).size + DIRENT <= CAPBYTES
    requires Allocated(su, d, m, typ, d1) && Appended(su, d1, n, m, name, d2) && 1 <= typ
    requires SameBytes(su, d2, e) && InodeAt(su, e, m) == Linked(NewInode(typ))
    requires forall k: nat | k < NINODES && k != m :: InodeAt(su, e, k) == InodeAt(su, d2, k)
    ensures SpaceOf(su, e) == NameTree.Added(SpaceOf(su, d), n, name, m, typ)
  {
    hide FileByte, InodeAt, PlainKept, Listing, EncodeDirent;
    forall k: nat | k < NINODES
      ensures NodeOf(su, e, k) == NameTree.Added(SpaceOf(su, d), n, name, m, typ)[k]
    {
      if k == m {
        EmptyListing(su, e, m);
      } else if k == n {
        AppendedListing(su, d1, n, m, name, d2);
        SameNode(su, d, d1, n);
        SameNode(su, d2, e, n);
      } else {
        SameNode(su, d, e, k);
      }
    }
  }

  lemma EmptyListing(su: Super, d: Image, n: nat)
    requires n < NINODES && InodeAt(su, d, n).size == 0
    ensures Listing(su, d, n) == []
  {
    hide InodeAt, Record;
  }

  lemma UnmadeSpace(su: Super, d: Image, e: Image)
    requires SameBytes(su, d, e)
    requires forall k: nat {:trigger InodeAt(su, e, k)} | k < NINODES ::
         InodeAt(su, e, k).typ == InodeAt(su, d, k).typ
         && (InodeAt(su, d, k).typ != 0 ==> Meta(InodeAt(su, e, k)) == Meta(InodeAt(su, d, k)))
    ensures SpaceOf(su, e) == SpaceOf(su, d)
  {
    hide FileByte, InodeAt, Listing;
    forall k: nat | k < NINODES ensures NodeOf(su, e, k) == NodeOf(su, d, k) {
      if InodeAt(su, d, k).typ != 0 {
        assert Meta(InodeAt(su, e, k)) == Meta(InodeAt(su, d, k));
        SameNode(su, d, e, k);
      } else {
        assert InodeAt(su, e, k).typ == 0;
      }
    }
  }

  lemma RoomForRecord(su: Super, d: Image, own: Owners, par: NameTree.Places, dep: NameTree.Depths, n: nat)
    requires Inv(su, d, own, par, dep) && n < NINODES && InodeAt(su, d, n).typ == T_DIR
    ensures InodeAt(su, d, n).size % DIRENT == 0 && InodeAt(su, d, n).size + DIRENT <= CAPBYTES
    ensures InodeAt(su, d, n).size + DIRENT <= 10 * BLOCKSIZE
  {
    hide Good, InodeAt, Tidy;
    DirectorySize(su, d, own, par, dep, n);
  }

  lemma ReservedLive(su: Super, d: Image, own: Owners, par: NameTree.Places, dep: NameTree.Depths)
    requires Inv(su, d, own, par, dep)
    ensures InodeAt(su, d, 0).typ == T_DIR && InodeAt(su, d, 1).typ == T_DIR
  {
    hide Good, InodeAt, Tidy;
    var s := SpaceOf(su, d);
    assert s[0] == NodeOf(su, d, 0) && s[1] == NodeOf(su, d, 1);
  }

  /** Every inode is taken. */
  ghost predicate InodesTaken(su: Super, d: Image)
  {
    forall k: nat | k < NINODES :: InodeAt(su, d, k).typ != 0
  }

  /** `fs_mknod` below its checks: the new inode with its record, or nothing. */
  lemma MakeNodeStep(su: Super, d: Image, own: Owners, par: NameTree.Places, dep: NameTree.Depths,
                     n: nat, name: Name, typ: u16) returns (own': Owners)
    requires n < NINODES && |name| < MAXNAME && CanMake(su, d, own, par, dep, n, name, typ)
    ensures InodeAt(su, d, n).size + DIRENT < WORD
    ensures var (e, m) := MakeNode(su, d, n, name, typ);
      && Good(su, e, own') && Extends(own, own')
      && (if m == NULLINUM then Unmade(su, d, e) && (typ > T_DEV || InodesTaken(su, d) || DiskFull(su, e))
          else 2 <= m == FirstFreeInode(su, d, 0) && typ <= T_DEV && Made(su, d, n, name, typ, m, e))
  {
    hide Good, InodeAt, FileByte, PlainKept, Tidy, InodeRw, WriteInode, EncodeDirent, DiskFull, SpaceOf, DirLookup;
    RoomForRecord(su, d, own, par, dep, n);
    ReservedLive(su, d, own, par, dep);
    AllocStep(su, d, own, typ);
    var (d1, m) := AllocInode(su, d, typ);
    if m == NULLINUM {
      own' := own;
      UnmadeSame(su, d);
    } else {
      assert m >= 2 && m != n;
      own' := AppendStep(su, d1, own, n, m, name);
      var w := InodeRw(su, d1, n, EncodeDirent(m, name), DIRENT, InodeAt(su, d, n).size, true);
      if w.n == DIRENT {
        FinishMade(su, d, d1, w.d, own', n, m, name, typ);
      } else {
        FinishUnmade(su, d, d1, w.d, own', n, m, typ);
      }
    }
  }

  lemma UnmadeSame(su: Super, d: Image)
    ensures Unmade(su, d, d)
  {
    hide InodeAt, FileByte, SpaceOf;
  }

  lemma PlainTwice(su: Super, d: Image, e: Image, f: Image)
    requires PlainKept(su, d, e) && PlainKept(su, e, f)
    ensures PlainKept(su, d, f)
  {
  }

  lemma FinishMade(su: Super, d: Image, d1: Image, d2: Image, own: Owners, n: nat, m: u16, name: Name, typ: u16)
    requires n < NINODES && m < NINODES && n != m && |name| < MAXNAME && CString(name)
    requires InodeAt(su, d, n).typ == T_DIR
    requires InodeAt(su, d, n).size % DIRENT == 0 && InodeAt(su, d, n).size + DIRENT <= CAPBYTES
    requires Allocated(su, d, m, typ, d1) && Appended(su, d1, n, m, name, d2) && 1 <= typ && Good(su, d2, own)
    ensures var e := WriteInode(su, d2, m, Linked(InodeAt(su, d2, m)));
      Good(su, e, own) && Made(su, d, n, name, typ, m, e)
  {
    hide Good, InodeAt, FileByte, PlainKept, WriteInode, EncodeDirent, SpaceOf;
    var e := WriteInode(su, d2, m, Linked(InodeAt(su, d2, m)));
    ReplaceInode(su, d2, own, m, Linked(InodeAt(su, d2, m)));
    MadeSpace(su, d, d1, d2, e, n, m, name, typ);
    PlainTwice(su, d, d1, d2);
    PlainTwice(su, d, d2, e);
  }

  lemma InodeWriteFull(su: Super, d: Image, own: Owners, m: nat, di: Dinode)
    requires Good(su, d, own) && m < NINODES
    ensures DiskFull(su, d) ==> DiskFull(su, WriteInode(su, d, m, di))
  {
    hide Forest, BitmapExact, BitSet;
    assert ReadB(WriteInode(su, d, m, di), su.sbitmap) == ReadB(d, su.sbitmap);
  }

  lemma FinishUnmade(su: Super, d: Image, d1: Image, d2: Image, own: Owners, n: nat, m: nat, typ: u16)
    requires n < NINODES && m < NINODES && n != m && Good(su, d2, own) && InodesSane(su, d)
    requires InodeAt(su, d, n).typ != 0
    requires Allocated(su, d, m, typ, d1) && PlainKept(su, d1, d2) && NotAppended(su, d1, n, d2)
    ensures var e := FreeInode(su, d2, m);
      Good(su, e, own) && Unmade(su, d, e) && (DiskFull(su, d2) ==> DiskFull(su, e))
  {
    hide Good, InodeAt, FileByte, PlainKept, WriteInode, SpaceOf;
    var e := FreeInode(su, d2, m);
    ReplaceInode(su, d2, own, m, Freed(InodeAt(su, d2, m)));
    PlainTwice(su, d, d1, d2);
    PlainTwice(su, d, d2, e);
    InodeWriteFull(su, d2, own, m, Freed(InodeAt(su, d2, m)));
    forall k: nat {:trigger InodeAt(su, e, k)} | k < NINODES
      ensures InodeAt(su, e, k).typ == InodeAt(su, d, k).typ && InodeAt(su, e, k).size == InodeAt(su, d, k).size
           && (InodeAt(su, d, k).typ != 0 ==> Meta(InodeAt(su, e, k)) == Meta(InodeAt(su, d, k)))
           && (InodeAt(su, d, k).typ == 0 ==> InodeAt(su, e, k).ptrs == InodeAt(su, d, k).ptrs)
    {
      if k == m {
        assert InodeAt(su, d2, m) == NewInode(typ);
      } else if k != n {
        assert InodeAt(su, e, k) == InodeAt(su, d2, k) == InodeAt(su, d1, k) == InodeAt(su, d, k);
      }
    }
    UnmadeSpace(su, d, e);
  }

  // ----- the invariant -----

  lemma MadeSane(su: Super, d: Image, n: nat, name: Name, typ: u16, m: nat, e: Image)
    requires n < NINODES && 2 <= m < NINODES && n != m && |name| < MAXNAME && 1 <= typ <= T_DEV
    requires Made(su, d, n, name, typ, m, e)
    requires InodesSane(su, d) && InodeAt(su, d, n).typ == T_DIR && InodeAt(su, d, n).size + DIRENT <= CAPBYTES
    ensures InodesSane(su, e)
  {
    hide InodeAt, FileByte, SpaceOf, PlainKept;
    forall k: nat {:trigger InodeAt(su, e, k)} | k < NINODES
      ensures var di := InodeAt(su, e, k);
        && di.typ <= T_DEV
        && (di.typ == 0 ==> di.ptrs == NoPtrs() && di.size == 0)
        && (di.typ == T_DIR ==> di.size % DIRENT == 0 && di.size <= CAPBYTES)
    {
      assert InodeAt(su, d, k).typ <= T_DEV;
    }
  }

  lemma MadeTidy(su: Super, d: Image, n: nat, name: Name, typ: u16, m: nat, e: Image)
    requires n < NINODES && 2 <= m < NINODES && n != m && |name| < MAXNAME && Made(su, d, n, name, typ, m, e)
    requires InodesSane(su, d) && Tidy(su, d)
    ensures Tidy(su, e)
  {
    hide InodeAt, FileByte, SpaceOf, PlainKept;
    assert InodeAt(su, d, m).size == 0;
    forall k: nat, b: nat {:trigger FileByte(su, e, k, b)} |
      k < NINODES && b < CAPBYTES && InodeAt(su, e, k).size <= b ensures FileByte(su, e, k, b) == 0
    {
      assert FileByte(su, d, k, b) == 0 by {
        assert InodeAt(su, d, k).size <= b;
      }
    }
  }

  lemma UnmadeInv(su: Super, d: Image, own: Owners, par: NameTree.Places, dep: NameTree.Depths, e: Image, own': Owners)
    requires Inv(su, d, own, par, dep) && Unmade(su, d, e) && Good(su, e, own')
    ensures Inv(su, e, own', par, dep)
  {
    hide InodeAt, FileByte, SpaceOf, PlainKept, Good;
    assert InodesSane(su, e) by {
      forall k: nat {:trigger InodeAt(su, e, k)} | k < NINODES
        ensures var di := InodeAt(su, e, k);
          && di.typ <= T_DEV
          && (di.typ == 0 ==> di.ptrs == NoPtrs() && di.size == 0)
          && (di.typ == T_DIR ==> di.size % DIRENT == 0 && di.size <= CAPBYTES)
      {
        assert InodeAt(su, d, k).typ <= T_DEV;
      }
    }
  }

  lemma CanAddOnDisk(su: Super, d: Image, own: Owners, par: NameTree.Places, dep: NameTree.Depths,
                     n: nat, name: Name, typ: u16, m: nat)
    requires n < NINODES && CanMake(su, d, own, par, dep, n, name, typ)
    requires 2 <= m < NINODES && InodeAt(su, d, m).typ == 0
    ensures NameTree.CanAdd(SpaceOf(su, d), n, name, m, typ)
  {
    hide InodeAt, Good, Tidy, DirLookup, Listing;
    LookupAgrees(su, d, n, name);
    var s := SpaceOf(su, d);
    assert s[n] == NodeOf(su, d, n) && s[m] == NodeOf(su, d, m);
  }

  /** What `fs_mknod` leaves when it makes inode m at the given list of names. */
  ghost predicate Created(su: Super, d: Image, names: seq<Name>, typ: u16, m: nat, e: Image)
    requires m < NINODES
  {
    && InodeAt(su, d, m).typ == 0
    && InodeAt(su, e, m) == Linked(NewInode(typ))
    && (forall a {:trigger Walk(su, e, ROOTINUM, a)} ::
          Walk(su, e, ROOTINUM, a) == if a == names then m else Walk(su, d, ROOTINUM, a))
    && Walk(su, d, ROOTINUM, names) == NULLINUM
    && (forall k: nat | k < NINODES && k != m && InodeAt(su, d, k).typ != T_DIR ::
          InodeAt(su, e, k) == InodeAt(su, d, k))
    && (forall k: nat, b: nat {:trigger FileByte(su, e, k, b)} |
          k < NINODES && b < CAPBYTES && InodeAt(su, d, k).typ != T_DIR ::
          FileByte(su, e, k, b) == FileByte(su, d, k, b))
  }

  /** Where every list of names leads once the tree has the new record. */
  lemma MadeWalks(su: Super, d: Image, par: NameTree.Places, dep: NameTree.Depths, e: Image,
                  n: nat, name: Name, m: nat, typ: nat, up: seq<Name>)
    requires NameTree.WellNamed(SpaceOf(su, d), par, dep) && NameTree.CanAdd(SpaceOf(su, d), n, name, m, typ)
    requires n < NINODES && m < NINODES && SpaceOf(su, e) == NameTree.Added(SpaceOf(su, d), n, name, m, typ)
    requires Walk(su, d, ROOTINUM, up) == n
    ensures Walk(su, d, ROOTINUM, up + [name]) == NULLINUM
    ensures forall a {:trigger Walk(su, e, ROOTINUM, a)} ::
      Walk(su, e, ROOTINUM, a) == if a == up + [name] then m else Walk(su, d, ROOTINUM, a)
  {
    hide SpaceOf, Walk, NameTree.WellNamed, NameTree.CanAdd, NameTree.Added, NameTree.Walk;
    var s := SpaceOf(su, d);
    WalkAgrees(su, d, ROOTINUM, up);
    NameTree.AddedFound(s, par, dep, n, name, m, typ, up);
    WalkAgrees(su, d, ROOTINUM, up + [name]);
    forall a {:trigger Walk(su, e, ROOTINUM, a)}
      ensures Walk(su, e, ROOTINUM, a) == if a == up + [name] then m else Walk(su, d, ROOTINUM, a)
    {
      WalkAgrees(su, d, ROOTINUM, a);
      WalkAgrees(su, e, ROOTINUM, a);
      NameTree.AddedWalk(s, par, dep, n, name, m, typ, up, a);
    }
  }

  /** The tree with the new record is well named. */
  lemma MadeNamed(su: Super, d: Image, par: NameTree.Places, dep: NameTree.Depths, e: Image,
                  n: nat, name: Name, m: nat, typ: nat) returns (par': NameTree.Places, dep': NameTree.Depths)
    requires NameTree.WellNamed(SpaceOf(su, d), par, dep) && NameTree.CanAdd(SpaceOf(su, d), n, name, m, typ)
    requires n < NINODES && m < NINODES && SpaceOf(su, e) == NameTree.Added(SpaceOf(su, d), n, name, m, typ)
    ensures NameTree.WellNamed(SpaceOf(su, e), par', dep')
  {
    hide SpaceOf, NameTree.WellNamed, NameTree.CanAdd, NameTree.Added;
    var s := SpaceOf(su, d);
    NameTree.AddedWellNamed(s, par, dep, n, name, m, typ);
    par', dep' := par[m := NameTree.Place(n, |s[n].list|)], dep[m := dep[n] + 1];
  }

  lemma MadeCreated(su: Super, d: Image, own: Owners, par: NameTree.Places, dep: NameTree.Depths,
                    n: nat, name: Name, typ: u16, m: nat, e: Image, own': Owners, up: seq<Name>)
    returns (par': NameTree.Places, dep': NameTree.Depths)
    requires n < NINODES && |name| < MAXNAME && CanMake(su, d, own, par, dep, n, name, typ)
    requires 2 <= m < NINODES && Made(su, d, n, name, typ, m, e) && Good(su, e, own') && typ <= T_DEV
    requires Walk(su, d, ROOTINUM, up) == n
    ensures Inv(su, e, own', par', dep')
    ensures Created(su, d, up + [name], typ, m, e)
  {
    hide InodeAt, FileByte, PlainKept, Good, Walk, Tidy, InodesSane, SpaceOf, DirLookup, NewInode, Linked, EncodeDirent,
         NameTree.WellNamed, NameTree.CanAdd, NameTree.Added, MetaButSize;
    RoomForRecord(su, d, own, par, dep, n);
    assert n != m;
    MadeSane(su, d, n, name, typ, m, e);
    MadeTidy(su, d, n, name, typ, m, e);
    CanAddOnDisk(su, d, own, par, dep, n, name, typ, m);
    par', dep' := MadeNamed(su, d, par, dep, e, n, name, m, typ);
    MadeWalks(su, d, par, dep, e, n, name, m, typ, up);
  }

  /** The paths `fs_mknod` is called with: C strings that fit its buffers. */
  predicate GoodPath(path: seq<byte>)
  {
    CString(path) && |path| <= 63
  }

  /** The names under which a path is recorded: those a walk of the path looks up, except that "/"
      is recorded in the root under the empty name. */
  function Recorded(path: seq<byte>): seq<Name>
  {
    if path == [] then [] else if path == [SLASH] then [[]] else Names(path[1..])
  }

  /** The names of the parent and the name that `getname` returns are those under which the path is recorded. */
  lemma SplitRecorded(path: seq<byte>)
    requires path != [] && path[0] == SLASH && GetName(path).Split? && CString(path)
    ensures var s := GetName(path);
      && s.parent != [] && s.parent[0] == SLASH && NameTree.GoodName(s.name)
      && (path != [SLASH] ==> s.name != [])
      && Recorded(path) == Names(s.parent[1..]) + [s.name]
  {
    NamePart(path);
    if path == [SLASH] {
      assert path[..1] == path && path[1..1] == [];
    } else {
      hide Names, GetName;
      SplitAgreesWithWalk(path);
    }
  }

  lemma NamePart(path: seq<byte>)
    requires CString(path) && GetName(path).Split?
    ensures NameTree.GoodName(GetName(path).name)
  {
    var e := LastNonSlash(path, |path| - 1);
    var b := NameStart(path, e);
    assert forall k :: b <= k <= e ==> path[b..e + 1][k - b] == path[k];
  }

  lemma FoundIsLive(su: Super, d: Image, own: Owners, par: NameTree.Places, dep: NameTree.Depths, names: seq<Name>)
    requires Inv(su, d, own, par, dep) && Walk(su, d, ROOTINUM, names) != NULLINUM
    ensures 1 <= Walk(su, d, ROOTINUM, names) < NINODES
    ensures InodeAt(su, d, Walk(su, d, ROOTINUM, names)).typ != 0
  {
    hide Good, Tidy, InodesSane, Walk, InodeAt, Listing;
    ReservedLive(su, d, own, par, dep);
    WalkAgrees(su, d, ROOTINUM, names);
    var s := SpaceOf(su, d);
    assert s[1] == NodeOf(su, d, 1);
    NameTree.WalkLive(s, par, dep, ROOTINUM, names);
    var m := Walk(su, d, ROOTINUM, names);
    assert s[m] == NodeOf(su, d, m);
  }

  /** What a successful creation at a path leaves, and where the new inode is found. */
  ghost predicate CreatedAt(su: Super, d: Image, path: seq<byte>, typ: u16, m: nat, e: Image)
    requires m < NINODES
  {
    && path != [] && path[0] == SLASH && m >= 2
    && Created(su, d, Recorded(path), typ, m, e) && JustMade(InodeAt(su, e, m), typ, 1)
    && (path != [SLASH] ==> FsLookup(su, d, path) == NULLINUM && FsLookup(su, e, path) == m)
    && (path == [SLASH] ==> FsLookup(su, e, path) == ROOTINUM)
  }

  /** The reasons to refuse a creation before anything is written. */
  ghost predicate Refused(su: Super, d: Image, path: seq<byte>, typ: u16)
  {
    || typ > 3
    || InodesTaken(su, d)
    || match GetName(path)
       case NoName => true
       case Split(parent, name) =>
         var n := FsLookup(su, d, parent);
         n == NULLINUM || n >= NINODES || InodeAt(su, d, n).typ != T_DIR || DirLookup(su, d, n, name) != NULLINUM
  }

  /** The parent of the path and the new name in it, where inode m was made. */
  ghost predicate MadeAt(su: Super, d: Image, own: Owners, par: NameTree.Places, dep: NameTree.Depths,
                         path: seq<byte>, typ: u16, m: nat, e: Image)
    requires m < NINODES
  {
    && path != [] && path[0] == SLASH && GetName(path).Split?
    && GetName(path).parent != [] && GetName(path).parent[0] == SLASH
    && var name, up := GetName(path).name, Names(GetName(path).parent[1..]);
       var n := Walk(su, d, ROOTINUM, up);
       && 1 <= n < NINODES && FsLookup(su, d, GetName(path).parent) == n && Recorded(path) == up + [name]
       && CanMake(su, d, own, par, dep, n, name, typ)
       && 2 <= m == FirstFreeInode(su, d, 0) && typ <= T_DEV && Made(su, d, n, name, typ, m, e)
  }

  /** The checks of `fs_mknod` and what is behind them. */
  lemma MknodStep(su: Super, d: Image, own: Owners, par: NameTree.Places, dep: NameTree.Depths,
                  path: seq<byte>, typ: u16)
    returns (own': Owners)
    requires Inv(su, d, own, par, dep) && GoodPath(path) && 1 <= typ
    ensures var (e, m) := FsMknod(su, d, path, typ);
      && Good(su, e, own') && Extends(own, own')
      && (m == NULLINUM ==> Unmade(su, d, e) && (Refused(su, d, path, typ) || DiskFull(su, e)))
      && (m != NULLINUM ==> MadeAt(su, d, own, par, dep, path, typ, m, e))
  {
    hide Unmade, Made, InodeAt, DirLookup, MakeNode, SpaceOf, GetName, Walk, Names, DiskFull, InodesTaken, Good,
         FirstFreeInode, InodesSane, Tidy, NameTree.WellNamed, NameTree.GoodName, Recorded;
    own' := own;
    assert Good(su, d, own);
    hide Inv;
    UnmadeSame(su, d);
    match GetName(path)
    case NoName =>
    case Split(parent, name) =>
      ParentAbsolute(path);
      if FsLookup(su, d, parent) != NULLINUM {
        SplitRecorded(path);
        var up := Names(parent[1..]);
        var n := Walk(su, d, ROOTINUM, up);
        FoundIsLive(su, d, own, par, dep, up);
        if InodeAt(su, d, n).typ == T_DIR && DirLookup(su, d, n, name) == NULLINUM {
          own' := MakeNodeStep(su, d, own, par, dep, n, name, typ);
        }
      }
  }

  /** `fs_mknod` keeps the file system consistent. When it returns m != 0, the new inode m is found
      under the names of the path, and every other list of names leads where it led before; when it
      returns 0, no directory, no type, no size and no byte of any file has changed, and the reason
      is a wrong path or type, or that inodes or blocks ran out. */
  lemma CreateThenFind(su: Super, d: Image, own: Owners, par: NameTree.Places, dep: NameTree.Depths,
                       path: seq<byte>, typ: u16)
    returns (own': Owners, par': NameTree.Places, dep': NameTree.Depths)
    requires Inv(su, d, own, par, dep) && GoodPath(path) && 1 <= typ
    ensures var (e, m) := FsMknod(su, d, path, typ);
      && Inv(su, e, own', par', dep') && Extends(own, own')
      && (m == NULLINUM ==> Unmade(su, d, e))
      && (m == NULLINUM ==> Refused(su, d, path, typ) || DiskFull(su, e))
      && (m != NULLINUM ==> CreatedAt(su, d, path, typ, m, e))
  {
    hide Inv, Unmade, CreatedAt, DiskFull, Refused, MadeAt, FsMknod, Extends, Good, GoodPath;
    own' := MknodStep(su, d, own, par, dep, path, typ);
    var (e, m) := FsMknod(su, d, path, typ);
    if m == NULLINUM {
      par', dep' := par, dep;
      UnmadeInv(su, d, own, par, dep, e, own');
    } else {
      par', dep' := MadeFound(su, d, own, par, dep, path, typ, m, e, own');
    }
  }

  lemma MadeFound(su: Super, d: Image, own: Owners, par: NameTree.Places, dep: NameTree.Depths,
                  path: seq<byte>, typ: u16, m: nat, e: Image, own': Owners)
    returns (par': NameTree.Places, dep': NameTree.Depths)
    requires GoodPath(path) && m < NINODES && MadeAt(su, d, own, par, dep, path, typ, m, e) && Good(su, e, own')
    ensures Inv(su, e, own', par', dep') && CreatedAt(su, d, path, typ, m, e)
  {
    hide Inv, Created, CreatedAt, Made, CanMake, Recorded, Good, GetName, FsLookup, AllShort, Names, Walk,
         FirstFreeInode;
    var up, name := Names(GetName(path).parent[1..]), GetName(path).name;
    FoundShort(su, d, GetName(path).parent, name);
    par', dep' := MadeCreated(su, d, own, par, dep, Walk(su, d, ROOTINUM, up), name, typ, m, e, own', up);
    CreatedFound(su, d, path, typ, m, e);
  }

  lemma FoundShort(su: Super, d: Image, parent: seq<byte>, name: Name)
    requires FsLookup(su, d, parent) != NULLINUM && |name| < MAXNAME
    ensures AllShort(Names(parent[1..]) + [name])
  {
    hide Names, Walk;
  }

  lemma CreatedFound(su: Super, d: Image, path: seq<byte>, typ: u16, m: nat, e: Image)
    requires path != [] && path[0] == SLASH && 2 <= m < NINODES && Created(su, d, Recorded(path), typ, m, e)
    requires |path| < MAXPATH && AllShort(Recorded(path))
    ensures CreatedAt(su, d, path, typ, m, e)
  {
    hide Names, Walk, FileByte, InodeAt;
    if path == [SLASH] {
      assert path[1..] == [];
      RootItself(su, e);
    }
  }

  lemma RootItself(su: Super, d: Image)
    ensures FsLookup(su, d, [SLASH]) == ROOTINUM
  {
    assert [SLASH][1..] == [];
  }

  lemma ParentAbsolute(path: seq<byte>)
    requires GetName(path).Split?
    ensures GetName(path).parent != [] && GetName(path).parent[0] == SLASH ==> path != [] && path[0] == SLASH
  {
  }

  /** The inode `fs_mknod` would have to free again has no blocks. */
  lemma NewInodePointerless(su: Super, d: Image, n: nat, name: Name, typ: u16)
    requires Consistent(su, d) && n < NINODES && InodeAt(su, d, n).typ == T_DIR && |name| < MAXNAME
    ensures InodeAt(su, d, n).size + DIRENT < WORD
    ensures var (d1, m) := AllocInode(su, d, typ);
      m != NULLINUM ==>
        var w := InodeRw(su, d1, n, EncodeDirent(m, name), DIRENT, InodeAt(su, d, n).size, true);
        InodeAt(su, w.d, m) == NewInode(typ)
  {
    hide InodeAt, FileByte, PlainKept, Tidy, InodeRw, WriteInode, EncodeDirent, DiskFull, SpaceOf, Good, InodesSane,
         NameTree.WellNamed, SameBytes, FirstFreeInode;
    var own, par, dep :| Inv(su, d, own, par, dep);
    RoomForRecord(su, d, own, par, dep, n);
    ReservedLive(su, d, own, par, dep);
    AllocStep(su, d, own, typ);
    var (d1, m) := AllocInode(su, d, typ);
    if m != NULLINUM {
      var _ := AppendStep(su, d1, own, n, m, name);
    }
  }

  lemma ConsistentFound(su: Super, d: Image, path: seq<byte>)
    requires Consistent(su, d)
    ensures FsLookup(su, d, path) < NINODES
  {
    var own, par, dep :| Inv(su, d, own, par, dep);
    hide Inv, Walk, InodeAt;
    if FsLookup(su, d, path) != NULLINUM {
      FoundIsLive(su, d, own, par, dep, Names(path[1..]));
    }
  }

  /** `fs_mknod` keeps a file system consistent. */
  lemma MknodConsistent(su: Super, d: Image, path: seq<byte>, typ: u16)
    requires Consistent(su, d) && GoodPath(path) && 1 <= typ
    ensures Consistent(su, FsMknod(su, d, path, typ).0)
  {
    var own, par, dep :| Inv(su, d, own, par, dep);
    hide Inv, FsMknod, GoodPath;
    var own', par', dep' := CreateThenFind(su, d, own, par, dep, path, typ);
  }
}

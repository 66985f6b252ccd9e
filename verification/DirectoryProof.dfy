/** Facts the directory routines rely on: what their reads deliver and why their assertions hold. */
module DirectoryProof {
  import opened Bytes
  import opened Layout
  import opened Tree
  import opened ReadWrite
  import opened File
  import opened Path
  import opened Directory
  import opened Namespace
  import opened Memory
  import opened Mknod
  import ReadProof
  import NameTree

  /** A directory whose records can be scanned: its size is in range and its names are terminated. */
  ghost predicate Scannable(su: Super, d: Image, n: nat)
    requires n < NINODES
  {
    && su.ninodes == NINODES
    && InodeAt(su, d, n).size <= CAPBYTES
    && forall i: nat | i < Records(su, d, n) :: Terminated(Record(su, d, n, i)[2..])
  }

  /** Reading 16 bytes at a multiple of 16 delivers one record. */
  lemma RecordRead(su: Super, d: Image, n: nat, buf: seq<byte>, i: nat)
    requires n < NINODES && Scannable(su, d, n) && i < Records(su, d, n) && |buf| == DIRENT
    ensures i * DIRENT + DIRENT < WORD
    ensures var r := InodeRw(su, d, n, buf, DIRENT, i * DIRENT, false);
      r.n == DIRENT && r.buf == Record(su, d, n, i) && r.d == d
  {
    hide InodeRw, InodeAt, FileByte, ReadProof.RunsOutOfHole;
    ReadProof.SmallReadSafe(su, d, n, i * DIRENT, DIRENT);
    ReadProof.ReadRefinesView(su, d, n, buf, DIRENT, i * DIRENT);
    ReadProof.ReadChangesNothing(su, d, n, buf, DIRENT, i * DIRENT);
  }

  /** In a consistent file system every directory can be scanned, and a name leads to a live inode. */
  lemma ConsistentScan(su: Super, d: Image, n: nat)
    requires Consistent(su, d) && n < NINODES && InodeAt(su, d, n).typ == T_DIR
    ensures Scannable(su, d, n)
    ensures forall name :: DirLookup(su, d, n, name) < NINODES
  {
    var own, par, dep :| Inv(su, d, own, par, dep);
    InvScan(su, d, own, par, dep, n);
    forall name ensures DirLookup(su, d, n, name) < NINODES {
      InvLookup(su, d, own, par, dep, n, name);
    }
  }

  lemma InvLookup(su: Super, d: Image, own: Owners, par: NameTree.Places, dep: NameTree.Depths, n: nat, name: Name)
    requires Inv(su, d, own, par, dep) && n < NINODES
    ensures DirLookup(su, d, n, name) < NINODES
  {
    hide Good, InodesSane, Tidy, NameTree.WellNamed, DirLookup, SpaceOf;
    LookupAgrees(su, d, n, name);
    if DirLookup(su, d, n, name) != NULLINUM {
      NameTree.LookupPlace(SpaceOf(su, d), par, dep, n, name);
    }
  }

  lemma InvScan(su: Super, d: Image, own: Owners, par: NameTree.Places, dep: NameTree.Depths, n: nat)
    requires Inv(su, d, own, par, dep) && n < NINODES && InodeAt(su, d, n).typ == T_DIR
    ensures Scannable(su, d, n)
  {
    hide Forest, Tidy, InodeAt, Record, CStr;
    var s := SpaceOf(su, d);
    assert s[n].list == Listing(su, d, n);
    forall i: nat | i < Records(su, d, n) ensures Terminated(Record(su, d, n, i)[2..]) {
      assert s[n].list[i] == EntryAt(su, d, n, i);
      assert NameTree.GoodName(s[n].list[i].name);
    }
  }

  /** One turn of the loop of `fs_lookup`: the name at the front of what is left of the path. */
  lemma SeekStep(su: Super, d: Image, n: nat, p: seq<byte>)
    requires p != [] && n < NINODES && !Seek(su, d, n, Names(p)).Overrun?
    ensures |Head(p)| != MAXNAME
    ensures |Head(p)| > MAXNAME ==> Seek(su, d, n, Names(p)) == Found(NULLINUM)
    ensures |Head(p)| < MAXNAME && DirLookup(su, d, n, Head(p)) == NULLINUM ==>
      Seek(su, d, n, Names(p)) == Found(NULLINUM)
    ensures |Head(p)| < MAXNAME && DirLookup(su, d, n, Head(p)) != NULLINUM ==>
      Seek(su, d, n, Names(p)) == Seek(su, d, DirLookup(su, d, n, Head(p)), Names(Rest(p)))
  {
    hide DirLookup, Head, Rest;
    var ns := Names(p);
    assert ns == [Head(p)] + Names(Rest(p));
    assert ns[0] == Head(p) && ns[1..] == Names(Rest(p));
  }

  lemma ScanIs(su: Super, d: Image, n: nat, name: Name, from: nat, i: nat)
    requires n < NINODES && from <= i <= Records(su, d, n)
    requires forall j: nat | from <= j < i :: DirentName(Record(su, d, n, j)) != name
    requires i < Records(su, d, n) ==> DirentName(Record(su, d, n, i)) == name
    ensures Scan(su, d, n, name, from) == i
    decreases i - from
  {
    hide Record, Records;
    if from < i {
      ScanIs(su, d, n, name, from + 1, i);
    }
  }

  lemma ConsistentLaid(su: Super, d: Image)
    requires Consistent(su, d)
    ensures su.ninodes == NINODES && su.nblockInode == NINODES / NINODES_PER_BLOCK && su.nblockDat / 8 <= BLOCKSIZE
    ensures InodeAt(su, d, ROOTINUM).typ == T_DIR
  {
    var own, par, dep :| Inv(su, d, own, par, dep);
    ReservedLive(su, d, own, par, dep);
    hide InodeAt;
  }

  lemma SeekDone(su: Super, d: Image, n: nat)
    ensures Seek(su, d, n, Names([])) == Found(n)
  {
  }

  lemma {:induction false} OverrunWalk(su: Super, d: Image, own: Owners, par: NameTree.Places, dep: NameTree.Depths,
                                       n: nat, names: seq<Name>)
    requires Inv(su, d, own, par, dep) && Seek(su, d, n, names).Overrun?
    ensures Walk(su, d, n, names) == NULLINUM
    decreases |names|
  {
    hide Inv, DirLookup;
    if n < NINODES && DirLookup(su, d, n, names[0]) != NULLINUM {
      ShortNames(su, d, own, par, dep, n, names[0]);
      OverrunWalk(su, d, own, par, dep, DirLookup(su, d, n, names[0]), names[1..]);
    }
  }

  lemma ShortNames(su: Super, d: Image, own: Owners, par: NameTree.Places, dep: NameTree.Depths, n: nat, name: Name)
    requires Inv(su, d, own, par, dep) && n < NINODES && DirLookup(su, d, n, name) != NULLINUM
    ensures |name| < MAXNAME
  {
    hide Good, InodesSane, Tidy, DirLookup, SpaceOf;
    LookupAgrees(su, d, n, name);
    NameTree.LookupPlace(SpaceOf(su, d), par, dep, n, name);
  }

  /** No file has a name that fills the buffer, so for a lookup that overruns it `FsLookup` says that
      nothing is found. */
  lemma OverrunFindsNothing(su: Super, d: Image, path: seq<byte>)
    requires Consistent(su, d) && SeekPath(su, d, path).Overrun?
    ensures FsLookup(su, d, path) == NULLINUM
  {
    var own, par, dep :| Inv(su, d, own, par, dep);
    hide Inv, Names, Seek, Walk;
    OverrunWalk(su, d, own, par, dep, ROOTINUM, Names(path[1..]));
  }

  /** `fs_mknod` looks its parent up without overrunning the name buffer. */
  predicate ParentFits(su: Super, d: Image, path: seq<byte>)
  {
    GetName(path).Split? ==> !SeekPath(su, d, GetName(path).parent).Overrun?
  }
}

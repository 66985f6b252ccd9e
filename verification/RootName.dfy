/** Creating at "/": `getname` splits it into "/" and an empty name, so `fs_mknod` records a new inode
    under the empty name in the root, where "/" does not find it. */
module RootName {
  import opened Bytes
  import opened Layout
  import opened Tree
  import opened ReadWrite
  import opened ReadProof
  import opened Path
  import opened Directory
  import opened Namespace
  import opened Mknod
  import opened Runs
  import opened Persistence
  import NameTree

  /** No list of names with an empty one in it leads anywhere. */
  ghost predicate ProperNames(su: Super, d: Image)
  {
    forall a {:trigger Walk(su, d, ROOTINUM, a)} :: Walk(su, d, ROOTINUM, a) != NULLINUM ==> [] !in a
  }

  lemma SlashSplit()
    ensures GetName([SLASH]) == Split([SLASH], []) && Names([SLASH]) == [[]]
  {
    var p := [SLASH];
    assert p[..1] == p && p[1..1] == [] && p[1..] == [];
    assert Head(p) == [] && Rest(p) == [];
  }

  lemma DoubleSlash(su: Super, d: Image)
    ensures FsLookup(su, d, [SLASH, SLASH]) == Walk(su, d, ROOTINUM, [[]])
  {
    hide Walk;
    SlashSplit();
    assert [SLASH, SLASH][1..] == [SLASH];
  }

  /** The names a path other than "/" is recorded under are not empty, if those of its parent are not. */
  lemma RecordedProper(su: Super, d: Image, own: Owners, par: NameTree.Places, dep: NameTree.Depths,
                       path: seq<byte>, typ: u16, m: nat, e: Image)
    requires m < NINODES && CString(path) && path != [SLASH] && ProperNames(su, d)
    requires MadeAt(su, d, own, par, dep, path, typ, m, e)
    ensures [] !in Recorded(path)
  {
    hide Made, CanMake, FirstFreeInode, GetName, Names, Walk, Recorded;
    SplitRecorded(path);
  }

  /** A creation is found again at its path exactly if the path is not "/", and then it keeps names proper. */
  lemma CreationExactly(su: Super, d: Image, own: Owners, par: NameTree.Places, dep: NameTree.Depths,
                        path: seq<byte>, typ: u16)
    requires Inv(su, d, own, par, dep) && GoodPath(path) && 1 <= typ
    requires FsMknod(su, d, path, typ).1 != NULLINUM
    ensures var (e, m) := FsMknod(su, d, path, typ);
      && Consistent(su, e)
      && (FsLookup(su, e, path) == m <==> path != [SLASH])
      && (ProperNames(su, d) ==> (ProperNames(su, e) <==> path != [SLASH]))
  {
    hide Inv, FsMknod, Walk, InodeAt, MadeAt, FsLookup, Recorded;
    var own', par', dep' := CreateThenFind(su, d, own, par, dep, path, typ);
    var _ := MknodStep(su, d, own, par, dep, path, typ);
    var (e, m) := FsMknod(su, d, path, typ);
    if path == [SLASH] {
      assert Recorded(path) == [[]] by { SlashRecorded(); }
      assert Walk(su, e, ROOTINUM, [[]]) == m;
    } else if ProperNames(su, d) {
      RecordedProper(su, d, own, par, dep, path, typ, m, e);
    }
  }

  lemma SlashRecorded()
    ensures Recorded([SLASH]) == [[]]
  {
  }

  /** What happens at "/": on a disk with a free inode and no empty names, a new inode is made unless
      the disk is full. "/" still leads to the root; "//", of all paths, leads to the new inode. */
  lemma SlashCreation(su: Super, d: Image, own: Owners, par: NameTree.Places, dep: NameTree.Depths, typ: u16)
    requires Inv(su, d, own, par, dep) && ProperNames(su, d) && 1 <= typ <= T_DEV && !InodesTaken(su, d)
    ensures var (e, m) := FsMknod(su, d, [SLASH], typ);
      if m == NULLINUM then DiskFull(su, e) else
        && m >= 2 && FsLookup(su, e, [SLASH]) == ROOTINUM
        && FsLookup(su, d, [SLASH, SLASH]) == NULLINUM && FsLookup(su, e, [SLASH, SLASH]) == m
  {
    hide Inv, FsMknod, Walk, InodeAt, FsLookup, Recorded, Unmade, DiskFull, InodesTaken, Names;
    var own', par', dep' := CreateThenFind(su, d, own, par, dep, [SLASH], typ);
    var (e, m) := FsMknod(su, d, [SLASH], typ);
    SlashRecorded();
    if m == NULLINUM {
      SlashAccepted(su, d, own, par, dep, typ);
    } else {
      DoubleSlash(su, d);
      DoubleSlash(su, e);
      assert Walk(su, e, ROOTINUM, [[]]) == m;
    }
  }

  lemma SlashAccepted(su: Super, d: Image, own: Owners, par: NameTree.Places, dep: NameTree.Depths, typ: u16)
    requires Inv(su, d, own, par, dep) && ProperNames(su, d) && 1 <= typ <= T_DEV && !InodesTaken(su, d)
    ensures !Refused(su, d, [SLASH], typ)
  {
    hide Inv, InodeAt, DirLookup, InodesTaken, Names, GetName, ProperNames;
    SlashSplit();
    RootItself(su, d);
    ReservedLive(su, d, own, par, dep);
    EmptyNameFree(su, d);
  }

  lemma EmptyNameFree(su: Super, d: Image)
    requires ProperNames(su, d)
    ensures DirLookup(su, d, ROOTINUM, []) == NULLINUM
  {
    hide DirLookup;
    var a: seq<Name> := [[]];
    assert a[0] == [] && a[1..] == [];
    assert Walk(su, d, ROOTINUM, a) == DirLookup(su, d, ROOTINUM, []);
  }

  // ----- over whole runs -----

  /** The call makes an inode at "/". */
  predicate MakesEmpty(su: Super, d: Image, op: Op)
  {
    op.Make? && op.path == [SLASH] && FsMknod(su, d, op.path, op.typ).1 != NULLINUM
  }

  predicate NeverMakesEmpty(su: Super, d: Image, ops: seq<Op>)
    decreases |ops|
  {
    ops != [] ==> !MakesEmpty(su, d, ops[0]) && NeverMakesEmpty(su, Step(su, d, ops[0]), ops[1..])
  }

  lemma SameWalks(su: Super, d: Image, e: Image)
    requires forall a {:trigger Walk(su, e, ROOTINUM, a)} :: Walk(su, e, ROOTINUM, a) == Walk(su, d, ROOTINUM, a)
    ensures ProperNames(su, e) <==> ProperNames(su, d)
  {
    hide Walk;
    if ProperNames(su, e) {
      forall a {:trigger Walk(su, d, ROOTINUM, a)} | Walk(su, d, ROOTINUM, a) != NULLINUM ensures [] !in a {
        assert Walk(su, e, ROOTINUM, a) != NULLINUM;
      }
    }
  }

  lemma MakeProper(su: Super, d: Image, own: Owners, par: NameTree.Places, dep: NameTree.Depths,
                   path: seq<byte>, typ: u16)
    requires Inv(su, d, own, par, dep) && GoodPath(path) && 1 <= typ
    ensures var (e, m) := FsMknod(su, d, path, typ);
      ProperNames(su, e) <==> ProperNames(su, d) && !(path == [SLASH] && m != NULLINUM)
  {
    hide Inv, FsMknod, Walk, SpaceOf, GoodPath, InodeAt, ProperNames;
    var (e, m) := FsMknod(su, d, path, typ);
    if m == NULLINUM {
      var _, _, _ := CreateThenFind(su, d, own, par, dep, path, typ);
      forall a {:trigger Walk(su, e, ROOTINUM, a)} ensures Walk(su, e, ROOTINUM, a) == Walk(su, d, ROOTINUM, a) {
        SameSpaceWalk(su, d, e, a);
      }
      SameWalks(su, d, e);
    } else if ProperNames(su, d) {
      CreationExactly(su, d, own, par, dep, path, typ);
    } else {
      var a := Improper(su, d);
      MakeKeepsPath(su, d, own, par, dep, path, typ, a);
      ImproperStays(su, e, a);
    }
  }

  lemma Improper(su: Super, d: Image) returns (a: seq<Name>)
    requires !ProperNames(su, d)
    ensures Walk(su, d, ROOTINUM, a) != NULLINUM && [] in a
  {
    hide Walk;
    a :| Walk(su, d, ROOTINUM, a) != NULLINUM && [] in a;
  }

  lemma ImproperStays(su: Super, e: Image, a: seq<Name>)
    requires Walk(su, e, ROOTINUM, a) != NULLINUM && [] in a
    ensures !ProperNames(su, e)
  {
    hide Walk;
  }

  lemma StepProper(su: Super, d: Image, own: Owners, par: NameTree.Places, dep: NameTree.Depths, op: Op)
    requires Inv(su, d, own, par, dep) && Allowed(su, d, op)
    ensures ProperNames(su, Step(su, d, op)) <==> ProperNames(su, d) && !MakesEmpty(su, d, op)
  {
    hide Inv, FsMknod, Walk, GoodPath, InodeAt, ProperNames, InodeRw;
    match op
    case Make(path, typ) => MakeProper(su, d, own, par, dep, path, typ);
    case Write(n, data, off) =>
      var e := InodeRw(su, d, n, data, |data|, off, true).d;
      forall a {:trigger Walk(su, e, ROOTINUM, a)} ensures Walk(su, e, ROOTINUM, a) == Walk(su, d, ROOTINUM, a) {
        WriteKeepsPath(su, d, own, par, dep, n, data, off, a);
      }
      SameWalks(su, d, e);
    case Read(n, buf, sz, off) => ReadChangesNothing(su, d, n, buf, sz, off);
    case Find(_) =>
  }

  /** A run leaves an empty name behind exactly if some call of it made an inode at "/". */
  lemma {:induction false} RunProper(su: Super, d: Image, own: Owners, par: NameTree.Places, dep: NameTree.Depths,
                                     ops: seq<Op>)
    requires Inv(su, d, own, par, dep) && AllAllowed(su, d, ops)
    ensures ProperNames(su, Run(su, d, ops)) <==> ProperNames(su, d) && NeverMakesEmpty(su, d, ops)
    decreases |ops|
  {
    hide Inv, Step, Allowed, ProperNames, MakesEmpty;
    if ops != [] {
      StepProper(su, d, own, par, dep, ops[0]);
      var own', par', dep' := StepKeepsInv(su, d, own, par, dep, ops[0]);
      RunProper(su, Step(su, d, ops[0]), own', par', dep', ops[1..]);
    }
  }

  /** A formatted partition has no names at all. */
  lemma EmptyProper(su: Super, d: Image)
    requires EmptyFs(su, d)
    ensures ProperNames(su, d)
  {
    hide Inv, InodeAt, Record, DirentName, DirentInum;
    assert InodeAt(su, d, ROOTINUM) == NewInode(T_DIR);
    forall a {:trigger Walk(su, d, ROOTINUM, a)} | Walk(su, d, ROOTINUM, a) != NULLINUM ensures [] !in a {
    }
  }
}

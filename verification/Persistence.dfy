/** What later calls leave alone: over any run, paths keep leading where they led, and a file
    that is not written keeps its size and bytes. */
module Persistence {
  import opened Bytes
  import opened Layout
  import opened Tree
  import opened ReadWrite
  import opened WriteProof
  import opened File
  import opened Path
  import opened Directory
  import opened Namespace
  import opened Mknod
  import opened Runs
  import opened ReadProof
  import NameTree

  lemma SameSpaceWalk(su: Super, d: Image, e: Image, names: seq<Name>)
    requires SpaceOf(su, e) == SpaceOf(su, d)
    ensures Walk(su, e, ROOTINUM, names) == Walk(su, d, ROOTINUM, names)
  {
    hide Walk, SpaceOf;
    WalkAgrees(su, d, ROOTINUM, names);
    WalkAgrees(su, e, ROOTINUM, names);
  }

  lemma MakeKeepsPath(su: Super, d: Image, own: Owners, par: NameTree.Places, dep: NameTree.Depths,
                      path: seq<byte>, typ: u16, names: seq<Name>)
    requires Inv(su, d, own, par, dep) && GoodPath(path) && 1 <= typ && Walk(su, d, ROOTINUM, names) != NULLINUM
    ensures Walk(su, FsMknod(su, d, path, typ).0, ROOTINUM, names) == Walk(su, d, ROOTINUM, names)
  {
    hide Inv, FsMknod, GoodPath, Walk, InodeAt, SpaceOf, Names, Recorded;
    var own', par', dep' := CreateThenFind(su, d, own, par, dep, path, typ);
    var (e, m) := FsMknod(su, d, path, typ);
    if m == NULLINUM {
      SameSpaceWalk(su, d, e, names);
    } else {
      assert Walk(su, e, ROOTINUM, names) == if names == Recorded(path) then m else Walk(su, d, ROOTINUM, names);
    }
  }

  lemma WriteKeepsPath(su: Super, d: Image, own: Owners, par: NameTree.Places, dep: NameTree.Depths,
                       n: nat, data: seq<byte>, off: u32, names: seq<Name>)
    requires Inv(su, d, own, par, dep) && n < NINODES
    requires InodeAt(su, d, n).typ != T_DIR && InodeAt(su, d, n).typ != 0
    ensures Walk(su, InodeRw(su, d, n, data, |data|, off, true).d, ROOTINUM, names) == Walk(su, d, ROOTINUM, names)
  {
    hide InodeAt, InodeRw, Walk, SpaceOf, WriteEffect, Good;
    var own' := WriteRefinesView(su, d, own, n, data, |data|, off);
    var r := InodeRw(su, d, n, data, |data|, off, true);
    WriteKeepsSpace(su, d, own, n, data, off, r, own');
    SameSpaceWalk(su, d, r.d, names);
  }

  lemma StepKeepsPath(su: Super, d: Image, own: Owners, par: NameTree.Places, dep: NameTree.Depths,
                      op: Op, names: seq<Name>)
    requires Inv(su, d, own, par, dep) && Allowed(su, d, op) && Walk(su, d, ROOTINUM, names) != NULLINUM
    ensures Walk(su, Step(su, d, op), ROOTINUM, names) == Walk(su, d, ROOTINUM, names)
  {
    hide Inv, FsMknod, InodeRw, GoodPath, Walk, InodeAt;
    match op
    case Make(path, typ) => MakeKeepsPath(su, d, own, par, dep, path, typ, names);
    case Write(n, data, off) => WriteKeepsPath(su, d, own, par, dep, n, data, off, names);
    case Read(n, buf, sz, off) => ReadChangesNothing(su, d, n, buf, sz, off);
    case Find(_) =>
  }

  /** A path that leads to an inode leads to it for ever. */
  lemma {:induction false} RunKeepsPath(su: Super, d: Image, own: Owners, par: NameTree.Places, dep: NameTree.Depths,
                                        ops: seq<Op>, names: seq<Name>)
    requires Inv(su, d, own, par, dep) && AllAllowed(su, d, ops) && Walk(su, d, ROOTINUM, names) != NULLINUM
    ensures Walk(su, Run(su, d, ops), ROOTINUM, names) == Walk(su, d, ROOTINUM, names)
    decreases |ops|
  {
    hide Inv, Step, Allowed, Walk;
    if ops != [] {
      StepKeepsPath(su, d, own, par, dep, ops[0], names);
      var own', par', dep' := StepKeepsInv(su, d, own, par, dep, ops[0]);
      RunKeepsPath(su, Step(su, d, ops[0]), own', par', dep', ops[1..], names);
    }
  }

  /** File n reads the same on both disks. */
  ghost predicate SameFile(su: Super, d: Image, e: Image, n: nat)
    requires n < NINODES
  {
    && Meta(InodeAt(su, e, n)) == Meta(InodeAt(su, d, n))
    && SameContent(su, d, e, n)
  }

  predicate Writes(op: Op, n: nat)
  {
    op.Write? && op.inum == n
  }

  lemma StepKeepsFile(su: Super, d: Image, own: Owners, par: NameTree.Places, dep: NameTree.Depths, op: Op, n: nat)
    requires Inv(su, d, own, par, dep) && Allowed(su, d, op) && n < NINODES && !Writes(op, n)
    requires InodeAt(su, d, n).typ != 0 && InodeAt(su, d, n).typ != T_DIR
    ensures SameFile(su, d, Step(su, d, op), n)
  {
    hide InodeAt, FileByte, FsMknod, InodeRw, GoodPath, Good, Walk, SpaceOf, PlainKept, InodesSane, Tidy,
         NameTree.WellNamed, DiskFull;
    match op
    case Make(path, typ) =>
      var own', par', dep' := CreateThenFind(su, d, own, par, dep, path, typ);
    case Write(m, data, off) =>
      var own' := WriteRefinesView(su, d, own, m, data, |data|, off);
    case Read(m, buf, sz, off) =>
      ReadChangesNothing(su, d, m, buf, sz, off);
    case Find(_) =>
  }

  lemma SameFileTwice(su: Super, d: Image, e: Image, f: Image, n: nat)
    requires n < NINODES && SameFile(su, d, e, n) && SameFile(su, e, f, n)
    ensures SameFile(su, d, f, n)
  {
    hide InodeAt, FileByte;
  }

  /** A file no call of the run writes has at the end the size, type and bytes it had at the start,
      whatever was created and written beside it and however often blocks ran out. */
  lemma {:induction false} RunKeepsFile(su: Super, d: Image, own: Owners, par: NameTree.Places, dep: NameTree.Depths,
                                        ops: seq<Op>, n: nat)
    requires Inv(su, d, own, par, dep) && AllAllowed(su, d, ops) && n < NINODES
    requires InodeAt(su, d, n).typ != 0 && InodeAt(su, d, n).typ != T_DIR
    requires forall i :: 0 <= i < |ops| ==> !Writes(ops[i], n)
    ensures SameFile(su, d, Run(su, d, ops), n)
    decreases |ops|
  {
    hide Inv, Step, Allowed, InodeAt, FileByte;
    if ops != [] {
      var e := Step(su, d, ops[0]);
      StepKeepsFile(su, d, own, par, dep, ops[0], n);
      assert InodeAt(su, e, n).typ == InodeAt(su, d, n).typ;
      var own', par', dep' := StepKeepsInv(su, d, own, par, dep, ops[0]);
      RunKeepsFile(su, e, own', par', dep', ops[1..], n);
      SameFileTwice(su, d, e, Run(su, d, ops), n);
    }
  }
}

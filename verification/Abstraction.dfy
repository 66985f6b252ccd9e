/** The file system without its disk: a tree of names and the bytes of every file. Over any run the
    calls return what this model says, and the disk it ends with is the model's. */
module Abstraction {
  import opened Bytes
  import opened Layout
  import opened Tree
  import opened ReadWrite
  import opened WriteProof
  import opened File
  import opened ReadProof
  import opened ReadExact
  import opened Path
  import opened Directory
  import opened Namespace
  import opened Mknod
  import opened Runs
  import NameTree

  /** A file: its size, and all bytes an inode can address. */
  datatype View = View(size: nat, bytes: seq<byte>)

  datatype Model = Model(tree: NameTree.Space, files: seq<View>)

  // ----- what the model does -----

  /** Bytes written over a file. */
  function Overlay(v: View, off: nat, data: seq<byte>): View
  {
    View(Max(v.size, off + |data|),
         seq(|v.bytes|, k requires 0 <= k < |v.bytes| => if off <= k < off + |data| then data[k - off] else v.bytes[k]))
  }

  /** The bytes [off, off + sz) of a file, up to its size. */
  function Part(v: View, off: nat, sz: nat): (s: seq<byte>)
    ensures |s| == Min(Min(sz, Max(0, v.size - off)), Max(0, |v.bytes| - off))
  {
    var len := Min(Min(sz, Max(0, v.size - off)), Max(0, |v.bytes| - off));
    if len == 0 then [] else v.bytes[off..off + len]
  }

  function TreeLookup(t: NameTree.Space, path: seq<byte>): nat
  {
    if |path| > MAXPATH - 1 || path == [] || path[0] != SLASH then NULLINUM
    else if !AllShort(Names(path[1..])) then NULLINUM
    else NameTree.Walk(t, ROOTINUM, Names(path[1..]))
  }

  /** The lowest inode from k on that is not in use, or the number of inodes. */
  function FirstFree(t: NameTree.Space, k: nat): (r: nat)
    requires k <= NINODES
    ensures k <= r <= NINODES
    decreases NINODES - k
  {
    if k == NINODES || !NameTree.Live(t, k) then k else FirstFree(t, k + 1)
  }

  /** A creation is refused for its type, its path, or because no inode is free. */
  predicate Refuses(t: NameTree.Space, path: seq<byte>, typ: u16)
  {
    || typ > 3
    || FirstFree(t, 0) == NINODES
    || match GetName(path)
       case NoName => true
       case Split(parent, name) =>
         var n := TreeLookup(t, parent);
         !NameTree.IsDir(t, n) || n == NULLINUM || NameTree.Lookup(t, n, name) != NULLINUM
  }

  /** What a call may return. Nothing is left open except that a creation or a write may find the disk full:
      `full` says whether it is full after the call. */
  predicate Explained(m: Model, op: Op, a: Answer, full: bool)
    requires |m.files| == NINODES
  {
    match op
    case Make(path, typ) =>
      a.Inode? && (if Refuses(m.tree, path, typ) then a.m == NULLINUM
                   else a.m == FirstFree(m.tree, 0) || (a.m == NULLINUM && full))
    case Write(_, data, off) =>
      && a.Took? && 0 <= a.n <= Min(|data|, Max(0, CAPBYTES - off))
      && (a.n < |data| ==> a.n == 0 || (off + a.n) % BLOCKSIZE == 0)
      && (a.n < |data| ==> full || (off + |data| > CAPBYTES && a.n == Max(0, CAPBYTES - off)))
    case Read(n, _, sz, off) =>
      a == if n >= NINODES then Gave(-1, []) else Gave(|Part(m.files[n], off, sz)|, Part(m.files[n], off, sz))
    case Find(path) => a == Inode(TreeLookup(m.tree, path))
  }

  /** What a call that returned a makes of the model. */
  function Next(m: Model, op: Op, a: Answer): (r: Model)
    requires |m.files| == NINODES
    ensures |r.files| == NINODES
  {
    match op
    case Make(path, typ) =>
      if a.Inode? && 0 < a.m < NINODES && GetName(path).Split? then
        var n, name := TreeLookup(m.tree, GetName(path).parent), GetName(path).name;
        if n >= NINODES then m else
          Model(NameTree.Added(m.tree, n, name, a.m, typ),
                m.files[n := Overlay(m.files[n], m.files[n].size, EncodeDirent(a.m, name))])
      else m
    case Write(n, data, off) =>
      if a.Took? && 0 <= a.n <= |data| && n < NINODES then
        Model(m.tree, m.files[n := Overlay(m.files[n], off, data[..a.n])])
      else m
    case Read(_, _, _, _) => m
    case Find(_) => m
  }

  predicate AllExplained(m: Model, ops: seq<Op>, answers: seq<Answer>, full: seq<bool>)
    requires |m.files| == NINODES && |answers| == |ops| == |full|
    decreases |ops|
  {
    ops != [] ==>
      && Explained(m, ops[0], answers[0], full[0])
      && AllExplained(Next(m, ops[0], answers[0]), ops[1..], answers[1..], full[1..])
  }

  function End(m: Model, ops: seq<Op>, answers: seq<Answer>): Model
    requires |m.files| == NINODES && |answers| == |ops|
    decreases |ops|
  {
    if ops == [] then m else End(Next(m, ops[0], answers[0]), ops[1..], answers[1..])
  }

  // ----- the model of a disk -----

  ghost function ViewOf(su: Super, d: Image, n: nat): (v: View)
    requires n < NINODES
    ensures v.size == InodeAt(su, d, n).size && |v.bytes| == CAPBYTES
    ensures forall k {:trigger v.bytes[k]} | 0 <= k < CAPBYTES :: v.bytes[k] == FileByte(su, d, n, k)
  {
    View(InodeAt(su, d, n).size, seq<byte>(CAPBYTES, k requires 0 <= k < CAPBYTES => FileByte(su, d, n, k)))
  }

  ghost function FilesOf(su: Super, d: Image): (s: seq<View>)
    ensures |s| == NINODES && forall n | 0 <= n < NINODES :: s[n] == ViewOf(su, d, n)
  {
    seq(NINODES, n requires 0 <= n < NINODES => ViewOf(su, d, n))
  }

  ghost function ModelOf(su: Super, d: Image): Model
  {
    Model(SpaceOf(su, d), FilesOf(su, d))
  }

  /** Whether the disk is full after each call of a run. */
  ghost function Fulls(su: Super, d: Image, ops: seq<Op>): (r: seq<bool>)
    ensures |r| == |ops|
    decreases |ops|
  {
    if ops == [] then [] else [DiskFull(su, Step(su, d, ops[0]))] + Fulls(su, Step(su, d, ops[0]), ops[1..])
  }

  /** A read does not overshoot a hole. */
  ghost predicate ReadSafe(su: Super, d: Image, op: Op)
  {
    op.Read? && op.rinum < NINODES ==>
      !Overshoots(su, d, op.rinum, op.roff, Clipped(su, d, op.rinum, op.sz, op.roff))
  }

  ghost predicate AllSafe(su: Super, d: Image, ops: seq<Op>)
    decreases |ops|
  {
    ops != [] ==> ReadSafe(su, d, ops[0]) && AllSafe(su, Step(su, d, ops[0]), ops[1..])
  }

  // ----- lookups -----

  lemma LookupIs(su: Super, d: Image, path: seq<byte>)
    ensures FsLookup(su, d, path) == TreeLookup(SpaceOf(su, d), path)
  {
    hide SpaceOf, Walk, NameTree.Walk, Names;
    if 0 < |path| < MAXPATH && path[0] == SLASH {
      WalkAgrees(su, d, ROOTINUM, Names(path[1..]));
    }
  }

  lemma {:induction false} FirstFreeAgrees(su: Super, d: Image, k: nat)
    requires k <= NINODES
    ensures FirstFreeInode(su, d, k) == FirstFree(SpaceOf(su, d), k)
    decreases NINODES - k
  {
    hide InodeAt, Listing;
    if k < NINODES {
      assert SpaceOf(su, d)[k] == NodeOf(su, d, k);
      FirstFreeAgrees(su, d, k + 1);
    }
  }

  lemma TypeIs(su: Super, d: Image, n: nat)
    requires n < NINODES
    ensures NameTree.IsDir(SpaceOf(su, d), n) <==> InodeAt(su, d, n).typ == T_DIR
  {
    hide InodeAt, Listing;
    assert SpaceOf(su, d)[n] == NodeOf(su, d, n);
  }

  // ----- reads -----

  lemma PartIs(su: Super, d: Image, n: nat, sz: nat, off: nat, r: Result)
    requires n < NINODES && ReadRight(su, d, n, sz, off, r)
    ensures 0 <= r.n <= |r.buf| && r.buf[..r.n] == Part(ViewOf(su, d, n), off, sz)
  {
    hide InodeAt, FileByte, ViewOf;
    var a, b := r.buf[..r.n], Part(ViewOf(su, d, n), off, sz);
    assert |a| == |b|;
    forall k | 0 <= k < |a| ensures a[k] == b[k] {
      assert r.buf[k] == FileByte(su, d, n, off + k) == ViewOf(su, d, n).bytes[off + k];
    }
  }

  lemma ReadRefines(su: Super, d: Image, own: Owners, op: Op)
    requires Good(su, d, own) && op.Read? && Allowed(su, d, op) && ReadSafe(su, d, op)
    ensures Step(su, d, op) == d
    ensures Explained(ModelOf(su, d), op, Reply(su, d, op), DiskFull(su, d))
  {
    assert su.ninodes == NINODES;
    hide Good, InodeAt, FileByte, InodeRw, Overshoots, SpaceOf, ViewOf, Part, ReadRight, DiskFull;
    ReadChangesNothing(su, d, op.rinum, op.buf, op.sz, op.roff);
    if op.rinum < NINODES {
      ReadRightWithout(su, d, op.rinum, op.buf, op.sz, op.roff);
      PartIs(su, d, op.rinum, op.sz, op.roff, InodeRw(su, d, op.rinum, op.buf, op.sz, op.roff, false));
    } else {
      NoSuchInode(su, d, op.rinum, op.buf, op.sz, op.roff, false);
    }
  }

  /** There are no inodes from 200 on: reads and writes are refused, and change nothing. */
  lemma NoSuchInode(su: Super, d: Image, n: nat, buf: seq<byte>, sz: nat, off: u32, w: bool)
    requires su.ninodes == NINODES && 200 <= n && sz <= |buf|
    ensures InodeRw(su, d, n, buf, sz, off, w) == Result(d, buf, -1)
  {
  }

  // ----- writes -----

  lemma OverlayIs(su: Super, d: Image, e: Image, n: nat, off: nat, data: seq<byte>)
    requires n < NINODES && InodeAt(su, e, n).size == Max(InodeAt(su, d, n).size, off + |data|)
    requires forall k: nat {:trigger FileByte(su, e, n, k)} | k < CAPBYTES ::
      FileByte(su, e, n, k) == if off <= k < off + |data| then data[k - off] else FileByte(su, d, n, k)
    ensures ViewOf(su, e, n) == Overlay(ViewOf(su, d, n), off, data)
  {
    hide InodeAt, FileByte, ViewOf;
    var a, b := ViewOf(su, e, n), Overlay(ViewOf(su, d, n), off, data);
    forall k | 0 <= k < CAPBYTES ensures a.bytes[k] == b.bytes[k] {
      assert a.bytes[k] == FileByte(su, e, n, k);
      assert ViewOf(su, d, n).bytes[k] == FileByte(su, d, n, k);
    }
    assert a.bytes == b.bytes;
  }

  lemma SameView(su: Super, d: Image, e: Image, n: nat)
    requires n < NINODES && InodeAt(su, e, n).size == InodeAt(su, d, n).size
    requires SameContent(su, d, e, n)
    ensures ViewOf(su, e, n) == ViewOf(su, d, n)
  {
    hide InodeAt, FileByte, ViewOf;
    var a, b := ViewOf(su, e, n), ViewOf(su, d, n);
    forall k | 0 <= k < CAPBYTES ensures a.bytes[k] == b.bytes[k] {
      assert a.bytes[k] == FileByte(su, e, n, k);
      assert b.bytes[k] == FileByte(su, d, n, k);
    }
    assert a.bytes == b.bytes;
  }

  lemma WrittenFiles(su: Super, d: Image, own: Owners, n: nat, data: seq<byte>, off: u32, r: Result, own': Owners)
    requires n < NINODES && WriteEffect(su, d, own, n, data, |data|, off, r, own')
    ensures FilesOf(su, r.d) == FilesOf(su, d)[n := Overlay(ViewOf(su, d, n), off, data[..r.n])]
  {
    hide Good, InodeAt, FileByte, ViewOf, PlainKept, Overlay, MetaButSize, Extends;
    OverlayIs(su, d, r.d, n, off, data[..r.n]);
    forall m: nat | m < NINODES && m != n ensures ViewOf(su, r.d, m) == ViewOf(su, d, m) {
      SameView(su, d, r.d, m);
    }
  }

  lemma WriteRefines(su: Super, d: Image, own: Owners, op: Op)
    requires Good(su, d, own) && op.Write? && Allowed(su, d, op)
    ensures Explained(ModelOf(su, d), op, Reply(su, d, op), DiskFull(su, Step(su, d, op)))
    ensures ModelOf(su, Step(su, d, op)) == Next(ModelOf(su, d), op, Reply(su, d, op))
  {
    hide Good, InodeAt, FileByte, InodeRw, SpaceOf, ViewOf, DiskFull, PlainKept, WrittenMapped, MapEffect, Stop,
         Overlay;
    var r := InodeRw(su, d, op.inum, op.data, |op.data|, op.off, true);
    var own' := WriteRefinesView(su, d, own, op.inum, op.data, |op.data|, op.off);
    WrittenFiles(su, d, own, op.inum, op.data, op.off, r, own');
    WriteKeepsSpace(su, d, own, op.inum, op.data, op.off, r, own');
  }

  // ----- creations -----

  lemma UnmadeFiles(su: Super, d: Image, e: Image)
    requires Unmade(su, d, e)
    ensures ModelOf(su, e) == ModelOf(su, d)
  {
    hide InodeAt, FileByte, ViewOf, SpaceOf, PlainKept;
    forall n: nat | n < NINODES ensures ViewOf(su, e, n) == ViewOf(su, d, n) {
      assert InodeAt(su, e, n).size == InodeAt(su, d, n).size;
      SameView(su, d, e, n);
    }
    assert FilesOf(su, e) == FilesOf(su, d);
  }

  lemma MadeFiles(su: Super, d: Image, n: nat, name: Name, typ: u16, m: nat, e: Image)
    requires n < NINODES && m < NINODES && n != m && |name| < MAXNAME && Made(su, d, n, name, typ, m, e)
    requires InodesSane(su, d)
    ensures FilesOf(su, e) ==
      FilesOf(su, d)[n := Overlay(ViewOf(su, d, n), InodeAt(su, d, n).size, EncodeDirent(m, name))]
  {
    hide InodeAt, FileByte, ViewOf, SpaceOf, PlainKept, Overlay, EncodeDirent, MetaButSize;
    OverlayIs(su, d, e, n, InodeAt(su, d, n).size, EncodeDirent(m, name));
    forall k: nat | k < NINODES && k != n ensures ViewOf(su, e, k) == ViewOf(su, d, k) {
      assert k == m ==> InodeAt(su, d, k).size == 0;
      SameView(su, d, e, k);
    }
  }

  lemma RefusedIs(su: Super, d: Image, own: Owners, par: NameTree.Places, dep: NameTree.Depths,
                  path: seq<byte>, typ: u16)
    requires Inv(su, d, own, par, dep)
    ensures Refused(su, d, path, typ) <==> Refuses(SpaceOf(su, d), path, typ)
  {
    hide Inv, InodeAt, SpaceOf, FsLookup, TreeLookup, DirLookup, NameTree.Lookup, GetName, FirstFreeInode, FirstFree,
         NameTree.IsDir;
    FirstFreeAgrees(su, d, 0);
    TakenIs(su, d);
    match GetName(path)
    case NoName =>
    case Split(parent, name) =>
      LookupIs(su, d, parent);
      var n := FsLookup(su, d, parent);
      if n < NINODES {
        TypeIs(su, d, n);
        LookupAgrees(su, d, n, name);
      } else {
        NoDir(SpaceOf(su, d), n);
      }
  }

  lemma NoDir(t: NameTree.Space, n: nat)
    requires n >= NINODES
    ensures !NameTree.IsDir(t, n)
  {
  }

  lemma TakenIs(su: Super, d: Image)
    ensures InodesTaken(su, d) <==> FirstFreeInode(su, d, 0) == NINODES
  {
    hide InodeAt;
  }

  lemma MakeRefines(su: Super, d: Image, own: Owners, par: NameTree.Places, dep: NameTree.Depths, op: Op)
    requires Inv(su, d, own, par, dep) && op.Make? && Allowed(su, d, op)
    ensures Explained(ModelOf(su, d), op, Reply(su, d, op), DiskFull(su, Step(su, d, op)))
    ensures ModelOf(su, Step(su, d, op)) == Next(ModelOf(su, d), op, Reply(su, d, op))
  {
    hide Inv, InodeAt, SpaceOf, FsMknod, DiskFull, Refuses, Refused, Unmade, MadeAt, GoodPath, FirstFreeInode,
         FirstFree, FilesOf;
    var (e, m) := FsMknod(su, d, op.path, op.typ);
    var own' := MknodStep(su, d, own, par, dep, op.path, op.typ);
    RefusedIs(su, d, own, par, dep, op.path, op.typ);
    FirstFreeAgrees(su, d, 0);
    if m == NULLINUM {
      UnmadeFiles(su, d, e);
    } else {
      MadeRefines(su, d, own, par, dep, op.path, op.typ, m, e);
    }
  }

  lemma MadeRefines(su: Super, d: Image, own: Owners, par: NameTree.Places, dep: NameTree.Depths,
                    path: seq<byte>, typ: u16, m: nat, e: Image)
    requires m < NINODES && MadeAt(su, d, own, par, dep, path, typ, m, e)
    ensures !Refused(su, d, path, typ) && m == FirstFreeInode(su, d, 0)
    ensures ModelOf(su, e) == Next(ModelOf(su, d), Make(path, typ), Inode(m))
  {
    hide InodeAt, SpaceOf, Good, Tidy, NameTree.WellNamed, NameTree.Added, GetName, FsLookup, TreeLookup, Names, Walk,
         DirLookup, FirstFreeInode, Overlay, FileByte, PlainKept, ViewOf, EncodeDirent, Recorded;
    var name := GetName(path).name;
    var n := FsLookup(su, d, GetName(path).parent);
    LookupIs(su, d, GetName(path).parent);
    MadeFiles(su, d, n, name, typ, m, e);
  }

  // ----- whole runs -----

  lemma FullStays(su: Super, d: Image, own: Owners, e: Image, own': Owners)
    requires Good(su, d, own) && Good(su, e, own') && Extends(own, own') && DiskFull(su, d)
    ensures DiskFull(su, e)
  {
    FullUsed(su, d);
    FullUsed(su, e);
    hide Forest, Used, DiskFull;
    forall k | 0 <= k < NBits(su) ensures Used(su, e, k) {
      assert BitExact(su, d, own, k) && BitExact(su, e, own', k);
      assert Used(su, d, k);
    }
  }

  lemma StepRefines(su: Super, d: Image, own: Owners, par: NameTree.Places, dep: NameTree.Depths, op: Op)
    requires Inv(su, d, own, par, dep) && Allowed(su, d, op) && ReadSafe(su, d, op)
    ensures Explained(ModelOf(su, d), op, Reply(su, d, op), DiskFull(su, Step(su, d, op)))
    ensures ModelOf(su, Step(su, d, op)) == Next(ModelOf(su, d), op, Reply(su, d, op))
  {
    hide InodesSane, Tidy, NameTree.WellNamed, Good, Allowed, ReadSafe, Explained, DiskFull;
    match op
    case Make(_, _) => MakeRefines(su, d, own, par, dep, op);
    case Write(_, _, _) => WriteRefines(su, d, own, op);
    case Read(_, _, _, _) => ReadRefines(su, d, own, op);
    case Find(path) => FindRefines(su, d, path);
  }

  lemma FindRefines(su: Super, d: Image, path: seq<byte>)
    ensures Explained(ModelOf(su, d), Find(path), Inode(FsLookup(su, d, path)), DiskFull(su, d))
  {
    LookupIs(su, d, path);
  }

  /** Every call of a run, short writes and refusals included, returns what the model says it may, and
      the disk at the end is that of the model. */
  lemma {:induction false} RunRefines(su: Super, d: Image, own: Owners, par: NameTree.Places, dep: NameTree.Depths,
                                      ops: seq<Op>)
    requires Inv(su, d, own, par, dep) && AllAllowed(su, d, ops) && AllSafe(su, d, ops)
    ensures AllExplained(ModelOf(su, d), ops, Replies(su, d, ops), Fulls(su, d, ops))
    ensures ModelOf(su, Run(su, d, ops)) == End(ModelOf(su, d), ops, Replies(su, d, ops))
    decreases |ops|
  {
    hide Inv, Allowed, Step, Reply, ReadSafe, Explained, Next, SpaceOf, FilesOf, DiskFull;
    if ops != [] {
      var e := Step(su, d, ops[0]);
      assert Replies(su, d, ops)[1..] == Replies(su, e, ops[1..]);
      assert Fulls(su, d, ops)[1..] == Fulls(su, e, ops[1..]);
      StepRefines(su, d, own, par, dep, ops[0]);
      var own', par', dep' := StepKeepsInv(su, d, own, par, dep, ops[0]);
      RunRefines(su, e, own', par', dep', ops[1..]);
    }
  }

  /** No call of a run leaves the disk full. */
  predicate NeverFull(full: seq<bool>)
  {
    forall i :: 0 <= i < |full| ==> !full[i]
  }

  /** While the disk is not full, the model leaves one answer. */
  lemma OneAnswer(m: Model, op: Op, a: Answer, b: Answer)
    requires |m.files| == NINODES && Explained(m, op, a, false) && Explained(m, op, b, false)
    ensures a == b
  {
    hide Refuses, FirstFree, Part, TreeLookup;
  }

  lemma {:induction false} OneRun(m: Model, ops: seq<Op>, a: seq<Answer>, b: seq<Answer>,
                                  full: seq<bool>, full': seq<bool>)
    requires |m.files| == NINODES && |a| == |b| == |full| == |full'| == |ops|
    requires AllExplained(m, ops, a, full) && AllExplained(m, ops, b, full') && NeverFull(full) && NeverFull(full')
    ensures a == b
    decreases |ops|
  {
    hide Explained, Next;
    if ops != [] {
      OneAnswer(m, ops[0], a[0], b[0]);
      OneRun(Next(m, ops[0], a[0]), ops[1..], a[1..], b[1..], full[1..], full'[1..]);
      assert a == [a[0]] + a[1..] && b == [b[0]] + b[1..];
    }
  }

  /** Which blocks hold what cannot be seen: two disks with the same names and bytes answer every run
      alike, and end with the same names and bytes, unless blocks run out on one of them. */
  lemma SameAnswers(su: Super, d: Image, own: Owners, par: NameTree.Places, dep: NameTree.Depths,
                    su': Super, d': Image, own': Owners, par': NameTree.Places, dep': NameTree.Depths, ops: seq<Op>)
    requires Inv(su, d, own, par, dep) && AllAllowed(su, d, ops) && AllSafe(su, d, ops)
    requires Inv(su', d', own', par', dep') && AllAllowed(su', d', ops) && AllSafe(su', d', ops)
    requires ModelOf(su, d) == ModelOf(su', d')
    requires NeverFull(Fulls(su, d, ops)) && NeverFull(Fulls(su', d', ops))
    ensures Replies(su, d, ops) == Replies(su', d', ops)
    ensures ModelOf(su, Run(su, d, ops)) == ModelOf(su', Run(su', d', ops))
  {
    hide Inv, AllAllowed, AllSafe, Replies, Fulls, Run, AllExplained, NeverFull, SpaceOf, FilesOf;
    RunRefines(su, d, own, par, dep, ops);
    RunRefines(su', d', own', par', dep', ops);
    OneRun(ModelOf(su, d), ops, Replies(su, d, ops), Replies(su', d', ops), Fulls(su, d, ops), Fulls(su', d', ops));
  }

  /** A disk that was full after some call stays full: no run ever frees a block. */
  lemma {:induction false} FullForEver(su: Super, d: Image, own: Owners, par: NameTree.Places, dep: NameTree.Depths,
                                       ops: seq<Op>)
    requires Inv(su, d, own, par, dep) && AllAllowed(su, d, ops) && DiskFull(su, d)
    ensures DiskFull(su, Run(su, d, ops))
    decreases |ops|
  {
    hide InodesSane, Tidy, NameTree.WellNamed, Good, Allowed, Step, DiskFull, Extends;
    if ops != [] {
      var e := Step(su, d, ops[0]);
      var own', par', dep' := StepKeepsInv(su, d, own, par, dep, ops[0]);
      FullStays(su, d, own, e, own');
      FullForEver(su, e, own', par', dep', ops[1..]);
    }
  }
}

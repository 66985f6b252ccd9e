/** Formatting, and whole runs of operations from a formatted partition. */
module Runs {
  import opened Bytes
  import opened Layout
  import opened Tree
  import opened ReadWrite
  import opened WriteProof
  import opened File
  import opened Directory
  import opened Namespace
  import opened Mknod
  import opened ReadProof
  import NameTree

  // ----- formatting -----

  /** A range of blocks overwritten with zeros, from block p + i on. */
  function ZeroRange(d: Image, p: nat, n: nat, i: nat): (r: Image)
    requires i <= n
    ensures |r| == |d|
    ensures forall k :: 0 <= k < |d| ==> r[k] == if p + i <= k < p + n then ZERO_BLOCK else d[k]
    decreases n - i
  {
    if i == n then d else ZeroRange(WriteB(d, p + i, ZERO_BLOCK), p, n, i + 1)
  }

  const OVERHEAD: nat := 57

  /** The superblock `fs_format` writes for a partition of n sectors at the given start. */
  function FormatSuper(start: u32, n: u32): Super
    requires start + n < WORD && OVERHEAD <= n
  {
    Super(start, NINODES, n, NBLOCKS_LOG, n - OVERHEAD, NINODES / NINODES_PER_BLOCK,
          start + 1, start + 31, start + 56, start + 57, FSMAGIC)
  }

  /** `fs_format`. It clears the blocks named by the superblock read before, not those of the partition. */
  function FsFormat(before: Super, d: Image, start: u32, n: u32): (r: (Super, Image))
    requires start + n < WORD && OVERHEAD <= n
    ensures |r.1| == |d|
  {
    var su := FormatSuper(start, n);
    var d1 := ZeroRange(d, before.start, before.nblockTot, 0);
    var d2 := WriteB(d1, start, PutSuper(ZERO_BLOCK, su));
    (su, Reserve(su, d2))
  }

  /** Inodes 0 and 1 are taken at once: 0 stands for none and 1 is the root directory. */
  function Reserve(su: Super, d: Image): (r: Image)
    ensures |r| == |d|
  {
    var (d1, _) := AllocInode(su, d, T_DIR);
    var (d2, _) := AllocInode(su, d1, T_DIR);
    d2
  }

  /** `fs_init`: the superblock it keeps, and whether it accepted it. */
  function FsInit(d: Image, start: u32): (Super, bool)
  {
    var su := GetSuper(ReadB(d, start));
    (su, su.magic == FSMAGIC)
  }

  /** Bytes 40 to 43 of a block hold the magic number. */
  predicate HasMagic(b: Block)
  {
    b[40] == 0xef && b[41] == 0xbe && b[42] == 0xad && b[43] == 0xde
  }

  /** `fs_init` accepts a partition exactly if its first block holds the magic number. */
  lemma InitExactly(d: Image, start: u32)
    ensures FsInit(d, start).1 <==> HasMagic(ReadB(d, start))
    ensures ReadB(d, start) == ZERO_BLOCK ==> !FsInit(d, start).1
  {
    MagicBytes(ReadB(d, start));
  }

  /** The geometry of a partition of n sectors at the given start: a superblock, 30 log blocks, 25 inode
      blocks for 200 inodes, a bitmap block, and data blocks up to the last sector. */
  predicate Geometry(su: Super, start: int, n: int)
  {
    && su.start == start && su.nblockTot == n && su.nblockDat == n - 57
    && su.ninodes == 200 && su.nblockLog == 30 && su.nblockInode == 25
    && su.slog == start + 1 && su.sinode == start + 31 && su.sbitmap == start + 56 && su.sdata == start + 57
    && su.magic == 0xdeadbeef
  }

  /** Block p is zero, or among those `fs_format` clears. */
  predicate Cleared(before: Super, d: Image, p: nat)
  {
    before.start <= p < before.start + before.nblockTot || ReadB(d, p) == ZERO_BLOCK
  }

  predicate Fits(d: Image, start: u32, n: u32)
  {
    start + n < WORD && start + n <= |d| && OVERHEAD <= n && (n - OVERHEAD) / 8 <= BLOCKSIZE
  }

  lemma ClearBits(k: nat)
    ensures !Bit(0, k)
    decreases k
  {
    if k > 0 {
      ClearBits(k - 1);
    }
  }

  lemma FreshInode(su: Super, d: Image, k: nat)
    requires k < NINODES && ReadB(d, InodeBlock(su, k)) == ZERO_BLOCK
    ensures InodeAt(su, d, k) == ZERO_INODE
  {
    InodeZero(k % NINODES_PER_BLOCK);
  }

  lemma {:induction false} NoNodes(su: Super, d: Image, x: Addr)
    requires Valid(x) && forall k: nat | k < NINODES :: InodeAt(su, d, k).ptrs == NoPtrs()
    ensures NodeAt(su, d, x) == 0
  {
    hide InodeAt;
    if x.Kid? {
      NoNodes(su, d, x.up);
    }
  }

  /** Data block k is not in use, and zero. */
  predicate FreeAndZero(su: Super, d: Image, k: nat)
    requires k < NBits(su)
  {
    !Used(su, d, k) && ReadB(d, su.sdata + k) == ZERO_BLOCK
  }

  /** No allocatable data block is in use, and all of them are zero. */
  ghost predicate NoBlocks(su: Super, d: Image)
  {
    forall k: nat | k < NBits(su) :: FreeAndZero(su, d, k)
  }

  /** A disk with pointerless inodes and no blocks in use is a file system without blocks. */
  lemma BlankGood(su: Super, d: Image)
    requires WellLaid(su, |d|) && NoBlocks(su, d)
    requires forall k: nat | k < NINODES :: InodeAt(su, d, k).ptrs == NoPtrs()
    ensures Good(su, d, map[])
    ensures forall k: nat, b: nat | k < NINODES && b < CAPBYTES :: FileByte(su, d, k, b) == 0
  {
    hide InodeAt, NodeAt, Used;
    forall x | Valid(x) ensures NodeAt(su, d, x) == 0 {
      NoNodes(su, d, x);
    }
    forall k: nat | k < NBits(su) ensures BitExact(su, d, map[], k) {
      assert FreeAndZero(su, d, k);
    }
  }

  /** The two inodes `fs_format` reserves. */
  ghost predicate OnlyReserved(su: Super, d: Image)
  {
    forall k: nat | k < NINODES ::
      InodeAt(su, d, k) == if k < 2 then NewInode(T_DIR) else ZERO_INODE
  }

  /** e is d with inode k new, and otherwise the same outside the inode blocks. */
  ghost predicate Taken(su: Super, d: Image, e: Image, k: nat)
  {
    && (forall j: nat | j < NINODES :: InodeAt(su, e, j) == if j == k then NewInode(T_DIR) else InodeAt(su, d, j))
    && (forall p: nat | p < su.sinode || su.sbitmap <= p :: ReadB(e, p) == ReadB(d, p))
  }

  /** The first free inode is taken, if there is one. */
  lemma TakeInode(su: Super, d: Image)
    requires WellLaid(su, |d|)
    ensures var e, k := AllocInode(su, d, T_DIR).0, FirstFreeInode(su, d, 0);
      if k == NINODES then e == d else Taken(su, d, e, k)
  {
    hide GetInode, PutInode;
    var e, k := AllocInode(su, d, T_DIR).0, FirstFreeInode(su, d, 0);
    if k < NINODES {
      forall j: nat | j < NINODES ensures InodeAt(su, e, j) == if j == k then NewInode(T_DIR) else InodeAt(su, d, j) {
        InodeReadWrite(su, d, k, NewInode(T_DIR), j);
      }
    }
  }

  lemma BlankSpace(su: Super, d: Image)
    requires OnlyReserved(su, d)
    ensures NameTree.WellNamed(SpaceOf(su, d), map[], map[ROOTINUM := 0])
    ensures InodesSane(su, d)
  {
    hide InodeAt, Record;
    var s := SpaceOf(su, d);
    forall k: nat | k < NINODES
      ensures s[k] == if k < 2 then NameTree.Node(T_DIR, 0, []) else NameTree.Node(0, 0, [])
    {
      EmptyListing(su, d, k);
    }
  }

  /** A partition as `fs_format` needs it after its clearing: inodes 0 and 1 free, the others zero,
      and no block in use. */
  ghost predicate Blank(su: Super, d: Image)
  {
    && InodeAt(su, d, 0).typ == 0 && InodeAt(su, d, 1).typ == 0
    && (forall k: nat | 2 <= k < NINODES :: InodeAt(su, d, k) == ZERO_INODE)
    && NoBlocks(su, d)
  }

  /** A consistent file system with an empty root directory and nothing else. */
  ghost predicate EmptyFs(su: Super, d: Image)
  {
    && Inv(su, d, map[], map[], map[ROOTINUM := 0])
    && OnlyReserved(su, d)
  }

  lemma SameBlank(su: Super, d: Image, e: Image)
    requires WellLaid(su, |d|)
    requires forall p: nat | su.sinode <= p :: ReadB(e, p) == ReadB(d, p)
    ensures Blank(su, e) == Blank(su, d)
  {
    hide GetInode, BitAt;
    assert forall k: nat | k < NINODES :: InodeAt(su, e, k) == InodeAt(su, d, k);
    assert NoBlocks(su, d) ==> NoBlocks(su, e) by { SameNoBlocks(su, d, e); }
    assert NoBlocks(su, e) ==> NoBlocks(su, d) by { SameNoBlocks(su, e, d); }
  }

  lemma SameNoBlocks(su: Super, d: Image, e: Image)
    requires ReadB(e, su.sbitmap) == ReadB(d, su.sbitmap)
    requires forall p: nat | su.sdata <= p :: ReadB(e, p) == ReadB(d, p)
    ensures NoBlocks(su, d) ==> NoBlocks(su, e)
  {
    hide BitAt;
    if NoBlocks(su, d) {
      forall k: nat | k < NBits(su) ensures FreeAndZero(su, e, k) {
        assert FreeAndZero(su, d, k);
      }
    }
  }

  /** Reserving the first two inodes of a partition gives an empty file system exactly if it was blank. */
  lemma ReserveExactly(su: Super, d: Image)
    requires WellLaid(su, |d|)
    ensures EmptyFs(su, Reserve(su, d)) <==> Blank(su, d)
  {
    hide InodeAt, AllocInode, FileByte, Good, InodesSane, NameTree.WellNamed, SpaceOf, NoBlocks, FirstFreeInode;
    TakeInode(su, d);
    var d1 := AllocInode(su, d, T_DIR).0;
    TakeInode(su, d1);
    var e := AllocInode(su, d1, T_DIR).0;
    SameNoBlocks(su, d, e);
    SameNoBlocks(su, e, d);
    if Blank(su, d) {
      FirstFreeIs(su, d, 0, 0);
      FirstFreeIs(su, d1, 0, 1);
      BlankGood(su, e);
      BlankSpace(su, e);
    }
    if EmptyFs(su, e) {
      EmptyNoBlocks(su, e);
      assert InodeAt(su, e, 2).typ == 0;
      FirstTwo(su, d, d1, e);
    }
  }

  lemma EmptyNoBlocks(su: Super, d: Image)
    requires Good(su, d, map[])
    ensures NoBlocks(su, d)
  {
    hide Used;
    forall k: nat | k < NBits(su) ensures FreeAndZero(su, d, k) {
      assert BitExact(su, d, map[], k);
    }
  }

  /** If only inodes 0 and 1 are in use after two were taken, then they are the two. */
  lemma FirstTwo(su: Super, d: Image, d1: Image, e: Image)
    requires var k := FirstFreeInode(su, d, 0); if k == NINODES then d1 == d else Taken(su, d, d1, k)
    requires var k := FirstFreeInode(su, d1, 0); if k == NINODES then e == d1 else Taken(su, d1, e, k)
    requires OnlyReserved(su, e)
    ensures InodeAt(su, d, 0).typ == 0 && InodeAt(su, d, 1).typ == 0
    ensures forall k: nat | 2 <= k < NINODES :: InodeAt(su, d, k) == ZERO_INODE
  {
    hide InodeAt;
    assert InodeAt(su, e, 2).typ == 0 && InodeAt(su, e, 3).typ == 0;
  }

  lemma FormatLaid(d: Image, start: u32, n: u32)
    requires Fits(d, start, n)
    ensures WellLaid(FormatSuper(start, n), |d|)
  {
  }

  /** Formatting gives an empty, consistent file system exactly if the blocks it clears leave the
      partition blank. Neither the superblock nor the log blocks matter. */
  lemma FormatExactly(before: Super, d: Image, start: u32, n: u32)
    requires Fits(d, start, n)
    ensures var (su, e) := FsFormat(before, d, start, n);
      EmptyFs(su, e) <==> Blank(su, ZeroRange(d, before.start, before.nblockTot, 0))
  {
    hide PutSuper, Reserve, EmptyFs, Blank;
    var su := FormatSuper(start, n);
    var d1 := ZeroRange(d, before.start, before.nblockTot, 0);
    var d2 := WriteB(d1, start, PutSuper(ZERO_BLOCK, su));
    FormatLaid(d, start, n);
    SameBlank(su, d1, d2);
    ReserveExactly(su, d2);
  }

  /** A partition that was zero or gets cleared is blank. */
  lemma ClearedBlank(before: Super, d: Image, start: u32, n: u32)
    requires Fits(d, start, n)
    requires forall p: nat | start < p < start + n :: Cleared(before, d, p)
    ensures Blank(FormatSuper(start, n), ZeroRange(d, before.start, before.nblockTot, 0))
  {
    hide GetInode, InodeAt;
    var su := FormatSuper(start, n);
    var d1 := ZeroRange(d, before.start, before.nblockTot, 0);
    forall p: nat | start < p < start + n ensures ReadB(d1, p) == ZERO_BLOCK {
      assert Cleared(before, d, p);
    }
    forall k: nat | k < NINODES ensures InodeAt(su, d1, k) == ZERO_INODE {
      FreshInode(su, d1, k);
    }
    forall k: nat | k < NBits(su) ensures FreeAndZero(su, d1, k) {
      ClearBits(k % 8);
    }
  }

  /** Formatting lays the whole partition out, up to its last sector, and writes that down in its first. */
  lemma FormatGeometry(before: Super, d: Image, start: u32, n: u32)
    requires Fits(d, start, n)
    ensures var (su, e) := FsFormat(before, d, start, n);
      && Geometry(su, start, n)
      && su.sdata + su.nblockDat == start + n
      && GetSuper(ReadB(e, start)) == su && HasMagic(ReadB(e, start))
  {
    hide PutSuper, GetSuper, Reserve, ZeroRange;
    FormatThenInit(before, d, start, n);
    InitExactly(FsFormat(before, d, start, n).1, start);
  }

  /** Formatting a zero or cleared partition gives an empty, consistent file system that `fs_init` accepts. */
  lemma FormatConsistent(before: Super, d: Image, start: u32, n: u32)
    requires Fits(d, start, n)
    requires forall p: nat | start < p < start + n :: Cleared(before, d, p)
    ensures var (su, e) := FsFormat(before, d, start, n);
      EmptyFs(su, e) && FsInit(e, start) == (su, true)
  {
    hide PutSuper, Reserve, FsInit, ZeroRange, EmptyFs, Blank, Cleared;
    ClearedBlank(before, d, start, n);
    FormatExactly(before, d, start, n);
    FormatThenInit(before, d, start, n);
  }

  lemma EmptyConsistent(su: Super, d: Image)
    requires EmptyFs(su, d)
    ensures Consistent(su, d)
  {
    hide Inv;
  }

  /** Whatever the partition held, the superblock of a format is accepted. */
  lemma FormatThenInit(before: Super, d: Image, start: u32, n: u32)
    requires Fits(d, start, n)
    ensures var (su, e) := FsFormat(before, d, start, n);
      FsInit(e, start) == (su, true)
  {
    hide PutSuper, GetSuper, FirstFreeInode, GetInode, PutInode;
    var su := FormatSuper(start, n);
    SuperRoundTrip(ZERO_BLOCK, su);
    assert ReadB(FsFormat(before, d, start, n).1, start) == PutSuper(ZERO_BLOCK, su);
  }

  /** A data block is zero after formatting exactly when it was zero or was among the blocks cleared:
      those of the superblock read before. */
  lemma FormatClears(before: Super, d: Image, start: u32, n: u32, p: nat)
    requires Fits(d, start, n) && start + OVERHEAD <= p < start + n
    ensures ReadB(FsFormat(before, d, start, n).1, p) == ZERO_BLOCK <==> Cleared(before, d, p)
  {
    hide PutSuper, PutInode, GetInode, FirstFreeInode;
  }

  // ----- runs -----

  /** One call of the interface. */
  datatype Op =
    | Make(path: seq<byte>, typ: u16)
    | Write(inum: nat, data: seq<byte>, off: u32)
    | Read(rinum: nat, buf: seq<byte>, sz: nat, roff: u32)
    | Find(fpath: seq<byte>)

  /** The disk after a call. */
  function Step(su: Super, d: Image, op: Op): (r: Image)
    ensures |r| == |d|
  {
    match op
    case Make(path, typ) => FsMknod(su, d, path, typ).0
    case Write(n, data, off) => InodeRw(su, d, n, data, |data|, off, true).d
    case Read(n, buf, sz, off) => if sz <= |buf| then InodeRw(su, d, n, buf, sz, off, false).d else d
    case Find(_) => d
  }

  /** What a call returns: an inode, a count, or a count and the bytes that were read. */
  datatype Answer = Inode(m: nat) | Took(n: int) | Gave(n: int, data: seq<byte>)

  function Reply(su: Super, d: Image, op: Op): Answer
  {
    match op
    case Make(path, typ) => Inode(FsMknod(su, d, path, typ).1)
    case Write(n, data, off) => Took(InodeRw(su, d, n, data, |data|, off, true).n)
    case Read(n, buf, sz, off) =>
      if sz <= |buf| then
        var r := InodeRw(su, d, n, buf, sz, off, false);
        Gave(r.n, r.buf[..Max(0, r.n)])
      else Gave(-1, [])
    case Find(path) => Inode(FsLookup(su, d, path))
  }

  /** An inode in use that is not a directory. */
  predicate Plain(su: Super, d: Image, n: nat)
  {
    n < NINODES && InodeAt(su, d, n).typ != 0 && InodeAt(su, d, n).typ != T_DIR
  }

  /** The calls clients make: well-formed paths, and writes to files that are not directories. */
  ghost predicate Allowed(su: Super, d: Image, op: Op)
  {
    match op
    case Make(path, typ) => GoodPath(path) && 1 <= typ
    case Write(n, data, off) => Plain(su, d, n) && |data| <= 0xefff_ffff
    case Read(n, buf, sz, off) => sz <= |buf| && sz <= 0xefff_ffff
    case Find(path) => true
  }

  function Run(su: Super, d: Image, ops: seq<Op>): (r: Image)
    ensures |r| == |d|
    decreases |ops|
  {
    if ops == [] then d else Run(su, Step(su, d, ops[0]), ops[1..])
  }

  /** What the calls of a run return. */
  function Replies(su: Super, d: Image, ops: seq<Op>): (r: seq<Answer>)
    ensures |r| == |ops|
    decreases |ops|
  {
    if ops == [] then [] else [Reply(su, d, ops[0])] + Replies(su, Step(su, d, ops[0]), ops[1..])
  }

  ghost predicate AllAllowed(su: Super, d: Image, ops: seq<Op>)
    decreases |ops|
  {
    ops != [] ==> Allowed(su, d, ops[0]) && AllAllowed(su, Step(su, d, ops[0]), ops[1..])
  }

  lemma WriteKeepsSpace(su: Super, d: Image, own: Owners, n: nat, data: seq<byte>, off: u32, r: Result, own': Owners)
    requires n < NINODES && InodeAt(su, d, n).typ != T_DIR && InodeAt(su, d, n).typ != 0
    requires WriteEffect(su, d, own, n, data, |data|, off, r, own')
    ensures SpaceOf(su, r.d) == SpaceOf(su, d)
  {
    hide InodeAt, FileByte, Good, PlainKept, Listing;
    forall k: nat | k < NINODES ensures NodeOf(su, r.d, k) == NodeOf(su, d, k) {
      if k != n {
        SameNode(su, d, r.d, k);
      }
    }
  }

  /** A write to a file that is not a directory keeps the whole invariant. */
  lemma WriteKeepsInv(su: Super, d: Image, own: Owners, par: NameTree.Places, dep: NameTree.Depths,
                      n: nat, data: seq<byte>, off: u32) returns (own': Owners)
    requires Inv(su, d, own, par, dep) && n < NINODES
    requires InodeAt(su, d, n).typ != T_DIR && InodeAt(su, d, n).typ != 0
    ensures Inv(su, InodeRw(su, d, n, data, |data|, off, true).d, own', par, dep) && Extends(own, own')
  {
    hide InodeAt, FileByte, Good, PlainKept, SpaceOf, NameTree.WellNamed, InodeRw, DiskFull, WrittenMapped, MapEffect;
    own' := WriteRefinesView(su, d, own, n, data, |data|, off);
    var r := InodeRw(su, d, n, data, |data|, off, true);
    WriteKeepsSpace(su, d, own, n, data, off, r, own');
    assert InodesSane(su, r.d) by {
      forall k: nat {:trigger InodeAt(su, r.d, k)} | k < NINODES
        ensures var di := InodeAt(su, r.d, k);
          && di.typ <= T_DEV
          && (di.typ == 0 ==> di.ptrs == NoPtrs() && di.size == 0)
          && (di.typ == T_DIR ==> di.size % DIRENT == 0 && di.size <= CAPBYTES)
      {
        assert InodeAt(su, d, k).typ <= T_DEV;
      }
    }
    assert Tidy(su, r.d) by {
      forall k: nat, b: nat {:trigger FileByte(su, r.d, k, b)} |
        k < NINODES && b < CAPBYTES && InodeAt(su, r.d, k).size <= b ensures FileByte(su, r.d, k, b) == 0
      {
        assert FileByte(su, d, k, b) == 0;
      }
    }
  }

  lemma StepKeepsInv(su: Super, d: Image, own: Owners, par: NameTree.Places, dep: NameTree.Depths, op: Op)
    returns (own': Owners, par': NameTree.Places, dep': NameTree.Depths)
    requires Inv(su, d, own, par, dep) && Allowed(su, d, op)
    ensures Inv(su, Step(su, d, op), own', par', dep') && Extends(own, own')
  {
    hide Inv, InodeAt, FsMknod, InodeRw, GoodPath;
    own', par', dep' := own, par, dep;
    match op
    case Make(path, typ) =>
      own', par', dep' := CreateThenFind(su, d, own, par, dep, path, typ);
    case Write(n, data, off) =>
      own' := WriteKeepsInv(su, d, own, par, dep, n, data, off);
    case Read(n, buf, sz, off) =>
      ReadChangesNothing(su, d, n, buf, sz, off);
    case Find(_) =>
  }

  /** Whatever clients do, the file system stays consistent: the blocks in use are exactly those the
      inodes lead to, free data blocks and the bytes past the end of every file are zero, and the
      names form a tree. */
  lemma {:induction false} RunKeepsInv(su: Super, d: Image, own: Owners, par: NameTree.Places, dep: NameTree.Depths,
                                       ops: seq<Op>)
    returns (own': Owners, par': NameTree.Places, dep': NameTree.Depths)
    requires Inv(su, d, own, par, dep) && AllAllowed(su, d, ops)
    ensures Inv(su, Run(su, d, ops), own', par', dep')
    decreases |ops|
  {
    hide Inv, Step, Allowed;
    if ops == [] {
      own', par', dep' := own, par, dep;
    } else {
      own', par', dep' := StepKeepsInv(su, d, own, par, dep, ops[0]);
      own', par', dep' := RunKeepsInv(su, Step(su, d, ops[0]), own', par', dep', ops[1..]);
    }
  }

  /** Every run from a partition that formatting left blank. */
  lemma FormattedRun(before: Super, d: Image, start: u32, n: u32, ops: seq<Op>)
    requires Fits(d, start, n)
    requires Blank(FormatSuper(start, n), ZeroRange(d, before.start, before.nblockTot, 0))
    requires AllAllowed(FsFormat(before, d, start, n).0, FsFormat(before, d, start, n).1, ops)
    ensures var (su, e) := FsFormat(before, d, start, n);
      Consistent(su, Run(su, e, ops))
  {
    hide PutSuper, Reserve, ZeroRange, Blank, Step, AllAllowed, Run, Good, InodesSane, Tidy, NameTree.WellNamed;
    FormatExactly(before, d, start, n);
    var (su, e) := FsFormat(before, d, start, n);
    var own, par, dep := RunKeepsInv(su, e, map[], map[], map[ROOTINUM := 0], ops);
  }
}

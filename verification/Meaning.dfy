/** What a consistent file system guarantees, said without the bookkeeping of the invariant. */
module Meaning {
  import opened Bytes
  import opened Layout
  import opened Tree
  import opened ReadWrite
  import opened File
  import opened Path
  import opened Directory
  import opened Namespace
  import opened Runs
  import opened WriteProof
  import opened ReadExact
  import opened ReadProof
  import NameTree

  /** No two pointers of the disk lead to the same block. */
  lemma NothingShared(su: Super, d: Image, a: Addr, b: Addr)
    requires Consistent(su, d) && Valid(a) && Valid(b)
    requires NodeAt(su, d, a) == NodeAt(su, d, b) != 0
    ensures a == b
  {
    hide NodeAt, Valid, InodesSane, Tidy, NameTree.WellNamed, BitmapExact;
    var own, par, dep :| Inv(su, d, own, par, dep);
    NodeOwned(su, d, own, a);
    NodeOwned(su, d, own, b);
  }

  /** A bit of the bitmap is set exactly when some pointer leads to its block, and the blocks
      without a bit are zero: nothing leaks, and nothing free holds old data. */
  lemma NothingLeaked(su: Super, d: Image, k: nat)
    requires Consistent(su, d) && k < NBits(su)
    ensures Used(su, d, k) <==> exists a :: Valid(a) && NodeAt(su, d, a) == su.sdata + k
    ensures !Used(su, d, k) ==> ReadB(d, su.sdata + k) == ZERO_BLOCK
  {
    hide NodeAt, Valid, InodesSane, Tidy, NameTree.WellNamed, Used;
    var own, par, dep :| Inv(su, d, own, par, dep);
    assert BitExact(su, d, own, k);
    assert su.sdata > 0;
    if Used(su, d, k) {
      assert NodeAt(su, d, own[su.sdata + k]) == su.sdata + k;
    }
  }

  /** A write past the end of a file leaves zeros between the old end and the data, although the
      blocks it takes are not cleared. */
  lemma GapsAreZero(su: Super, d: Image, n: nat, data: seq<byte>, off: u32, k: nat)
    requires Consistent(su, d) && n < NINODES
    requires InodeAt(su, d, n).size <= k < off && k < CAPBYTES
    ensures FileByte(su, InodeRw(su, d, n, data, |data|, off, true).d, n, k) == 0
  {
    hide Good, InodesSane, NameTree.WellNamed, InodeAt, FileByte, InodeRw;
    var own, par, dep :| Inv(su, d, own, par, dep);
    var own' := WriteRefinesView(su, d, own, n, data, |data|, off);
    assert FileByte(su, d, n, k) == 0;
  }

  /** Every live inode but 0 is found at one list of names and no other, with link count 1 below the root. */
  lemma OnePath(su: Super, d: Image, m: nat) returns (names: seq<Name>)
    requires Consistent(su, d) && 1 <= m < NINODES && InodeAt(su, d, m).typ != 0
    ensures Walk(su, d, ROOTINUM, names) == m
    ensures forall other :: Walk(su, d, ROOTINUM, other) == m ==> other == names
    ensures m >= 2 ==> InodeAt(su, d, m).linkcnt == 1
  {
    hide Good, InodesSane, Tidy, InodeAt, Walk, Listing;
    var own, par, dep :| Inv(su, d, own, par, dep);
    var s := SpaceOf(su, d);
    assert s[m] == NodeOf(su, d, m);
    names := NameTree.Reachable(s, par, dep, m);
    if m >= 2 {
      assert NameTree.Live(s, m);
      assert s[m].links == 1;
    }
    hide NameTree.WellNamed;
    WalkAgrees(su, d, ROOTINUM, names);
    forall other | Walk(su, d, ROOTINUM, other) == m ensures other == names {
      WalkAgrees(su, d, ROOTINUM, other);
      NameTree.WalkUnique(s, par, dep, other, names);
    }
  }

  /** A directory never needs more than the direct pointers of its inode. */
  lemma DirectoriesSmall(su: Super, d: Image, n: nat)
    requires Consistent(su, d) && n < NINODES && InodeAt(su, d, n).typ == T_DIR
    ensures Records(su, d, n) <= NINODES - 2 && InodeAt(su, d, n).size == DIRENT * Records(su, d, n) < 10 * BLOCKSIZE
  {
    hide Good, InodesSane, Tidy, InodeAt, NameTree.WellNamed, Records;
    var own, par, dep :| Inv(su, d, own, par, dep);
    DirectorySize(su, d, own, par, dep, n);
  }

  /** The records of all directories together are two fewer than the live inodes. */
  lemma RecordsAndInodes(su: Super, d: Image)
    requires Consistent(su, d)
    ensures NameTree.Total(SpaceOf(su, d), NINODES) == |NameTree.LiveSet(SpaceOf(su, d))| - 2
  {
    hide Good, InodesSane, Tidy, SpaceOf, NameTree.WellNamed;
    var own, par, dep :| Inv(su, d, own, par, dep);
    NameTree.RecordsCount(SpaceOf(su, d), par, dep);
  }

  /** `getname` refuses an absolute path exactly when it is two or more slashes, or the last name
      that walking it would look up is too long. */
  lemma SplitRefused(p: seq<byte>)
    requires p != [] && p[0] == SLASH
    ensures !AllSlashes(p) ==> Names(p[1..]) != []
    ensures GetName(p).NoName? <==>
      if AllSlashes(p) then |p| >= 2 else |Names(p[1..])[|Names(p[1..])| - 1]| > MAXNAME - 1
  {
    hide Names, NameStart, LastNonSlash, AllSlashes;
    ScanEnd(p);
    if !AllSlashes(p) {
      WalkedLast(p);
    }
  }

  lemma ScanEnd(p: seq<byte>)
    requires p != [] && p[0] == SLASH
    ensures AllSlashes(p) <==> LastNonSlash(p, |p| - 1) == 0
  {
    var e := LastNonSlash(p, |p| - 1);
    assert e == 0 ==> p[0] == SLASH;
  }

  lemma {:induction false} Pointerless(su: Super, d: Image, x: Addr)
    requires Valid(x) && Ino(x) < NINODES && InodeAt(su, d, Ino(x)).ptrs == NoPtrs()
    ensures NodeAt(su, d, x) == 0
  {
    hide InodeAt;
    if x.Kid? {
      Pointerless(su, d, x.up);
    }
  }

  lemma {:induction false} IndirectLater(a: Addr)
    requires Valid(a) && Lvl(a) > 0
    ensures Fb(a) >= 10
  {
    if a.Kid? {
      IndirectLater(a.up);
    }
  }

  /** A write to a direct block takes one if any is free. */
  lemma DirectBlockTaken(su: Super, d: Image, own: Owners, e: Image, own': Owners, n: nat, q: Request, stop: nat)
    requires Good(su, d, own) && Good(su, e, own') && Extends(own, own') && OnlyTouched(su, q, n, d, e, 0, stop)
    requires q.Eblock() < 10 && stop <= q.Sblock() && DiskFull(su, e)
    ensures DiskFull(su, d)
  {
    hide NodeAt, Used, InodeAt, DiskFull, Forest, BitmapExact, OnlyTouched, Extends;
    FullUsed(su, d);
    FullUsed(su, e);
    forall k: nat | k < NBits(su) ensures Used(su, d, k) {
      assert Used(su, e, k);
      BitKept(su, d, own, e, own', n, q, stop, k);
    }
  }

  /** A bit set by such a write was set before. */
  lemma BitKept(su: Super, d: Image, own: Owners, e: Image, own': Owners, n: nat, q: Request, stop: nat, k: nat)
    requires Good(su, d, own) && Good(su, e, own') && Extends(own, own') && OnlyTouched(su, q, n, d, e, 0, stop)
    requires q.Eblock() < 10 && stop <= q.Sblock() && k < NBits(su) && Used(su, e, k)
    ensures Used(su, d, k)
  {
    hide NodeAt, Used, InodeAt;
    assert BitExact(su, e, own', k) && BitExact(su, d, own, k);
    var a := own'[su.sdata + k];
    assert NodeAt(su, e, a) == su.sdata + k;
    if NodeAt(su, d, a) != 0 {
      NodeStays(su, d, own, e, own', a);
    } else if Lvl(a) > 0 {
      IndirectLater(a);
      assert false;
    }
  }

  /** A new file as `fs_mknod` leaves it, that is not a directory. */
  predicate NewFile(su: Super, d: Image, n: nat)
  {
    Plain(su, d, n) && InodeAt(su, d, n).size == 0 && InodeAt(su, d, n).ptrs == NoPtrs()
  }

  /** One block written at 512 in a new file leaves a hole before it. */
  lemma HoleThenBlock(su: Super, d: Image, n: nat, data: seq<byte>)
    requires Consistent(su, d) && NewFile(su, d, n) && !DiskFull(su, d) && |data| == BLOCKSIZE
    ensures var w := InodeRw(su, d, n, data, BLOCKSIZE, BLOCKSIZE, true);
      && w.n == BLOCKSIZE && Consistent(su, w.d) && InodeAt(su, w.d, n).size == 2 * BLOCKSIZE
      && FileByte(su, w.d, n, BLOCKSIZE) == data[0]
      && !BlockMapped(su, w.d, n, 0) && BlockMapped(su, w.d, n, 1)
  {
    hide InodesSane, Tidy, NameTree.WellNamed, Forest, BitmapExact, InodeAt, FileByte, InodeRw, NodeAt, DiskFull, Stop,
         OnlyTouched, PlainKept;
    var own, par, dep :| Inv(su, d, own, par, dep);
    var _ := WriteKeepsInv(su, d, own, par, dep, n, data, BLOCKSIZE);
    hide Inv, Good;
    InvGood(su, d, own, par, dep);
    var own' := WriteRefinesView(su, d, own, n, data, BLOCKSIZE, BLOCKSIZE);
    var w := InodeRw(su, d, n, data, BLOCKSIZE, BLOCKSIZE, true);
    var stop := Stop(su, d, n, data, BLOCKSIZE, BLOCKSIZE);
    Pointerless(su, d, LeafAddr(n, 0));
    if w.n < BLOCKSIZE {
      assert w.n == 0 && stop <= 1;
      DirectBlockTaken(su, d, own, w.d, own', n, Request(BLOCKSIZE, BLOCKSIZE, true), stop);
      assert false;
    }
  }

  /** A wrong read on a real file: one block is written at offset 512 of a new file, and 512 bytes are
      read from offset 256. The byte at 512 comes back as 0 whatever was written there. */
  lemma OvershootExample(su: Super, d: Image, n: nat, data: seq<byte>, buf: seq<byte>)
    requires Consistent(su, d) && NewFile(su, d, n) && !DiskFull(su, d)
    requires |data| == BLOCKSIZE == |buf| && data[0] != 0
    ensures var e := InodeRw(su, d, n, data, BLOCKSIZE, BLOCKSIZE, true).d;
            var r := InodeRw(su, e, n, buf, BLOCKSIZE, 256, false);
      && Consistent(su, e) && Overshoots(su, e, n, 256, BLOCKSIZE)
      && r.n > 256 && FileByte(su, e, n, 512) == data[0] != r.buf[256] == 0
  {
    hide InodeAt, FileByte, InodeRw, NodeAt, DiskFull, Inv;
    HoleThenBlock(su, d, n, data);
    var e := InodeRw(su, d, n, data, BLOCKSIZE, BLOCKSIZE, true).d;
    var own, par, dep :| Inv(su, e, own, par, dep);
    InvGood(su, e, own, par, dep);
    hide Consistent;
    var x := LeafAddr(n, 0);
    assert x == Root(n, 0);
    assert Hole(su, e, x) == x && HoleEnd(x) == 1 && 256 / BLOCKSIZE == 0;
    assert Clipped(su, e, n, BLOCKSIZE, 256) == BLOCKSIZE;
    assert RunsOutOfHole(su, e, n, 256, BLOCKSIZE);
    var q, lim := OverRead(su, e, n, buf, BLOCKSIZE, 256);
    assert Wanted(q, 1);
    assert lim == 1;
  }

  /** Writing no bytes past the last one an inode can address enlarges a new file and maps nothing. */
  lemma HugeFile(su: Super, d: Image, n: nat)
    requires Consistent(su, d) && NewFile(su, d, n)
    ensures var e := InodeRw(su, d, n, [], 0, CAPBYTES + BLOCKSIZE, true).d;
      && Consistent(su, e) && InodeAt(su, e, n).size == CAPBYTES + BLOCKSIZE
      && NodeAt(su, e, Root(n, 12)) == 0
  {
    hide InodesSane, Tidy, NameTree.WellNamed, Forest, BitmapExact, InodeAt, FileByte, InodeRw, NodeAt, DiskFull, Stop,
         PlainKept, BlockMapped;
    var own, par, dep :| Inv(su, d, own, par, dep);
    var _ := WriteKeepsInv(su, d, own, par, dep, n, [], CAPBYTES + BLOCKSIZE);
    hide Inv, Good;
    InvGood(su, d, own, par, dep);
    var _ := WriteRefinesView(su, d, own, n, [], 0, CAPBYTES + BLOCKSIZE);
    Pointerless(su, d, Root(n, 12));
    assert Valid(Root(n, 12));
  }

  /** The other way to overshoot: a file larger than an inode can address, a read that starts one byte
      inside its last hole. It reports more bytes than lie before the last addressable one. */
  lemma OversizeExample(su: Super, d: Image, n: nat, buf: seq<byte>)
    requires Consistent(su, d) && NewFile(su, d, n) && |buf| == 16384 * BLOCKSIZE
    ensures var e, off := InodeRw(su, d, n, [], 0, CAPBYTES + BLOCKSIZE, true).d, 266 * BLOCKSIZE + 1;
            var r := InodeRw(su, e, n, buf, |buf|, off, false);
      && Consistent(su, e) && Overshoots(su, e, n, off, |buf|) && !MeetsData(su, e, n, off, |buf|)
      && r.n > CAPBYTES - off && !ReadRight(su, e, n, |buf|, off, r)
  {
    hide InodeAt, FileByte, InodeRw, NodeAt, Inv;
    HugeFile(su, d, n);
    var e, off := InodeRw(su, d, n, [], 0, CAPBYTES + BLOCKSIZE, true).d, 266 * BLOCKSIZE + 1;
    var own, par, dep :| Inv(su, e, own, par, dep);
    InvGood(su, e, own, par, dep);
    hide Consistent;
    var a := Root(n, 12);
    assert Fb(a) == 266 && HoleEnd(a) == CAPACITY;
    forall fb: nat | 266 <= fb < CAPACITY ensures !BlockMapped(su, e, n, fb) {
      HoleCovers(su, e, a, fb);
    }
    HoleCovers(su, e, a, 266);
    assert off / BLOCKSIZE == 266;
    assert Clipped(su, e, n, |buf|, off) == |buf|;
    assert RunsOutOfHole(su, e, n, off, |buf|);
    var q, lim := OverRead(su, e, n, buf, |buf|, off);
    assert lim == CAPACITY;
  }
}

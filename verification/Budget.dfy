/** How many blocks there are, and how many a write takes: it succeeds exactly if the pointers it has
    to fill are no more than the blocks that are free. */
module Budget {
  import opened Bytes
  import opened Layout
  import opened Tree
  import opened ReadWrite
  import opened Cursor
  import opened WriteProof
  import opened WriteTree
  import opened File
  import opened Namespace
  import opened Runs

  // ----- free blocks -----

  /** The clear bits of the first nblock_dat / 8 bytes of the bitmap. */
  ghost function FreeBits(su: Super, d: Image): set<nat>
  {
    set k: nat | k < 4096 && k / 8 < su.nblockDat / 8 && !BitSet(ReadB(d, su.sbitmap), k)
  }

  lemma FreeIs(su: Super, d: Image, k: nat)
    requires su.nblockDat / 8 <= 512
    ensures k in FreeBits(su, d) <==> k < NBits(su) && !Used(su, d, k)
  {
    hide BitSet, Used, ReadB;
    ScannedBits(su, k);
    if k / 8 < 512 {
      UsedIs(su, d, k);
    }
  }

  lemma FullIs(su: Super, d: Image)
    requires su.nblockDat / 8 <= 512
    ensures DiskFull(su, d) <==> FreeBits(su, d) == {}
  {
    hide BitSet, ReadB;
    if DiskFull(su, d) {
      assert forall k :: k !in FreeBits(su, d);
    } else {
      var k: nat :| k / 8 < su.nblockDat / 8 && k / 8 < 512 && !BitSet(ReadB(d, su.sbitmap), k);
      assert k in FreeBits(su, d);
    }
  }

  /** The disk after k blocks were taken. */
  function Drain(su: Super, d: Image, k: nat): (r: Image)
    ensures |r| == |d|
  {
    if k == 0 then d else BitmapAlloc(su, Drain(su, d, k - 1)).0
  }

  lemma TakeOne(su: Super, d: Image)
    requires su.nblockDat / 8 <= 512 && 0 < su.sdata && su.sdata + su.nblockDat < WORD && su.sbitmap < |d|
    ensures var (e, p) := BitmapAlloc(su, d);
      if FreeBits(su, d) == {} then p == 0 && e == d
      else p >= su.sdata && p - su.sdata in FreeBits(su, d) && FreeBits(su, e) == FreeBits(su, d) - {p - su.sdata}
  {
    FullIs(su, d);
    AllocTakesLowest(su, d);
    hide BitSet, BitmapAlloc, DiskFull;
  }

  /** As many blocks can be taken as there are clear bits: after k of them, the next attempt gives a
      block exactly if k is less than their number. */
  lemma {:induction false} DrainExactly(su: Super, d: Image, k: nat)
    requires su.nblockDat / 8 <= 512 && 0 < su.sdata && su.sdata + su.nblockDat < WORD && su.sbitmap < |d|
    ensures |FreeBits(su, Drain(su, d, k))| == if k <= |FreeBits(su, d)| then |FreeBits(su, d)| - k else 0
    ensures BitmapAlloc(su, Drain(su, d, k)).1 != 0 <==> k < |FreeBits(su, d)|
  {
    hide FreeBits, BitmapAlloc;
    if k > 0 {
      DrainExactly(su, d, k - 1);
      TakeOne(su, Drain(su, d, k - 1));
    }
    TakeOne(su, Drain(su, d, k));
  }

  // ----- what a format makes -----

  function UpTo(n: nat): set<nat>
  {
    if n == 0 then {} else UpTo(n - 1) + {n - 1}
  }

  lemma {:induction false} UpToSize(n: nat)
    ensures |UpTo(n)| == n && forall k: nat :: k in UpTo(n) <==> k < n
  {
    if n > 0 {
      UpToSize(n - 1);
    }
  }

  /** In an empty file system every allocatable block is free. */
  lemma EmptyFree(su: Super, d: Image)
    requires EmptyFs(su, d)
    ensures forall k: nat :: k in FreeBits(su, d) <==> k < 8 * (su.nblockDat / 8)
    ensures |FreeBits(su, d)| == 8 * (su.nblockDat / 8)
  {
    EmptyNoBlocks(su, d);
    assert su.nblockDat / 8 <= 512;
    hide EmptyFs, Used, BitSet, ReadB;
    forall k: nat ensures k in FreeBits(su, d) <==> k < 8 * (su.nblockDat / 8) {
      FreeIs(su, d, k);
      if k < NBits(su) {
        assert FreeAndZero(su, d, k);
      }
    }
    UpToSize(8 * (su.nblockDat / 8));
    assert FreeBits(su, d) == UpTo(8 * (su.nblockDat / 8));
  }

  lemma EmptyLaid(su: Super, d: Image)
    requires EmptyFs(su, d)
    ensures su.nblockDat / 8 <= 512 && 0 < su.sdata && su.sdata + su.nblockDat < WORD && su.sbitmap < |d|
  {
    hide Forest, BitmapExact, InodesSane, Tidy;
  }

  lemma EmptyRoom(su: Super, d: Image)
    requires EmptyFs(su, d)
    ensures |FreeBits(su, d)| == 8 * (su.nblockDat / 8)
    ensures DiskFull(su, d) <==> 8 * (su.nblockDat / 8) == 0
    ensures forall k: nat :: BitmapAlloc(su, Drain(su, d, k)).1 != 0 <==> k < 8 * (su.nblockDat / 8)
  {
    hide EmptyFs, FreeBits, BitmapAlloc, DiskFull;
    EmptyLaid(su, d);
    EmptyFree(su, d);
    FullIs(su, d);
    forall k: nat ensures BitmapAlloc(su, Drain(su, d, k)).1 != 0 <==> k < 8 * (su.nblockDat / 8) {
      DrainExactly(su, d, k);
    }
  }

  /** Formatting a blank partition of n sectors leaves exactly 8 * ((n - 57) / 8) blocks to take, and a
      full disk only if that is none. */
  lemma FormatRoom(before: Super, d: Image, start: u32, n: u32)
    requires Fits(d, start, n)
    requires Blank(FsFormat(before, d, start, n).0, ZeroRange(d, before.start, before.nblockTot, 0))
    ensures var (su, e) := FsFormat(before, d, start, n);
      && |FreeBits(su, e)| == 8 * ((n - 57) / 8)
      && (DiskFull(su, e) <==> 8 * ((n - 57) / 8) == 0)
      && forall k: nat :: BitmapAlloc(su, Drain(su, e, k)).1 != 0 <==> k < 8 * ((n - 57) / 8)
  {
    hide FsFormat, EmptyFs, Blank, FreeBits, BitmapAlloc, HasMagic, DiskFull, GetSuper, Drain, ZeroRange, ReadB;
    FormatExactly(before, d, start, n);
    FormatGeometry(before, d, start, n);
    var (su, e) := FsFormat(before, d, start, n);
    EmptyRoom(su, e);
  }

  // ----- the pointers of a file -----

  function Roots(n: nat): set<Addr>
  {
    set s | 0 <= s < NPTRS :: Root(n, s)
  }

  function KidsOf(up: set<Addr>): set<Addr>
  {
    set a, i | a in up && 0 <= i < NPTRS_PER_BLOCK && Lvl(a) > 0 :: Kid(a, i)
  }

  /** All pointers of inode n. */
  function Addrs(n: nat): set<Addr>
  {
    Roots(n) + KidsOf(Roots(n)) + KidsOf(KidsOf(Roots(n)))
  }

  lemma AddrsAll(n: nat, a: Addr)
    requires n < NINODES
    ensures a in Addrs(n) <==> Valid(a) && Ino(a) == n
  {
    if Valid(a) && Ino(a) == n {
      LvlRange(a);
      if a.Kid? {
        LvlRange(a.up);
        if a.up.Kid? {
          LvlRange(a.up.up);
          assert a.up.up in Roots(n);
          assert a.up in KidsOf(Roots(n));
        } else {
          assert a.up in Roots(n);
        }
      }
    }
  }

  /** The null pointers of file n that cover a block of the inclusive interval of a write. */
  ghost function Needed(su: Super, d: Image, n: nat, sz: nat, off: u32): set<Addr>
    requires n < NINODES
  {
    set a | a in Addrs(n) && Valid(a) && NodeAt(su, d, a) == 0
         && Fb(a) <= (off + sz) / 512 && off / 512 < Fb(a) + Cov(Lvl(a))
  }

  lemma NeededIs(su: Super, d: Image, n: nat, sz: nat, off: u32, a: Addr)
    requires n < NINODES
    ensures a in Needed(su, d, n, sz, off) <==>
      && Valid(a) && Ino(a) == n && NodeAt(su, d, a) == 0
      && Overlaps(Request(off, sz, true), Fb(a), Fb(a) + Cov(Lvl(a)))
  {
    hide Addrs, NodeAt;
    AddrsAll(n, a);
  }

  // ----- blocks are conserved -----

  lemma {:induction false} SameSize(a: set<nat>, b: set<Addr>, f: map<nat, Addr>)
    requires f.Keys == a && f.Values == b
    requires forall x, y :: x in a && y in a && f[x] == f[y] ==> x == y
    ensures |a| == |b|
  {
    if a == {} {
      assert b == {};
    } else {
      var x :| x in a;
      var g := map y | y in a && y != x :: f[y];
      assert g.Keys == a - {x};
      assert g.Values == b - {f[x]} by {
        forall v | v in b - {f[x]} ensures v in g.Values {
          var y :| y in f && f[y] == v;
          assert y in g && g[y] == v;
        }
      }
      SameSize(a - {x}, b - {f[x]}, g);
    }
  }

  /** A bit that was set belongs to a pointer that got a block. */
  lemma NewBit(su: Super, d: Image, own: Owners, e: Image, own': Owners, k: nat)
    requires Good(su, d, own) && Good(su, e, own') && Extends(own, own')
    requires k in FreeBits(su, d) && k !in FreeBits(su, e)
    ensures 0 < su.sdata && su.sdata + k < WORD && su.sdata + k in own' && Valid(own'[su.sdata + k])
    ensures var a := own'[su.sdata + k]; NodeAt(su, e, a) == su.sdata + k && NodeAt(su, d, a) == 0
  {
    hide NodeAt, FreeBits, Valid, BitmapExact, WellLaid, NBits;
    BitBefore(su, d, own, k);
    BitAfter(su, e, own', k);
    var a := own'[su.sdata + k];
    if NodeAt(su, d, a) != 0 {
      NodeStays(su, d, own, e, own', a);
      assert false;
    }
  }

  lemma BitBefore(su: Super, d: Image, own: Owners, k: nat)
    requires Good(su, d, own) && k in FreeBits(su, d)
    ensures 0 < su.sdata && su.sdata + k < WORD && su.sdata + k !in own && k < NBits(su)
  {
    hide NodeAt, Used, FreeBits, BitSet, Forest, NBits, ReadB;
    FreeIs(su, d, k);
    assert BitExact(su, d, own, k);
  }

  lemma BitAfter(su: Super, d: Image, own: Owners, k: nat)
    requires Good(su, d, own) && k !in FreeBits(su, d) && k < NBits(su) && su.sdata + k < WORD
    ensures su.sdata + k in own
  {
    hide NodeAt, Used, FreeBits, BitSet, Forest, NBits, ReadB;
    FreeIs(su, d, k);
    assert BitExact(su, d, own, k);
  }

  /** A pointer that got a block has a bit that was set for it. */
  lemma NewPointer(su: Super, d: Image, own: Owners, e: Image, own': Owners, a: Addr) returns (k: nat)
    requires Good(su, d, own) && Good(su, e, own') && Extends(own, own')
    requires Valid(a) && NodeAt(su, d, a) == 0 && NodeAt(su, e, a) != 0
    ensures k in FreeBits(su, d) && k !in FreeBits(su, e) && su.sdata + k < WORD
    ensures su.sdata + k in own' && own'[su.sdata + k] == a
  {
    hide NodeAt, Used, FreeBits, BitSet, NBits, ReadB;
    var p := NodeAt(su, e, a);
    assert p in own' && own'[p] == a;
    assert p !in own;
    k := p - su.sdata;
    FreeIs(su, d, k);
    FreeIs(su, e, k);
    assert BitExact(su, d, own, k) && BitExact(su, e, own', k);
  }

  lemma FreeShrinks(su: Super, d: Image, own: Owners, e: Image, own': Owners)
    requires Good(su, d, own) && Good(su, e, own') && Extends(own, own')
    ensures FreeBits(su, e) <= FreeBits(su, d)
  {
    hide NodeAt, Used, FreeBits, Forest, BitSet, NBits, ReadB;
    forall k | k in FreeBits(su, e) ensures k in FreeBits(su, d) {
      FreeIs(su, d, k);
      FreeIs(su, e, k);
      assert BitExact(su, d, own, k) && BitExact(su, e, own', k);
    }
  }

  /** The pointer that a bit stands for. */
  function PointerOf(su: Super, own: Owners, k: nat): Addr
  {
    if su.sdata + k < WORD && su.sdata + k in own then own[su.sdata + k] else Root(0, 0)
  }

  lemma PointerIs(su: Super, own: Owners, k: nat, a: Addr)
    requires su.sdata + k < WORD && su.sdata + k in own && own[su.sdata + k] == a
    ensures PointerOf(su, own, k) == a
  {
  }

  lemma NewBits(su: Super, d: Image, own: Owners, e: Image, own': Owners, filled: set<Addr>, k: nat)
    requires Good(su, d, own) && Good(su, e, own') && Extends(own, own')
    requires forall a :: a in filled <==> Valid(a) && NodeAt(su, d, a) == 0 && NodeAt(su, e, a) != 0
    requires k in FreeBits(su, d) - FreeBits(su, e)
    ensures PointerOf(su, own', k) in filled
    ensures Valid(PointerOf(su, own', k)) && NodeAt(su, e, PointerOf(su, own', k)) == su.sdata + k
  {
    hide Good, NodeAt, FreeBits, Valid, Extends, BitSet;
    NewBit(su, d, own, e, own', k);
  }

  /** As many pointers got a block as bits were set. */
  lemma Conserved(su: Super, d: Image, own: Owners, e: Image, own': Owners, filled: set<Addr>)
    requires Good(su, d, own) && Good(su, e, own') && Extends(own, own')
    requires forall a :: a in filled <==> Valid(a) && NodeAt(su, d, a) == 0 && NodeAt(su, e, a) != 0
    ensures |FreeBits(su, d)| == |FreeBits(su, e)| + |filled|
  {
    hide Good, NodeAt, FreeBits, Valid, Extends, PointerOf;
    FreeShrinks(su, d, own, e, own');
    var taken := FreeBits(su, d) - FreeBits(su, e);
    var f := map k | k in taken :: PointerOf(su, own', k);
    forall k | k in taken ensures f[k] in filled && Valid(f[k]) && NodeAt(su, e, f[k]) == su.sdata + k {
      NewBits(su, d, own, e, own', filled, k);
    }
    forall a | a in filled ensures a in f.Values {
      var k := NewPointer(su, d, own, e, own', a);
      PointerIs(su, own', k, a);
      assert k in f && f[k] == a;
    }
    assert f.Values == filled;
    SameSize(taken, filled, f);
    assert FreeBits(su, d) == FreeBits(su, e) + taken;
    AddSizes(FreeBits(su, e), taken);
  }

  lemma AddSizes(a: set<nat>, b: set<nat>)
    requires a !! b
    ensures |a + b| == |a| + |b|
  {
  }

  // ----- the budget of a write -----

  /** A needed pointer that stays null means that the write stopped on a full disk. */
  lemma UnfilledFull(su: Super, d: Image, n: nat, sz: nat, off: u32, stop: nat, r: Result, a: Addr)
    requires n < NINODES && MapEffect(su, d, n, sz, off, stop, r)
    requires a in Needed(su, d, n, sz, off) && NodeAt(su, r.d, a) == 0
    ensures DiskFull(su, r.d)
  {
    hide NodeAt, DiskFull, OnlyTouched, HoleFrom, Before, Needed;
    NeededIs(su, d, n, sz, off, a);
    LvlRange(a);
    FbRange(a);
    var fb := Max(Fb(a), off / 512);
    NullBelow(su, r.d, a, fb);
    assert !BlockMapped(su, r.d, n, fb);
  }

  /** A write that stopped left a needed pointer null. */
  lemma StoppedUnfilled(su: Super, d: Image, own: Owners, n: nat, sz: nat, off: u32, stop: nat, r: Result, own': Owners)
    returns (a: Addr)
    requires Good(su, d, own) && Good(su, r.d, own') && Extends(own, own')
    requires n < NINODES && MapEffect(su, d, n, sz, off, stop, r) && stop < CAPACITY
    ensures a in Needed(su, d, n, sz, off) && NodeAt(su, r.d, a) == 0
  {
    hide NodeAt, DiskFull, OnlyTouched, Before, Needed, Good, Extends;
    var fb := Max(stop, off / 512);
    a := LeafAddr(n, fb);
    if NodeAt(su, d, a) != 0 {
      NodeStays(su, d, own, r.d, own', a);
    }
    NeededIs(su, d, n, sz, off, a);
  }

  /** A write takes one free block for every pointer it needs. If there are enough, all get one and the
      write is whole, up to the last byte an inode can address; if not, it takes all there are. */
  lemma WriteBudget(su: Super, d: Image, own: Owners, n: nat, buf: seq<byte>, sz: nat, off: u32)
    requires Good(su, d, own) && n < NINODES && sz <= |buf|
    ensures var r := InodeRw(su, d, n, buf, sz, off, true);
            var need, free := |Needed(su, d, n, sz, off)|, |FreeBits(su, d)|;
      && |FreeBits(su, r.d)| == (if need <= free then free - need else 0)
      && (need <= free <==> forall a :: a in Needed(su, d, n, sz, off) ==> Valid(a) && NodeAt(su, r.d, a) != 0)
      && (need <= free ==> r.n == Min(sz, Max(0, 16650 * 512 - off)))
  {
    var r := InodeRw(su, d, n, buf, sz, off, true);
    var own' := WriteRefinesView(su, d, own, n, buf, sz, off);
    var stop := Stop(su, d, n, buf, sz, off);
    WriteGoods(su, d, own, n, buf, sz, off, r, own');
    hide InodeRw, Stop, WriteEffect, ShortExplained, WrittenMapped;
    BudgetOf(su, d, own, n, sz, off, stop, r, own');
  }

  lemma WriteGoods(su: Super, d: Image, own: Owners, n: nat, buf: seq<byte>, sz: nat, off: u32, r: Result, own': Owners)
    requires n < NINODES && sz <= |buf| && WriteEffect(su, d, own, n, buf, sz, off, r, own')
    ensures Good(su, r.d, own') && Extends(own, own')
  {
  }

  lemma BudgetOf(su: Super, d: Image, own: Owners, n: nat, sz: nat, off: u32, stop: nat, r: Result, own': Owners)
    requires Good(su, d, own) && Good(su, r.d, own') && Extends(own, own')
    requires n < NINODES && MapEffect(su, d, n, sz, off, stop, r)
    ensures var need, free := |Needed(su, d, n, sz, off)|, |FreeBits(su, d)|;
      && |FreeBits(su, r.d)| == (if need <= free then free - need else 0)
      && (need <= free <==> forall a :: a in Needed(su, d, n, sz, off) ==> Valid(a) && NodeAt(su, r.d, a) != 0)
      && (need <= free ==> r.n == Min(sz, Max(0, 16650 * 512 - off)))
  {
    FullLaid(su, r.d, own');
    var needed := Needed(su, d, n, sz, off);
    var filled := FilledOf(su, d, n, sz, off, r.d);
    forall a ensures a in filled <==> Valid(a) && NodeAt(su, d, a) == 0 && NodeAt(su, r.d, a) != 0 {
      FilledIs(su, d, n, sz, off, stop, r, a);
    }
    Conserved(su, d, own, r.d, own', filled);
    hide Good, Extends, NodeAt, FreeBits, Valid, DiskFull, Needed, MapEffect;
    if filled == needed {
      if stop < CAPACITY {
        var a := StoppedUnfilled(su, d, own, n, sz, off, stop, r, own');
        assert false;
      }
      WholeCount(su, d, n, sz, off, stop, r);
    } else {
      var a :| a in needed && a !in filled;
      NeededIs(su, d, n, sz, off, a);
      UnfilledFull(su, d, n, sz, off, stop, r, a);
      FewerThan(filled, needed, a);
    }
  }

  lemma FullLaid(su: Super, d: Image, own: Owners)
    requires Good(su, d, own)
    ensures DiskFull(su, d) <==> |FreeBits(su, d)| == 0
  {
    FullIs(su, d);
  }

  /** The needed pointers that got a block. */
  ghost function FilledOf(su: Super, d: Image, n: nat, sz: nat, off: u32, e: Image): set<Addr>
    requires n < NINODES
  {
    set a | a in Needed(su, d, n, sz, off) && Valid(a) && NodeAt(su, e, a) != 0
  }

  lemma FilledIs(su: Super, d: Image, n: nat, sz: nat, off: u32, stop: nat, r: Result, a: Addr)
    requires n < NINODES && MapEffect(su, d, n, sz, off, stop, r)
    ensures a in FilledOf(su, d, n, sz, off, r.d) <==> Valid(a) && NodeAt(su, d, a) == 0 && NodeAt(su, r.d, a) != 0
  {
    hide NodeAt, Needed, DiskFull, HoleFrom, Before, Valid;
    NeededIs(su, d, n, sz, off, a);
  }

  lemma FewerThan(a: set<Addr>, b: set<Addr>, x: Addr)
    requires a <= b && x in b && x !in a
    ensures |a| < |b|
  {
    assert b == a + (b - a);
    assert x in b - a;
  }

  lemma WholeCount(su: Super, d: Image, n: nat, sz: nat, off: u32, stop: nat, r: Result)
    requires n < NINODES && MapEffect(su, d, n, sz, off, stop, r) && stop == CAPACITY
    ensures r.n == Min(sz, Max(0, 16650 * 512 - off))
  {
    hide NodeAt, DiskFull, OnlyTouched, HoleFrom, BlockMapped;
  }
}

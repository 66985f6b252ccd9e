/** Exactly when a read is right. A read that starts strictly inside the coverage of a null
    pointer fills zeros for the whole coverage, so once it runs past the end of the hole the
    cursor is ahead of the file. */
module ReadExact {
  import opened Bytes
  import opened Layout
  import opened Tree
  import opened ReadWrite
  import opened Cursor
  import opened File
  import opened ReadProof

  /** The read has filled zeros further than the blocks it passed account for. */
  ghost predicate Ahead(q: Request, s: State)
  {
    && |s.buf| >= q.sz && s.pos + s.left == q.sz
    && s.boff * BLOCKSIZE > q.off
    && (s.pos == q.sz || s.pos > Before(q, s.boff))
    && forall k {:trigger s.buf[k]} | 0 <= k < s.pos :: s.buf[k] == 0
  }

  /** The byte of the buffer that belongs to the start of block lim is zero and done with. */
  ghost predicate Zeroed(q: Request, s: State, lim: nat)
  {
    && |s.buf| >= q.sz && s.pos + s.left == q.sz
    && q.off < lim * BLOCKSIZE < q.off + s.pos
    && s.buf[lim * BLOCKSIZE - q.off] == 0
  }

  ghost predicate Mode(q: Request, s: State, lim: nat)
  {
    if s.boff <= q.Sblock() then CursorOk(q, s)
    else if s.boff <= lim then Ahead(q, s)
    else Zeroed(q, s, lim)
  }

  /** Some requested byte lies in file block fb. */
  predicate Wanted(q: Request, fb: nat)
  {
    q.Sblock() <= fb && fb * BLOCKSIZE < q.off + q.sz
  }

  /** No block before hi that the request has bytes in is mapped. */
  ghost predicate NoData(su: Super, d: Image, n: nat, q: Request, hi: nat)
    requires n < NINODES && hi <= CAPACITY
  {
    forall fb: nat {:trigger BlockMapped(su, d, n, fb)} | fb < hi && Wanted(q, fb) :: !BlockMapped(su, d, n, fb)
  }

  /** lim is the first mapped block that the request has bytes in, or the end of the file's pointers. */
  ghost predicate FirstData(su: Super, d: Image, n: nat, q: Request, lim: nat)
    requires n < NINODES
  {
    && q.Sblock() < lim <= CAPACITY
    && NoData(su, d, n, q, lim)
    && (lim < CAPACITY ==> BlockMapped(su, d, n, lim) && Wanted(q, lim))
  }

  ghost predicate Over(su: Super, q: Request, s: State, n: nat, lim: nat)
    requires n < NINODES
  {
    && !q.w && s.InBuffer() && Mode(q, s, lim)
    && FirstData(su, s.d, n, q, lim) && RunsOutOfHole(su, s.d, n, q.off, q.sz)
  }

  lemma ModeBuffer(q: Request, s: State, lim: nat)
    requires Mode(q, s, lim)
    ensures s.InBuffer() && |s.buf| >= q.sz
  {
  }

  lemma AheadZeroed(q: Request, s: State, lim: nat)
    requires Ahead(q, s) && s.boff == lim && lim * BLOCKSIZE < q.off + q.sz
    ensures Zeroed(q, s, lim)
  {
  }

  lemma ZeroedOnward(q: Request, s: State, t: State, lim: nat)
    requires Zeroed(q, s, lim) && Onward(s, t) && s.InBuffer() && t.pos + t.left == s.pos + s.left
    ensures Zeroed(q, t, lim)
  {
    OnwardMeans(s, t);
  }

  /** A null pointer: the first one sends the cursor ahead, the others keep it there. */
  lemma OverHole(su: Super, q: Request, s: State, a: Addr, lim: nat)
    requires Valid(a) && Ino(a) < NINODES && NodeAt(su, s.d, a) == 0 && Reached(su, s.d, a)
    requires Over(su, q, s, Ino(a), lim) && s.boff == Fb(a) && s.boff <= lim
    requires Overlaps(q, s.boff, HoleEnd(a))
    ensures Mode(q, ReadHole(s, HoleEnd(a)), lim)
  {
    hide NodeAt, BlockMapped, RunsOutOfHole;
    FbRange(a);
    var e := HoleEnd(a);
    var t := ReadHole(s, e);
    if s.boff <= q.Sblock() {
      OverFirstHole(su, q, s, a, lim);
      assert Ahead(q, t);
    } else {
      assert forall k {:trigger t.buf[k]} | 0 <= k < t.pos :: t.buf[k] == 0;
    }
  }

  lemma OverFirstHole(su: Super, q: Request, s: State, a: Addr, lim: nat)
    requires Valid(a) && Ino(a) < NINODES && NodeAt(su, s.d, a) == 0 && Reached(su, s.d, a)
    requires Over(su, q, s, Ino(a), lim) && s.boff == Fb(a) && s.boff <= q.Sblock()
    requires Overlaps(q, s.boff, HoleEnd(a))
    ensures Fb(a) * BLOCKSIZE < q.off && HoleEnd(a) * BLOCKSIZE < q.off + q.sz && HoleEnd(a) <= lim
  {
    hide NodeAt;
    FbRange(a);
    HoleCovers(su, s.d, a, q.Sblock());
    if lim < HoleEnd(a) {
      HoleCovers(su, s.d, a, lim);
      assert false;
    }
  }

  lemma OverSkip(su: Super, q: Request, s: State, n: nat, e: nat, lim: nat)
    requires n < NINODES && Over(su, q, s, n, lim) && s.boff <= e <= CAPACITY && !Overlaps(q, s.boff, e)
    ensures Mode(q, Skip(s, e), lim)
  {
    hide BlockMapped, RunsOutOfHole;
    if s.boff <= q.Sblock() {
      SkipCursor(q, s, e);
    }
  }

  /** A data block: the request has no bytes in one before lim, and at lim the damage is done. */
  lemma OverData(su: Super, q: Request, s: State, a: Addr, lim: nat)
    requires Leaf(a) && Ino(a) < NINODES && NodeAt(su, s.d, a) != 0
    requires Over(su, q, s, Ino(a), lim) && s.boff == Fb(a) && Touched(q, s.boff) && s.boff <= lim
    ensures Mode(q, Transfer(q, s, NodeAt(su, s.d, a)), lim)
  {
    hide NodeAt, RunsOutOfHole, Transfer;
    var p := NodeAt(su, s.d, a);
    LeafUnique(a);
    assert BlockMapped(su, s.d, Ino(a), Fb(a));
    RunsOutInside(su, s.d, Ino(a), q.off, q.sz);
    hide BlockMapped;
    if s.boff == lim {
      AheadZeroed(q, s, lim);
      VisitKeepsDisk(su, q, s, p, 0);
      ZeroedOnward(q, s, Transfer(q, s, p), lim);
    } else {
      assert !Wanted(q, s.boff);
      NothingLeft(q, s, p);
    }
  }

  lemma NothingLeft(q: Request, s: State, p: u32)
    requires Ahead(q, s) && !Wanted(q, s.boff) && q.Sblock() < s.boff && s.InBuffer() && !q.w
    ensures Ahead(q, Transfer(q, s, p)) && Transfer(q, s, p).boff == s.boff + 1
  {
    assert s.left == 0;
    assert Transfer(q, s, p).buf == s.buf;
  }

  lemma OverPast(su: Super, q: Request, s: State, p: u32, lvl: nat, lim: nat)
    requires Mode(q, s, lim) && s.InBuffer() && s.boff > lim > q.Sblock() && !q.w && lvl <= 2
    ensures Mode(q, Rw(su, q, s, p, lvl).s, lim)
  {
    hide Rw;
    ReadKeepsDisk(su, q, s, p, lvl);
    ZeroedOnward(q, s, Rw(su, q, s, p, lvl).s, lim);
  }

  lemma {:induction false} OverNode(su: Super, q: Request, s: State, a: Addr, lim: nat)
    requires Valid(a) && 0 <= Lvl(a) <= 2 && Ino(a) < NINODES && Reached(su, s.d, a)
    requires Over(su, q, s, Ino(a), lim) && s.boff == Fb(a)
    ensures Mode(q, Rw(su, q, s, NodeAt(su, s.d, a), Lvl(a)).s, lim)
    decreases Lvl(a), 1, 0
  {
    hide Mode, NoData, NodeAt, Visit, RunsOutOfHole, Skip, ReadHole, BlockMapped;
    var p, lvl := NodeAt(su, s.d, a), Lvl(a);
    FbRange(a);
    assert lim > q.Sblock();
    hide FirstData;
    if s.boff > lim {
      OverPast(su, q, s, p, lvl, lim);
    } else if !Overlaps(q, s.boff, s.boff + Cov(lvl)) {
      OverSkip(su, q, s, Ino(a), s.boff + Cov(lvl), lim);
    } else if p == 0 {
      OverHole(su, q, s, a, lim);
    } else {
      OverVisit(su, q, s, a, lim);
    }
  }

  lemma {:induction false} OverVisit(su: Super, q: Request, s: State, a: Addr, lim: nat)
    requires Valid(a) && 0 <= Lvl(a) <= 2 && Ino(a) < NINODES && NodeAt(su, s.d, a) != 0
    requires Over(su, q, s, Ino(a), lim) && s.boff == Fb(a) && s.boff <= lim
    requires Overlaps(q, s.boff, s.boff + Cov(Lvl(a)))
    ensures Mode(q, Visit(su, q, s, NodeAt(su, s.d, a), Lvl(a)).s, lim)
    decreases Lvl(a), 0, 0
  {
    hide NodeAt, FirstData, RunsOutOfHole, Transfer, Kids, Onward;
    var p := NodeAt(su, s.d, a);
    if Lvl(a) == 0 {
      OverData(su, q, s, a, lim);
    } else {
      hide Mode;
      var b := ReadB(s.d, p);
      var r := Kids(su, q, s, b, Lvl(a) - 1, 0);
      OverKids(su, q, s, a, lim, 0);
      KidsKeepDisk(su, q, s, b, Lvl(a) - 1, 0);
      OnwardMeans(s, r.0);
      WriteBackSame(s.d, p);
    }
  }

  lemma {:induction false} OverKids(su: Super, q: Request, s: State, a: Addr, lim: nat, i: nat)
    requires Valid(a) && 1 <= Lvl(a) <= 2 && Ino(a) < NINODES && NodeAt(su, s.d, a) != 0
    requires Over(su, q, s, Ino(a), lim) && i <= NPTRS_PER_BLOCK
    requires s.boff == Fb(a) + (if Lvl(a) == 2 then NPTRS_PER_BLOCK * i else i)
    ensures Mode(q, Kids(su, q, s, ReadB(s.d, NodeAt(su, s.d, a)), Lvl(a) - 1, i).0, lim)
    decreases Lvl(a) - 1, 2, NPTRS_PER_BLOCK - i
  {
    hide Mode, FirstData, RunsOutOfHole, GetPtr, SetPtr, Onward, Rw, ReadB;
    if i < NPTRS_PER_BLOCK {
      var b := ReadB(s.d, NodeAt(su, s.d, a));
      var c := Kid(a, i);
      assert NodeAt(su, s.d, c) == GetPtr(b, i);
      OverNode(su, q, s, c, lim);
      var o := Rw(su, q, s, GetPtr(b, i), Lvl(c));
      ReadKeepsDisk(su, q, s, GetPtr(b, i), Lvl(c));
      OnwardMeans(s, o.s);
      PtrSetSame(b, i);
      ModeBuffer(q, o.s, lim);
      OverKids(su, q, o.s, a, lim, i + 1);
    }
  }

  lemma {:induction false} OverSlots(su: Super, q: Request, s: State, n: nat, lim: nat, i: nat)
    requires n < NINODES && i <= NPTRS && s.boff == Start(i) && Over(su, q, s, n, lim)
    ensures Mode(q, Slots(su, q, s, InodeAt(su, s.d, n).ptrs, i).0, lim)
    decreases NPTRS - i
  {
    hide Mode, FirstData, RunsOutOfHole, InodeAt, Onward, Rw;
    if i < NPTRS {
      var a, ptrs := Root(n, i), InodeAt(su, s.d, n).ptrs;
      OverNode(su, q, s, a, lim);
      var o := Rw(su, q, s, ptrs[i], Ilevel(i));
      ReadKeepsDisk(su, q, s, ptrs[i], Ilevel(i));
      OnwardMeans(s, o.s);
      ModeBuffer(q, o.s, lim);
      assert ptrs[i := o.p] == ptrs && Start(i) + Cov(Ilevel(i)) == Start(i + 1);
      OverSlots(su, q, o.s, n, lim, i + 1);
    }
  }

  // ----- the exact condition -----

  /** The bytes [off, off + sz) have a part in a mapped block behind the one they start in. */
  predicate MeetsData(su: Super, d: Image, n: nat, off: nat, sz: nat)
    requires n < NINODES
  {
    exists fb: nat :: off / BLOCKSIZE < fb < CAPACITY && fb * BLOCKSIZE < off + sz && BlockMapped(su, d, n, fb)
  }

  /** The read starts strictly inside a hole, runs past it, and goes on into a mapped block or past
      the last byte an inode can address. */
  predicate Overshoots(su: Super, d: Image, n: nat, off: nat, sz: nat)
    requires n < NINODES
  {
    RunsOutOfHole(su, d, n, off, sz) && (MeetsData(su, d, n, off, sz) || off + sz > CAPBYTES)
  }

  /** The number of bytes between off and the end of the file, at most sz. */
  function Clipped(su: Super, d: Image, n: nat, sz: nat, off: nat): nat
  {
    Min(sz, Max(0, InodeAt(su, d, n).size - off))
  }

  lemma {:induction false} FindData(su: Super, d: Image, n: nat, q: Request, fb: nat) returns (lim: nat)
    requires n < NINODES && q.Sblock() < fb <= CAPACITY && NoData(su, d, n, q, fb)
    ensures FirstData(su, d, n, q, lim)
    decreases CAPACITY - fb
  {
    hide BlockMapped;
    if fb == CAPACITY || (BlockMapped(su, d, n, fb) && Wanted(q, fb)) {
      lim := fb;
    } else {
      lim := FindData(su, d, n, q, fb + 1);
    }
  }

  /** What a read that runs out of a hole delivers. */
  lemma OverRead(su: Super, d: Image, n: nat, buf: seq<byte>, sz: nat, off: u32) returns (q: Request, lim: nat)
    requires n < NINODES && su.ninodes == NINODES && sz <= |buf|
    requires RunsOutOfHole(su, d, n, off, Clipped(su, d, n, sz, off))
    ensures q == Request(off, Clipped(su, d, n, sz, off), false) && FirstData(su, d, n, q, lim)
    ensures var r := InodeRw(su, d, n, buf, sz, off, false);
      && (lim == CAPACITY ==> r.n <= |r.buf| && forall k | 0 <= k < r.n :: r.buf[k] == 0)
      && (lim == CAPACITY ==> if off + q.sz <= CAPBYTES then r.n == q.sz else r.n > CAPBYTES - off)
      && (lim < CAPACITY ==> 0 <= lim * BLOCKSIZE - off < r.n <= |r.buf| && r.buf[lim * BLOCKSIZE - off] == 0)
  {
    hide RunsOutOfHole, InodeAt, Slots, BlockMapped, Onward, Rw;
    var di := InodeAt(su, d, n);
    RunsOutInside(su, d, n, off, Clipped(su, d, n, sz, off));
    q := Clip(di, off, sz, false);
    RunsOutData(su, d, n, q);
    lim := FindData(su, d, n, q, q.Sblock() + 1);
    var s := Begin(d, buf, q);
    BeginCursor(d, buf, q);
    OverSlots(su, q, s, n, lim, 0);
    SlotsKeepDisk(su, q, s, di.ptrs, 0);
    var t := Slots(su, q, s, di.ptrs, 0).0;
    assert t.boff == CAPACITY && Mode(q, t, lim);
    assert InodeRw(su, d, n, buf, sz, off, false).buf == t.buf;
  }

  lemma RunsOutInside(su: Super, d: Image, n: nat, off: nat, sz: nat)
    requires n < NINODES && RunsOutOfHole(su, d, n, off, sz)
    ensures off < CAPBYTES && !BlockMapped(su, d, n, off / BLOCKSIZE) && sz > 0
  {
    hide NodeAt;
    HoleContains(su, d, LeafAddr(n, off / BLOCKSIZE));
  }

  lemma RunsOutData(su: Super, d: Image, n: nat, q: Request)
    requires n < NINODES && RunsOutOfHole(su, d, n, q.off, q.sz)
    ensures q.Sblock() + 1 <= CAPACITY && NoData(su, d, n, q, q.Sblock() + 1)
  {
    hide NodeAt;
    RunsOutInside(su, d, n, q.off, q.sz);
    hide BlockMapped, RunsOutOfHole;
  }

  /** Disks with the same inodes and the same pointers; their data may differ. */
  ghost predicate SameMap(su: Super, d: Image, e: Image)
  {
    && |d| == |e|
    && (forall m: nat | m < NINODES :: InodeAt(su, e, m) == InodeAt(su, d, m))
    && (forall x {:trigger NodeAt(su, e, x)} | Valid(x) :: NodeAt(su, e, x) == NodeAt(su, d, x))
  }

  lemma {:induction false} SameHole(su: Super, d: Image, e: Image, x: Addr)
    requires SameMap(su, d, e) && Valid(x) && NodeAt(su, d, x) == 0
    ensures NodeAt(su, e, x) == 0 && Hole(su, e, x) == Hole(su, d, x)
  {
    hide InodeAt, GetPtr;
    if x.Kid? && NodeAt(su, d, x.up) == 0 {
      SameHole(su, d, e, x.up);
    }
  }

  lemma SameOvershoots(su: Super, d: Image, e: Image, n: nat, off: nat, sz: nat)
    requires SameMap(su, d, e) && n < NINODES
    ensures MeetsData(su, e, n, off, sz) == MeetsData(su, d, n, off, sz)
    ensures Overshoots(su, e, n, off, sz) == Overshoots(su, d, n, off, sz)
  {
    hide InodeAt, NodeAt, Hole;
    forall fb: nat | fb < CAPACITY ensures BlockMapped(su, e, n, fb) == BlockMapped(su, d, n, fb) {
    }
    if off < CAPBYTES && !BlockMapped(su, d, n, off / BLOCKSIZE) {
      SameHole(su, d, e, LeafAddr(n, off / BLOCKSIZE));
    }
  }

  lemma ReadRightWithout(su: Super, d: Image, n: nat, buf: seq<byte>, sz: nat, off: u32)
    requires n < NINODES && su.ninodes == NINODES && sz <= |buf|
    requires !Overshoots(su, d, n, off, Clipped(su, d, n, sz, off))
    ensures ReadRight(su, d, n, sz, off, InodeRw(su, d, n, buf, sz, off, false))
  {
    hide RunsOutOfHole, InodeAt, NodeAt, InodeRw;
    var c := Clipped(su, d, n, sz, off);
    if RunsOutOfHole(su, d, n, off, c) {
      RunsOutInside(su, d, n, off, c);
      var q, lim := OverRead(su, d, n, buf, sz, off);
      var r := InodeRw(su, d, n, buf, sz, off, false);
      forall k {:trigger r.buf[k]} | 0 <= k < r.n && off + k < CAPBYTES
        ensures r.buf[k] == FileByte(su, d, n, off + k)
      {
        assert Wanted(q, (off + k) / BLOCKSIZE);
        assert !BlockMapped(su, d, n, (off + k) / BLOCKSIZE);
      }
    } else {
      ReadRefinesView(su, d, n, buf, sz, off);
    }
  }

  /** A disk with the same pointers on which an overshooting read delivers a wrong byte, or more bytes
      than the file has. */
  lemma OvershootWrong(su: Super, d: Image, own: Owners, n: nat, buf: seq<byte>, sz: nat, off: u32)
    returns (e: Image)
    requires Good(su, d, own) && n < NINODES && sz <= |buf|
    requires Overshoots(su, d, n, off, Clipped(su, d, n, sz, off))
    ensures SameMap(su, d, e) && Good(su, e, own)
    ensures !ReadRight(su, e, n, sz, off, InodeRw(su, e, n, buf, sz, off, false))
  {
    hide RunsOutOfHole, InodeAt, NodeAt, InodeRw, Good, Content;
    GoodLaid(su, d, own);
    var q, lim := OverRead(su, d, n, buf, sz, off);
    if lim == CAPACITY {
      e := d;
      return;
    }
    var x := LeafAddr(n, lim);
    assert BlockMapped(su, d, n, lim);
    var b := ReadB(d, NodeAt(su, d, x))[0 := 1];
    e := WriteB(d, NodeAt(su, d, x), b);
    StoreGood(su, d, own, x, b);
    StoreSameMap(su, d, own, x, b);
    SameOvershoots(su, d, e, n, off, q.sz);
    GoodLaid(su, e, own);
    var q', lim' := OverRead(su, e, n, buf, sz, off);
    SameLimit(su, d, e, n, q, lim, lim');
    assert lim * BLOCKSIZE / BLOCKSIZE == lim && lim * BLOCKSIZE % BLOCKSIZE == 0;
    assert Content(su, e, x)[0] == 1;
    WrongByte(su, e, n, sz, off, InodeRw(su, e, n, buf, sz, off, false), lim * BLOCKSIZE - off);
  }

  lemma WrongByte(su: Super, d: Image, n: nat, sz: nat, off: nat, r: Result, k: nat)
    requires n < NINODES && k < Clipped(su, d, n, sz, off) && off + k < CAPBYTES
    requires k < |r.buf| && r.buf[k] != FileByte(su, d, n, off + k)
    ensures !ReadRight(su, d, n, sz, off, r)
  {
    hide InodeAt, FileByte;
  }

  lemma GoodLaid(su: Super, d: Image, own: Owners)
    requires Good(su, d, own)
    ensures su.ninodes == NINODES
  {
  }

  lemma SameLimit(su: Super, d: Image, e: Image, n: nat, q: Request, lim: nat, lim': nat)
    requires n < NINODES && SameMap(su, d, e) && FirstData(su, d, n, q, lim) && FirstData(su, e, n, q, lim')
    ensures lim == lim'
  {
    hide InodeAt, NodeAt;
    forall fb: nat | fb < CAPACITY ensures BlockMapped(su, e, n, fb) == BlockMapped(su, d, n, fb) {
    }
  }

  lemma StoreSameMap(su: Super, d: Image, own: Owners, x: Addr, b: Block)
    requires Good(su, d, own) && Leaf(x) && NodeAt(su, d, x) != 0
    ensures SameMap(su, d, WriteB(d, NodeAt(su, d, x), b))
  {
    hide GetInode, Good, NodeAt;
    NodeOwned(su, d, own, x);
    var e := WriteB(d, NodeAt(su, d, x), b);
    forall y {:trigger NodeAt(su, e, y)} | Valid(y) ensures NodeAt(su, e, y) == NodeAt(su, d, y) {
      StoreNode(su, d, own, x, b, y);
    }
  }

  /** A read of file n at these arguments is right whatever the data blocks hold
      if and only if it does not overshoot. */
  lemma ReadExactly(su: Super, d: Image, own: Owners, n: nat, buf: seq<byte>, sz: nat, off: u32)
    requires Good(su, d, own) && n < NINODES && sz <= |buf|
    ensures (forall e | SameMap(su, d, e) ::
               ReadRight(su, e, n, sz, off, InodeRw(su, e, n, buf, sz, off, false)))
       <==> !Overshoots(su, d, n, off, Clipped(su, d, n, sz, off))
  {
    hide Overshoots, InodeAt, NodeAt, InodeRw, Good, ReadRight;
    GoodLaid(su, d, own);
    var c := Clipped(su, d, n, sz, off);
    if Overshoots(su, d, n, off, c) {
      var e := OvershootWrong(su, d, own, n, buf, sz, off);
    } else {
      forall e | SameMap(su, d, e) ensures ReadRight(su, e, n, sz, off, InodeRw(su, e, n, buf, sz, off, false)) {
        SameOvershoots(su, d, e, n, off, c);
        ReadRightWithout(su, e, n, buf, sz, off);
      }
    }
  }
}

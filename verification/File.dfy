/** Files as byte views: what `inode_rw` does for a write. */
module File {
  import opened Bytes
  import opened Layout
  import opened Tree
  import opened ReadWrite
  import opened Cursor
  import opened WriteProof
  import opened WriteTree

  /** The number of bytes an inode can address. */
  const CAPBYTES: nat := CAPACITY * BLOCKSIZE

  /** Byte k of file n; holes read as zero. */
  function FileByte(su: Super, d: Image, n: nat, k: nat): byte
    requires n < NINODES && k < CAPBYTES
  {
    Content(su, d, LeafAddr(n, k / BLOCKSIZE))[k % BLOCKSIZE]
  }

  /** File block fb of file n has a block of its own. */
  predicate BlockMapped(su: Super, d: Image, n: nat, fb: nat)
    requires n < NINODES && fb < CAPACITY
  {
    NodeAt(su, d, LeafAddr(n, fb)) != 0
  }

  /** Whether the allocatable part of the bitmap is exhausted, or the end of the file's
      pointers was reached. */
  ghost predicate Halted(su: Super, q: Request, n: nat, t: State, e: Image)
  {
    || t.boff == CAPACITY
    || (t.boff < CAPACITY && t.boff <= q.Eblock() && DiskFull(su, e) && HoleFrom(su, q, n, e, t.boff))
  }

  lemma {:induction false} WriteSlots(su: Super, q: Request, s: State, n: nat, d: Image, own: Owners,
                                      ptrs: seq<u32>, i: nat)
    returns (e: Image, own': Owners)
    requires q.w && Good(su, d, own) && CursorOk(q, s) && n < NINODES && i <= NPTRS
    requires InodeAt(su, d, n).ptrs == ptrs && s.boff == Start(i)
    requires Agree(s.d, d, {InodeBlock(su, n)})
    ensures s.InBuffer() && |ptrs| == NPTRS
    ensures var (t, ptrs') := Slots(su, q, s, ptrs, i);
      && Wrote(su, q, n, s, d, own, t, e, own')
      && Agree(t.d, e, {InodeBlock(su, n)})
      && AgreeOn(t.d, s.d, {InodeBlock(su, n)})
      && InodeAt(su, e, n).ptrs == ptrs'
      && OnlyTouched(su, q, n, d, e, s.boff, t.boff)
      && Halted(su, q, n, t, e)
    decreases NPTRS - i
  {
    hide OnlyTouched, Wrote, Agree, AgreeOn, Good, CursorOk, Rw, DiskFull, InodeAt, HoleFrom;
    SkipBuffer(q, s);
    if i == NPTRS {
      e, own' := d, own;
      WroteNothing(su, q, n, s, d, own);
      NothingTouched(su, q, n, d, s.boff, s.boff);
      SelfAgrees(s.d, {InodeBlock(su, n)});
    } else {
      var a := Root(n, i);
      assert Open(su, d, a) == {InodeBlock(su, n)};
      var e1, own1 := WriteNode(su, q, s, a, d, own);
      var o := Rw(su, q, s, ptrs[i], Ilevel(i));
      WroteGood(su, q, n, s, d, own, o.s, e1, own1);
      if o.ok {
        assert Start(i) + Cov(Ilevel(i)) == Start(i + 1);
        e, own' := WriteSlots(su, q, o.s, n, e1, own1, ptrs[i := o.p], i + 1);
        var r := Slots(su, q, o.s, ptrs[i := o.p], i + 1);
        WroteThenWrote(su, q, n, s, d, own, o.s, e1, own1, r.0, e, own');
        WroteGood(su, q, n, o.s, e1, own1, r.0, e, own');
        TouchedTwice(su, q, n, d, e1, e, s.boff, o.s.boff, o.s.boff, r.0.boff);
        AgreeTwice(s.d, o.s.d, r.0.d, {InodeBlock(su, n)});
      } else {
        e, own' := e1, own1;
        assert Start(i) + Cov(Ilevel(i)) <= CAPACITY;
      }
    }
  }

  // ----- replacing an inode without touching its pointers -----

  /** d and e have the same inode pointers, and the same blocks outside the inode area. */
  ghost predicate SameTrees(su: Super, d: Image, e: Image)
  {
    && |d| == |e|
    && (forall p: nat | p < su.sinode || su.sbitmap <= p :: ReadB(e, p) == ReadB(d, p))
    && (forall m: nat | m < NINODES :: InodeAt(su, e, m).ptrs == InodeAt(su, d, m).ptrs)
  }

  lemma {:induction false} SameTreesNode(su: Super, d: Image, own: Owners, e: Image, x: Addr)
    requires Good(su, d, own) && SameTrees(su, d, e) && Valid(x)
    ensures NodeAt(su, e, x) == NodeAt(su, d, x)
  {
    hide GetPtr, GetInode, BitmapExact;
    if x.Kid? {
      SameTreesNode(su, d, own, e, x.up);
      if NodeAt(su, d, x.up) != 0 {
        NodeOwned(su, d, own, x.up);
      }
    }
  }

  lemma SameTreesContent(su: Super, d: Image, own: Owners, e: Image, x: Addr)
    requires Good(su, d, own) && SameTrees(su, d, e) && Leaf(x)
    ensures Content(su, e, x) == Content(su, d, x)
  {
    hide NodeAt, BitmapExact, InodeAt, Forest;
    SameTreesNode(su, d, own, e, x);
    if NodeAt(su, d, x) != 0 {
      NodeOwned(su, d, own, x);
    }
  }

  lemma SameTreesGood(su: Super, d: Image, own: Owners, e: Image)
    requires Good(su, d, own) && SameTrees(su, d, e)
    ensures Good(su, e, own)
  {
    hide NodeAt, InodeAt, BitAt, BitmapExact;
    forall x {:trigger NodeAt(su, e, x)} | Valid(x) ensures NodeAt(su, e, x) == NodeAt(su, d, x) {
      SameTreesNode(su, d, own, e, x);
    }
    SameForest(su, d, own, e);
    SameTreesBitmap(su, d, own, e);
  }

  lemma SameTreesBitmap(su: Super, d: Image, own: Owners, e: Image)
    requires WellLaid(su, |d|) && BitmapExact(su, d, own) && SameTrees(su, d, e)
    ensures BitmapExact(su, e, own)
  {
    hide InodeAt, Used;
    SameTreesUsed(su, d, e);
    forall k: nat | k < NBits(su) ensures BitExact(su, e, own, k) {
      assert BitExact(su, d, own, k);
    }
  }

  lemma SameTreesUsed(su: Super, d: Image, e: Image)
    requires SameTrees(su, d, e)
    ensures forall k {:trigger Used(su, e, k)} | 0 <= k < NBits(su) :: Used(su, e, k) == Used(su, d, k)
  {
    hide BitAt, InodeAt;
  }

  lemma SameTreesFull(su: Super, d: Image, e: Image)
    requires SameTrees(su, d, e) && su.sdata == su.sbitmap + 1
    ensures DiskFull(su, e) <==> DiskFull(su, d)
  {
    hide BitSet, InodeAt;
  }

  /** The final inode write of `inode_rw`. */
  lemma FinishTrees(su: Super, d: Image, t: Image, e: Image, own': Owners, n: nat, di: Dinode)
    requires Good(su, e, own') && n < NINODES && |d| == |t|
    requires Agree(t, e, {InodeBlock(su, n)}) && AgreeOn(t, d, {InodeBlock(su, n)})
    requires InodesKept(su, d, e, n) && InodeAt(su, e, n).ptrs == di.ptrs
    ensures SameTrees(su, e, WriteInode(su, t, n, di))
    ensures InodeAt(su, WriteInode(su, t, n, di), n) == di
    ensures forall m: nat | m < NINODES && m != n ::
      InodeAt(su, WriteInode(su, t, n, di), m) == InodeAt(su, d, m)
  {
    hide GetInode, PutInode, Forest, BitmapExact;
    var f := WriteInode(su, t, n, di);
    forall m: nat | m < NINODES ensures InodeAt(su, f, m) == if m == n then di else InodeAt(su, d, m) {
      InodeReadWrite(su, t, n, di, m);
      if m != n {
        assert InodeAt(su, t, m) == InodeAt(su, d, m) by {
          if InodeBlock(su, m) != InodeBlock(su, n) {
            assert InodeAt(su, t, m) == InodeAt(su, e, m);
          }
        }
      }
    }
  }

  // ----- from patched blocks to bytes -----

  lemma PatchedByte(su: Super, q: Request, n: nat, buf: seq<byte>, d: Image, e: Image, hi: nat, m: nat, k: nat)
    requires q.sz <= |buf| && Patched(su, q, n, buf, d, e, 0, hi)
    requires n < NINODES && m < NINODES && k < CAPBYTES
    ensures FileByte(su, e, m, k) ==
      if m == n && q.off <= k < q.off + Before(q, hi) then buf[k - q.off] else FileByte(su, d, m, k)
  {
    hide NodeAt, Content;
    var x := LeafAddr(m, k / BLOCKSIZE);
    var fb, i := k / BLOCKSIZE, k % BLOCKSIZE;
    assert k == fb * BLOCKSIZE + i;
    assert Leaf(x) && Fb(x) == fb && Ino(x) == m;
    assert Content(su, e, x) == if m == n && fb < hi then Patch(q, buf, Content(su, d, x), fb) else Content(su, d, x);
    if m == n && fb < hi {
      assert Hit(q, fb, i) <==> q.off <= k < q.off + q.sz;
      assert Hit(q, fb, i) <==> q.off <= k < q.off + Before(q, hi);
    }
  }

  // ----- the write -----

  /** What a write of file n may change: that file's bytes, its size, and the bitmap. */
  ghost predicate WriteEffect(su: Super, d: Image, own: Owners, n: nat, buf: seq<byte>, sz: nat, off: u32,
                              r: Result, own': Owners)
    requires n < NINODES && sz <= |buf|
  {
    && Good(su, r.d, own')
    && Extends(own, own')
    && r.buf == buf
    && 0 <= r.n <= sz
    && off + r.n < WORD
    && r.n <= Max(0, CAPBYTES - off)
    && InodeAt(su, r.d, n).size == Max(InodeAt(su, d, n).size, off + r.n)
    && MetaButSize(InodeAt(su, r.d, n)) == MetaButSize(InodeAt(su, d, n))
    && (forall m: nat | m < NINODES && m != n :: InodeAt(su, r.d, m) == InodeAt(su, d, m))
    && PlainKept(su, d, r.d)
    && (forall m: nat, k: nat {:trigger FileByte(su, r.d, m, k)} | m < NINODES && k < CAPBYTES ::
          FileByte(su, r.d, m, k) ==
            if m == n && off <= k < off + r.n then buf[k - off] else FileByte(su, d, m, k))
  }

  function MetaButSize(di: Dinode): Dinode
  {
    Meta(di).(size := 0)
  }

  /** A write that moved fewer bytes than asked ran out of blocks or out of pointers,
      and stopped at the end of a block. */
  ghost predicate ShortExplained(su: Super, sz: nat, off: u32, r: Result)
  {
    r.n < sz ==>
      && (DiskFull(su, r.d) || (off + sz > CAPBYTES && r.n == Max(0, CAPBYTES - off)))
      && (r.n == 0 || (off + r.n) % BLOCKSIZE == 0)
  }

  /** The file block at which the recursion of a write stopped. */
  function Stop(su: Super, d: Image, n: nat, buf: seq<byte>, sz: nat, off: u32): nat
    requires sz <= |buf|
  {
    Slots(su, Request(off, sz, true), Begin(d, buf, Request(off, sz, true)), InodeAt(su, d, n).ptrs, 0).0.boff
  }

  /** Which blocks a write that stopped at a file block maps: those of its inclusive interval before
      the stop, so also one past the data when the data ends with a block. All other leaves are as
      they were, and so are the index pointers the interval does not meet. */
  ghost predicate MapEffect(su: Super, d: Image, n: nat, sz: nat, off: u32, stop: nat, r: Result)
    requires n < NINODES
  {
    var q := Request(off, sz, true);
    && (stop == 16650 ||
        (stop < 16650 && stop <= (off + sz) / 512 && DiskFull(su, r.d) && HoleFrom(su, q, n, r.d, stop)))
    && r.n == Before(q, stop)
    && OnlyTouched(su, q, n, d, r.d, 0, stop)
    && forall m: nat, fb: nat {:trigger BlockMapped(su, r.d, m, fb)} | m < NINODES && fb < CAPACITY ::
         BlockMapped(su, r.d, m, fb) <==>
           BlockMapped(su, d, m, fb) || (m == n && off / 512 <= fb <= (off + sz) / 512 && fb < stop)
  }

  /** Every block that took part of the data is mapped. */
  ghost predicate WrittenMapped(su: Super, n: nat, off: u32, r: Result)
    requires n < NINODES
  {
    forall fb: nat {:trigger BlockMapped(su, r.d, n, fb)} |
      fb < CAPACITY && r.n > 0 && off < (fb + 1) * BLOCKSIZE && fb * BLOCKSIZE < off + r.n ::
        BlockMapped(su, r.d, n, fb)
  }

  /** What the end of a write needs to know of its loops. */
  lemma WroteParts(su: Super, q: Request, n: nat, d: Image, own: Owners, buf: seq<byte>,
                   t: State, e: Image, own': Owners)
    requires q.w && q.sz <= |buf| && Halted(su, q, n, t, e)
    requires Wrote(su, q, n, Begin(d, buf, q), d, own, t, e, own')
    ensures Good(su, e, own') && WellLaid(su, |e|) && Extends(own, own') && t.buf == buf
    ensures CursorOk(q, t) && t.boff <= CAPACITY && t.left == q.sz - Before(q, t.boff)
    ensures q.off + Before(q, t.boff) < WORD && Before(q, t.boff) <= Max(0, CAPBYTES - q.off)
    ensures InodesKept(su, d, e, n) && PlainKept(su, d, e)
    ensures Patched(su, q, n, buf, d, e, 0, t.boff) && Mapped(su, q, n, e, 0, t.boff)
  {
    hide Forest, BitmapExact, WellLaid, DiskFull, InodesKept, PlainKept, Patched, Mapped;
  }

  /** What the loops of a write leave: the cursor t and the pointers ptrs, and the image e with own'. */
  ghost predicate Looped(su: Super, q: Request, n: nat, d: Image, own: Owners, buf: seq<byte>,
                         t: State, ptrs: seq<u32>, e: Image, own': Owners)
    requires q.sz <= |buf| && n < NINODES
  {
    && Good(su, e, own') && WellLaid(su, |e|) && Extends(own, own') && t.buf == buf
    && CursorOk(q, t) && t.left <= q.sz && q.sz - t.left == Before(q, t.boff) <= Max(0, CAPBYTES - q.off)
    && InodesKept(su, d, e, n) && PlainKept(su, d, e) && OnlyTouched(su, q, n, d, e, 0, t.boff)
    && Patched(su, q, n, buf, d, e, 0, t.boff) && Mapped(su, q, n, e, 0, t.boff)
    && |t.d| == |d| && Agree(t.d, e, {InodeBlock(su, n)}) && AgreeOn(t.d, d, {InodeBlock(su, n)})
    && InodeAt(su, e, n).ptrs == ptrs && Halted(su, q, n, t, e)
  }

  lemma LoopWrite(su: Super, q: Request, d: Image, own: Owners, n: nat, buf: seq<byte>)
    returns (e: Image, own': Owners)
    requires Good(su, d, own) && n < NINODES && q.sz <= |buf| && q.w
    ensures var (t, ptrs) := Slots(su, q, Begin(d, buf, q), InodeAt(su, d, n).ptrs, 0);
      Looped(su, q, n, d, own, buf, t, ptrs, e, own')
  {
    hide OnlyTouched, Wrote, Agree, AgreeOn, CursorOk, DiskFull, InodeAt, Slots, Good;
    var s := Begin(d, buf, q);
    var ptrs0 := InodeAt(su, d, n).ptrs;
    BeginCursor(d, buf, q);
    AgreeSelf(d, {InodeBlock(su, n)});
    e, own' := WriteSlots(su, q, s, n, d, own, ptrs0, 0);
    var (t, ptrs) := Slots(su, q, s, ptrs0, 0);
    WroteParts(su, q, n, d, own, buf, t, e, own');
  }

  /** A write of sz bytes at off: what it changes, why it may be short, and which blocks it maps. */
  lemma WriteRefinesView(su: Super, d: Image, own: Owners, n: nat, buf: seq<byte>, sz: nat, off: u32)
    returns (own': Owners)
    requires Good(su, d, own) && n < NINODES && sz <= |buf|
    ensures var r := InodeRw(su, d, n, buf, sz, off, true);
      && WriteEffect(su, d, own, n, buf, sz, off, r, own')
      && ShortExplained(su, sz, off, r)
      && WrittenMapped(su, n, off, r)
      && MapEffect(su, d, n, sz, off, Stop(su, d, n, buf, sz, off), r)
  {
    hide Agree, AgreeOn, CursorOk, DiskFull, InodeAt, Slots, Forest, BitmapExact, Halted, Before, Patched, Mapped,
         InodesKept, PlainKept, Extends, SameTrees, FileByte, NodeAt, WriteInode, ShortExplained, WrittenMapped,
         MapEffect, OnlyTouched;
    assert su.ninodes == NINODES;
    hide Good, WellLaid;
    var q := Request(off, sz, true);
    var di := InodeAt(su, d, n);
    var e;
    e, own' := LoopWrite(su, q, d, own, n, buf);
    var (t, ptrs) := Slots(su, q, Begin(d, buf, q), di.ptrs, 0);
    var c := q.sz - t.left;
    assert off + c < WORD;
    var di' := Written(di, ptrs, off + c);
    var f := WriteInode(su, t.d, n, di');
    FinishTrees(su, d, t.d, e, own', n, di');
    SameTreesGood(su, e, own', f);
    FinishPlain(su, d, e, f);
    FinishBytes(su, q, n, buf, d, e, own', f, t);
    FinishShort(su, q, n, e, f, t);
    FinishMapped(su, q, n, e, own', f, t);
    FinishMap(su, q, n, d, own, e, own', f, t);
  }

  lemma AgreeSelf(d: Image, but: set<nat>)
    ensures Agree(d, d, but)
  {
  }

  lemma FinishPlain(su: Super, d: Image, e: Image, f: Image)
    requires PlainKept(su, d, e) && SameTrees(su, e, f) && WellLaid(su, |e|)
    ensures PlainKept(su, d, f)
  {
    hide InodeAt;
  }

  lemma FinishBytes(su: Super, q: Request, n: nat, buf: seq<byte>, d: Image, e: Image, own': Owners, f: Image, t: State)
    requires Good(su, e, own') && SameTrees(su, e, f) && n < NINODES && q.sz <= |buf|
    requires Patched(su, q, n, buf, d, e, 0, t.boff)
    ensures forall m: nat, k: nat {:trigger FileByte(su, f, m, k)} | m < NINODES && k < CAPBYTES ::
      FileByte(su, f, m, k) ==
        if m == n && q.off <= k < q.off + Before(q, t.boff) then buf[k - q.off] else FileByte(su, d, m, k)
  {
    hide Good, SameTrees, Patched, Content, Before;
    forall m: nat, k: nat {:trigger FileByte(su, f, m, k)} | m < NINODES && k < CAPBYTES
      ensures FileByte(su, f, m, k) ==
        if m == n && q.off <= k < q.off + Before(q, t.boff) then buf[k - q.off] else FileByte(su, d, m, k)
    {
      SameTreesContent(su, e, own', f, LeafAddr(m, k / BLOCKSIZE));
      PatchedByte(su, q, n, buf, d, e, t.boff, m, k);
    }
  }

  lemma FinishShort(su: Super, q: Request, n: nat, e: Image, f: Image, t: State)
    requires SameTrees(su, e, f) && WellLaid(su, |e|) && Halted(su, q, n, t, e) && CursorOk(q, t)
    ensures ShortExplained(su, q.sz, q.off, Result(f, t.buf, q.sz - t.left))
  {
    hide InodeAt, Used;
    SameTreesFull(su, e, f);
  }

  lemma FinishMapped(su: Super, q: Request, n: nat, e: Image, own': Owners, f: Image, t: State)
    requires SameTrees(su, e, f) && Good(su, e, own') && CursorOk(q, t) && n < NINODES
    requires Mapped(su, q, n, e, 0, t.boff)
    ensures WrittenMapped(su, n, q.off, Result(f, t.buf, q.sz - t.left))
  {
    hide NodeAt, Good, InodeAt;
    var c := q.sz - t.left;
    forall fb: nat {:trigger BlockMapped(su, f, n, fb)} |
      fb < CAPACITY && c > 0 && q.off < (fb + 1) * BLOCKSIZE && fb * BLOCKSIZE < q.off + c
      ensures BlockMapped(su, f, n, fb)
    {
      var x := LeafAddr(n, fb);
      assert fb < t.boff && Touched(q, fb);
      assert NodeAt(su, e, x) != 0;
      SameTreesNode(su, e, own', f, x);
    }
  }

  lemma FinishMap(su: Super, q: Request, n: nat, d: Image, own: Owners, e: Image, own': Owners, f: Image, t: State)
    requires q.w && Good(su, d, own) && Good(su, e, own') && Extends(own, own') && SameTrees(su, e, f)
    requires Halted(su, q, n, t, e) && CursorOk(q, t) && n < NINODES
    requires Mapped(su, q, n, e, 0, t.boff) && OnlyTouched(su, q, n, d, e, 0, t.boff)
    ensures MapEffect(su, d, n, q.sz, q.off, t.boff, Result(f, t.buf, q.sz - t.left))
  {
    assert q == Request(q.off, q.sz, true) && WellLaid(su, |e|);
    hide NodeAt, InodeAt, Good, Overlaps, Valid, DiskFull, OnlyTouched, Mapped, Extends, HoleFrom, SameTrees;
    HaltedStays(su, q, n, e, own', f, t);
    FinishTouched(su, q, n, d, e, own', f, t.boff);
    assert q.sz - t.left == Before(q, t.boff);
    hide WellLaid, CursorOk, Before;
    forall m: nat, fb: nat {:trigger BlockMapped(su, f, m, fb)} | m < NINODES && fb < CAPACITY
      ensures BlockMapped(su, f, m, fb) <==> BlockMapped(su, d, m, fb) || (m == n && Touched(q, fb) && fb < t.boff)
    {
      SameTreesNode(su, e, own', f, LeafAddr(m, fb));
      LeafMap(su, q, n, d, own, e, own', t.boff, LeafAddr(m, fb));
    }
  }

  lemma HaltedStays(su: Super, q: Request, n: nat, e: Image, own': Owners, f: Image, t: State)
    requires Good(su, e, own') && SameTrees(su, e, f) && Halted(su, q, n, t, e)
    ensures Halted(su, q, n, t, f)
  {
    hide NodeAt, InodeAt, Forest, BitmapExact, DiskFull;
    SameTreesFull(su, e, f);
    if t.boff != CAPACITY {
      SameTreesNode(su, e, own', f, LeafAddr(n, Max(t.boff, q.Sblock())));
    }
  }

  lemma FinishTouched(su: Super, q: Request, n: nat, d: Image, e: Image, own': Owners, f: Image, hi: nat)
    requires Good(su, e, own') && SameTrees(su, e, f) && OnlyTouched(su, q, n, d, e, 0, hi)
    ensures OnlyTouched(su, q, n, d, f, 0, hi)
  {
    hide NodeAt, Good, Overlaps, Valid, SameTrees;
    forall a {:trigger NodeAt(su, f, a)} | Valid(a) ensures NodeAt(su, f, a) == NodeAt(su, e, a) {
      SameTreesNode(su, e, own', f, a);
    }
  }

  /** A leaf is mapped afterwards exactly if it was before, or the stretch of the write reached it. */
  lemma LeafMap(su: Super, q: Request, n: nat, d: Image, own: Owners, e: Image, own': Owners, hi: nat, x: Addr)
    requires Good(su, d, own) && Good(su, e, own') && Extends(own, own') && Leaf(x)
    requires Mapped(su, q, n, e, 0, hi) && OnlyTouched(su, q, n, d, e, 0, hi)
    ensures NodeAt(su, e, x) != 0 <==> NodeAt(su, d, x) != 0 || (Ino(x) == n && Touched(q, Fb(x)) && Fb(x) < hi)
  {
    hide NodeAt, Good;
    if NodeAt(su, d, x) != 0 {
      NodeStays(su, d, own, e, own', x);
    } else if NodeAt(su, e, x) != 0 {
      assert Overlaps(q, Fb(x), Fb(x) + Cov(Lvl(x)));
    }
  }
}

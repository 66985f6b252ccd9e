/** What a recursive write does to the forest and to the contents of the files. */
module WriteProof {
  import opened Bytes
  import opened Layout
  import opened Tree
  import opened ReadWrite
  import opened Cursor

  /** d and e agree except perhaps on the blocks of the given set. */
  ghost predicate Agree(d: Image, e: Image, but: set<nat>)
  {
    |d| == |e| && forall p: nat | p !in but :: ReadB(d, p) == ReadB(e, p)
  }

  ghost predicate AgreeOn(d: Image, e: Image, on: set<nat>)
  {
    forall p | p in on :: ReadB(d, p) == ReadB(e, p)
  }

  ghost predicate Extends(own: Owners, own': Owners)
  {
    forall p | p in own :: p in own' && own'[p] == own[p]
  }

  /** An inode without its pointers. */
  function Meta(di: Dinode): Dinode
  {
    Dinode(di.typ, di.major, di.minor, di.linkcnt, di.size, NoPtrs())
  }

  /** Inodes other than n are the same, and inode n is up to its pointers. */
  ghost predicate InodesKept(su: Super, d: Image, e: Image, n: nat)
  {
    forall m: nat | m < NINODES ::
      && (m != n ==> InodeAt(su, e, m) == InodeAt(su, d, m))
      && Meta(InodeAt(su, e, m)) == Meta(InodeAt(su, d, m))
  }

  /** Blocks outside the inode, bitmap and data areas are the same. */
  ghost predicate PlainKept(su: Super, d: Image, e: Image)
  {
    forall p: nat | p < su.sinode || p >= su.sdata + su.nblockDat :: ReadB(e, p) == ReadB(d, p)
  }

  /** The files after the blocks [lo, hi) of file n took their part of the request. */
  ghost predicate Patched(su: Super, q: Request, n: nat, buf: seq<byte>, d: Image, e: Image, lo: nat, hi: nat)
    requires q.sz <= |buf|
  {
    forall x {:trigger Content(su, e, x)} | Leaf(x) ::
      Content(su, e, x) ==
        if Ino(x) == n && lo <= Fb(x) < hi then Patch(q, buf, Content(su, d, x), Fb(x)) else Content(su, d, x)
  }

  /** The blocks of [lo, hi) that the request touches are mapped. */
  ghost predicate Mapped(su: Super, q: Request, n: nat, e: Image, lo: nat, hi: nat)
  {
    forall x {:trigger NodeAt(su, e, x)} | Leaf(x) && Ino(x) == n && lo <= Fb(x) < hi && Touched(q, Fb(x)) ::
      NodeAt(su, e, x) != 0
  }

  /** Of the pointers that were null, only those of file n that the request reaches got a block,
      and of the leaves among them only those of the blocks [lo, hi). */
  ghost predicate OnlyTouched(su: Super, q: Request, n: nat, d: Image, e: Image, lo: nat, hi: nat)
  {
    forall a {:trigger NodeAt(su, e, a)} | Valid(a) && NodeAt(su, d, a) == 0 && NodeAt(su, e, a) != 0 ::
      && Ino(a) == n && Overlaps(q, Fb(a), Fb(a) + Cov(Lvl(a)))
      && (Lvl(a) == 0 ==> lo <= Fb(a) < hi)
  }

  /** Pointers other than the one at a are the same. */
  ghost predicate OnlyAt(su: Super, d: Image, e: Image, a: Addr)
  {
    forall x {:trigger NodeAt(su, e, x)} | Valid(x) && x != a :: NodeAt(su, e, x) == NodeAt(su, d, x)
  }

  lemma NothingTouched(su: Super, q: Request, n: nat, d: Image, lo: nat, hi: nat)
    ensures OnlyTouched(su, q, n, d, d, lo, hi)
  {
    hide NodeAt, Valid;
  }

  lemma TouchedTwice(su: Super, q: Request, n: nat, d: Image, e: Image, f: Image,
                     lo: nat, mid: nat, from: nat, hi: nat)
    requires OnlyTouched(su, q, n, d, e, lo, mid) && OnlyTouched(su, q, n, e, f, from, hi)
    requires lo <= from && mid <= hi
    ensures OnlyTouched(su, q, n, d, f, lo, hi)
  {
    hide NodeAt, Valid, Overlaps;
    forall a {:trigger NodeAt(su, f, a)} | Valid(a) && NodeAt(su, d, a) == 0 && NodeAt(su, f, a) != 0
      ensures Ino(a) == n && Overlaps(q, Fb(a), Fb(a) + Cov(Lvl(a))) && (Lvl(a) == 0 ==> lo <= Fb(a) < hi)
    {
      if NodeAt(su, e, a) == 0 {
        assert NodeAt(su, f, a) != 0;
      }
    }
  }

  /** The leaf blocks that giving the pointer at a a block can map. */
  function LeafEnd(a: Addr): nat
  {
    if Lvl(a) == 0 then Fb(a) + 1 else Fb(a)
  }

  lemma TouchedHere(su: Super, q: Request, d: Image, e: Image, a: Addr)
    requires Valid(a) && OnlyAt(su, d, e, a) && Overlaps(q, Fb(a), Fb(a) + Cov(Lvl(a)))
    ensures OnlyTouched(su, q, Ino(a), d, e, Fb(a), LeafEnd(a))
  {
    hide NodeAt, Valid, Overlaps;
  }

  lemma AllocateOnlyAt(su: Super, d: Image, own: Owners, a: Addr, k: nat)
    requires CanAllocate(su, d, own, a, k) && su.sdata + k < WORD
    ensures OnlyAt(su, d, Allocate(su, d, a, k), a)
  {
    hide NodeAt, Allocate, Used, Good, Reached;
    assert k < NBits(su) && Valid(a);
    hide CanAllocate;
    forall x {:trigger NodeAt(su, Allocate(su, d, a, k), x)} | Valid(x) && x != a
      ensures NodeAt(su, Allocate(su, d, a, k), x) == NodeAt(su, d, x)
    {
      AllocateNode(su, d, own, a, k, x);
    }
  }

  /** One stretch of a write of file n, from cursor s to cursor t. The images d and e are
      the disk with every pointer block still held in memory put in its place. */
  ghost predicate Wrote(su: Super, q: Request, n: nat, s: State, d: Image, own: Owners,
                        t: State, e: Image, own': Owners)
  {
    && Good(su, e, own')
    && Extends(own, own')
    && s.boff <= t.boff
    && t.buf == s.buf
    && CursorOk(q, s)
    && CursorOk(q, t)
    && InodesKept(su, d, e, n)
    && PlainKept(su, d, e)
    && Patched(su, q, n, s.buf, d, e, s.boff, t.boff)
    && Mapped(su, q, n, e, s.boff, t.boff)
  }

  /** The pointer at a became r; the blocks on the way to it are otherwise the same. */
  ghost predicate PointerSet(su: Super, d: Image, e: Image, a: Addr, r: u32)
    requires Valid(a) && Ino(a) < NINODES
  {
    && InodeAt(su, e, Ino(a)) == InodeWith(su, d, a, Ino(a), r)
    && (a.Kid? ==> ReadB(e, Holder(su, d, a)) == SetPtr(ReadB(d, Holder(su, d, a)), a.i, r))
    && AgreeOn(e, d, Open(su, d, a) - {Holder(su, d, a)})
  }

  lemma NodeStays(su: Super, d: Image, own: Owners, e: Image, own': Owners, a: Addr)
    requires Good(su, d, own) && Good(su, e, own') && Extends(own, own')
    requires Valid(a) && NodeAt(su, d, a) != 0
    ensures NodeAt(su, e, a) == NodeAt(su, d, a)
  {
    hide NodeAt, Valid;
    assert NodeAt(su, d, a) in own;
  }

  lemma {:induction false} OpenStays(su: Super, d: Image, own: Owners, e: Image, own': Owners, a: Addr)
    requires Good(su, d, own) && Good(su, e, own') && Extends(own, own')
    requires Valid(a) && Reached(su, d, a)
    ensures Open(su, e, a) == Open(su, d, a) && Holder(su, e, a) == Holder(su, d, a) && Reached(su, e, a)
  {
    match a
    case Root(_, _) =>
    case Kid(up, _) =>
      NodeStays(su, d, own, e, own', up);
      ReachedUp(su, d, up);
      OpenStays(su, d, own, e, own', up);
  }

  lemma ReachedUp(su: Super, d: Image, a: Addr)
    requires Valid(a) && NodeAt(su, d, a) != 0
    ensures Reached(su, d, a)
  {
  }

  lemma WroteNothing(su: Super, q: Request, n: nat, s: State, d: Image, own: Owners)
    requires Good(su, d, own) && CursorOk(q, s)
    ensures Wrote(su, q, n, s, d, own, s, d, own)
  {
    hide NodeAt, InodeAt;
  }

  lemma WroteThenWrote(su: Super, q: Request, n: nat, s: State, d: Image, own: Owners,
                       t: State, e: Image, own1: Owners, u: State, f: Image, own2: Owners)
    requires Wrote(su, q, n, s, d, own, t, e, own1)
    requires Wrote(su, q, n, t, e, own1, u, f, own2)
    ensures Wrote(su, q, n, s, d, own, u, f, own2)
  {
    assert q.sz <= |s.buf|;
    hide Good, CursorOk, InodeAt, Patch;
    assert Patched(su, q, n, s.buf, d, f, s.boff, u.boff) by {
      hide NodeAt;
      forall x {:trigger Content(su, f, x)} | Leaf(x)
        ensures Content(su, f, x) == if Ino(x) == n && s.boff <= Fb(x) < u.boff
                                     then Patch(q, s.buf, Content(su, d, x), Fb(x)) else Content(su, d, x)
      {
        assert Content(su, e, x) == Content(su, e, x);
      }
    }
    assert Mapped(su, q, n, f, s.boff, u.boff) by {
      forall x {:trigger NodeAt(su, f, x)} | Leaf(x) && Ino(x) == n && s.boff <= Fb(x) < u.boff && Touched(q, Fb(x))
        ensures NodeAt(su, f, x) != 0
      {
        if Fb(x) < t.boff {
          assert NodeAt(su, e, x) != 0;
          NodeStays(su, e, own1, f, own2, x);
        }
      }
    }
    assert InodesKept(su, d, f, n);
    assert PlainKept(su, d, f);
  }

  /** The step into a pointer that the request needs: the null pointer gets a block of its own. */
  lemma ProvideStep(su: Super, q: Request, s: State, a: Addr, d: Image, own: Owners)
    returns (e: Image, own': Owners)
    requires q.w && Good(su, d, own) && Valid(a) && Reached(su, d, a)
    requires CursorOk(q, s) && Agree(s.d, d, Open(su, d, a)) && 0 <= Lvl(a) && Ino(a) < NINODES
    ensures var r := Provide(su, s.d, NodeAt(su, d, a), Lvl(a));
      if r.1 == 0 then NodeAt(su, d, a) == 0 && DiskFull(su, d) && r.0 == s.d else
        && NodeAt(su, e, a) == r.1
        && Wrote(su, q, Ino(a), s, d, own, s.(d := r.0), e, own')
        && Agree(r.0, e, Open(su, d, a))
        && AgreeOn(r.0, s.d, Open(su, d, a))
        && PointerSet(su, d, e, a, r.1)
        && OnlyAt(su, d, e, a)
  {
    hide Wrote, PointerSet, AgreeOn, CursorOk, NodeAt, InodeAt, Forest, BitmapExact, Allocate, Open;
    e, own' := d, own;
    if NodeAt(su, d, a) != 0 {
      SameNothing(su, q, s, a, d, own);
      assert AgreeOn(s.d, s.d, Open(su, d, a)) by { AgreeOnSelf(s.d, Open(su, d, a)); }
    } else {
      BitmapNotOpen(su, d, own, a);
      assert ReadB(s.d, su.sbitmap) == ReadB(d, su.sbitmap);
      var k := FirstClear(ReadB(d, su.sbitmap), NBits(su), 0);
      if k < NBits(su) {
        e, own' := Allocate(su, d, a, k), own[su.sdata + k := a];
        assert FirstFree(su, d, own, a, k);
        AllocateOnlyAt(su, d, own, a, k);
        hide Agree, Good, Provide, FirstFree, OnlyAt;
        AllocateStep(su, q, s, a, d, own, k);
      } else {
        FullUsed(su, d);
      }
    }
  }

  /** A block taken to hold pointers is cleared, whatever it held; a data block is left as it was. */
  lemma IndexCleared(su: Super, d: Image, lvl: nat)
    requires Provide(su, d, 0, lvl).1 != 0 && Provide(su, d, 0, lvl).1 != su.sbitmap
    ensures var (e, p) := Provide(su, d, 0, lvl);
      ReadB(e, p) == if lvl > 0 then Zeros(512) else ReadB(d, p)
  {
    hide BitAt, SetBitAt, FirstClear;
  }

  lemma AgreeOnSelf(d: Image, on: set<nat>)
    ensures AgreeOn(d, d, on)
  {
  }

  lemma BitmapNotOpen(su: Super, d: Image, own: Owners, a: Addr)
    requires Good(su, d, own) && Valid(a) && Reached(su, d, a)
    ensures su.sbitmap !in Open(su, d, a)
  {
    if su.sbitmap in Open(su, d, a) {
      OpenMembers(su, d, own, a, su.sbitmap);
    }
  }

  lemma SameNothing(su: Super, q: Request, s: State, a: Addr, d: Image, own: Owners)
    requires Good(su, d, own) && CursorOk(q, s) && Valid(a) && Reached(su, d, a) && Ino(a) < NINODES
    ensures Wrote(su, q, Ino(a), s, d, own, s, d, own)
    ensures PointerSet(su, d, d, a, NodeAt(su, d, a))
  {
    hide GetPtr, SetPtr, GetInode, Good, CursorOk;
    WroteNothing(su, q, Ino(a), s, d, own);
    if a.Kid? {
      PtrSetSame(ReadB(d, Holder(su, d, a)), a.i);
    } else {
      var di := InodeAt(su, d, a.ino);
      assert di.ptrs[a.slot := di.ptrs[a.slot]] == di.ptrs;
    }
  }

  ghost predicate FirstFree(su: Super, d: Image, own: Owners, a: Addr, k: nat)
  {
    && CanAllocate(su, d, own, a, k) && su.sdata + k < WORD
    && k == FirstClear(ReadB(d, su.sbitmap), NBits(su), 0)
  }

  lemma AllocateStep(su: Super, q: Request, s: State, a: Addr, d: Image, own: Owners, k: nat)
    requires FirstFree(su, d, own, a, k)
    requires CursorOk(q, s) && Agree(s.d, d, Open(su, d, a)) && 0 <= Lvl(a) && Ino(a) < NINODES
    ensures var r := Provide(su, s.d, 0, Lvl(a));
            var e, own' := Allocate(su, d, a, k), own[su.sdata + k := a];
      && r.1 == su.sdata + k
      && NodeAt(su, e, a) == r.1
      && Wrote(su, q, Ino(a), s, d, own, s.(d := r.0), e, own')
      && Agree(r.0, e, Open(su, d, a))
      && AgreeOn(r.0, s.d, Open(su, d, a))
      && PointerSet(su, d, e, a, r.1)
  {
    hide Wrote, Provide, Allocate, PointerSet, Agree, AgreeOn, CursorOk, Good, NodeAt;
    AllocateNode(su, d, own, a, k, a);
    AllocateWrote(su, q, s, Provide(su, s.d, 0, Lvl(a)).0, a, d, own, k);
    AllocateOnDisk(su, s.d, a, d, own, k, Lvl(a));
    AllocatePointer(su, a, d, own, k);
  }

  lemma AllocateWrote(su: Super, q: Request, s: State, r: Image, a: Addr, d: Image, own: Owners, k: nat)
    requires FirstFree(su, d, own, a, k) && CursorOk(q, s) && Ino(a) < NINODES
    ensures Wrote(su, q, Ino(a), s, d, own, s.(d := r), Allocate(su, d, a, k), own[su.sdata + k := a])
  {
    hide Good, InodesKept, PlainKept, Patched, Allocate, NodeAt, Used, ReadB, FirstClear, Reached, Before;
    AllocateHolder(su, d, own, a, k);
    AllocateGood(su, d, own, a, k);
    AllocateInodes(su, a, d, own, k);
    AllocatePlain(su, a, d, own, k);
    AllocatePatched(su, q, s, a, d, own, k);
  }

  lemma AllocatePatched(su: Super, q: Request, s: State, a: Addr, d: Image, own: Owners, k: nat)
    requires CanAllocate(su, d, own, a, k) && su.sdata + k < WORD && q.sz <= |s.buf|
    ensures Patched(su, q, Ino(a), s.buf, d, Allocate(su, d, a, k), s.boff, s.boff)
  {
    hide Allocate, Used, Good, Reached, NodeAt, Content, Patch;
    assert k < NBits(su) && Valid(a);
    hide CanAllocate;
    var e := Allocate(su, d, a, k);
    forall x {:trigger Content(su, e, x)} | Leaf(x) ensures Content(su, e, x) == Content(su, d, x) {
      AllocateContent(su, d, own, a, k, x);
    }
  }

  lemma AllocateInodes(su: Super, a: Addr, d: Image, own: Owners, k: nat)
    requires CanAllocate(su, d, own, a, k) && su.sdata + k < WORD && Ino(a) < NINODES
    ensures InodesKept(su, d, Allocate(su, d, a, k), Ino(a))
  {
    hide Allocate, Used, Good, Reached, NodeAt, InodeAt;
    assert k < NBits(su) && Valid(a);
    hide CanAllocate;
    var e := Allocate(su, d, a, k);
    forall m: nat | m < NINODES
      ensures (m != Ino(a) ==> InodeAt(su, e, m) == InodeAt(su, d, m))
           && Meta(InodeAt(su, e, m)) == Meta(InodeAt(su, d, m))
    {
      AllocateInode(su, d, own, a, k, m);
    }
  }

  lemma AllocatePlain(su: Super, a: Addr, d: Image, own: Owners, k: nat)
    requires CanAllocate(su, d, own, a, k) && su.sdata + k < WORD
    ensures PlainKept(su, d, Allocate(su, d, a, k))
  {
    hide Allocate, NodeAt, Forest, BitmapExact;
    HolderInUse(su, d, own, a);
    LvlRange(a);
    forall p: nat | p < su.sinode || p >= su.sdata + su.nblockDat
      ensures ReadB(Allocate(su, d, a, k), p) == ReadB(d, p)
    {
      AllocateBlocks(su, d, own, a, k, p);
    }
  }

  /** What taking block k does to a disk whose bitmap is that of d. */
  lemma ProvideIs(su: Super, r: Image, a: Addr, d: Image, own: Owners, k: nat, lvl: nat)
    requires FirstFree(su, d, own, a, k) && ReadB(r, su.sbitmap) == ReadB(d, su.sbitmap)
    ensures var r1 := WriteB(r, su.sbitmap, SetBitAt(ReadB(d, su.sbitmap), k));
      Provide(su, r, 0, lvl) == (if lvl > 0 then WriteB(r1, su.sdata + k, ZERO_BLOCK) else r1, su.sdata + k)
  {
    hide BitAt, SetBitAt, NodeAt, Forest, BitmapExact, FirstClear, ReadB, WriteB;
  }

  lemma AllocateOnDisk(su: Super, r: Image, a: Addr, d: Image, own: Owners, k: nat, lvl: nat)
    requires FirstFree(su, d, own, a, k) && Agree(r, d, Open(su, d, a))
    ensures var (r', p) := Provide(su, r, 0, lvl);
      && p == su.sdata + k
      && Agree(r', Allocate(su, d, a, k), Open(su, d, a))
      && AgreeOn(r', r, Open(su, d, a))
  {
    hide SetBitAt, Allocate, NodeAt, Open, Provide, Forest, BitmapExact, Used, FirstClear, Holder, Reached;
    var open := Open(su, d, a);
    BitmapNotOpen(su, d, own, a);
    ProvideIs(su, r, a, d, own, k, lvl);
    AllocateHolder(su, d, own, a, k);
    var q := su.sdata + k;
    if q in open {
      OpenMembers(su, d, own, a, q);
    }
    var r' := Provide(su, r, 0, lvl).0;
    forall b: nat | b !in open ensures ReadB(r', b) == ReadB(Allocate(su, d, a, k), b) {
      AllocatedBlock(su, a, d, own, k, b);
    }
  }

  lemma HolderIsOpen(su: Super, d: Image, a: Addr)
    requires Valid(a)
    ensures Holder(su, d, a) in Open(su, d, a)
  {
  }

  lemma AllocatedBlock(su: Super, a: Addr, d: Image, own: Owners, k: nat, b: nat)
    requires FirstFree(su, d, own, a, k) && b !in Open(su, d, a)
    ensures ReadB(Allocate(su, d, a, k), b) ==
      if b == su.sbitmap then SetBitAt(ReadB(d, b), k) else ReadB(d, b)
  {
    hide GetPtr, SetPtr, GetInode, PutInode, BitAt, SetBitAt, NodeAt;
    HolderIsOpen(su, d, a);
    AllocateHolder(su, d, own, a, k);
    if b != su.sbitmap {
      AllocateBlocks(su, d, own, a, k, b);
    }
  }

  lemma AllocatePointer(su: Super, a: Addr, d: Image, own: Owners, k: nat)
    requires FirstFree(su, d, own, a, k) && Ino(a) < NINODES
    ensures PointerSet(su, d, Allocate(su, d, a, k), a, su.sdata + k)
  {
    hide GetPtr, SetPtr, GetInode, PutInode, BitAt, SetBitAt, Allocate;
    AllocateInode(su, d, own, a, k, Ino(a));
    AllocateHolder(su, d, own, a, k);
    BitmapNotOpen(su, d, own, a);
    forall p | p in Open(su, d, a) - {Holder(su, d, a)}
      ensures ReadB(Allocate(su, d, a, k), p) == ReadB(d, p)
    {
      AllocateBlocks(su, d, own, a, k, p);
    }
  }
}

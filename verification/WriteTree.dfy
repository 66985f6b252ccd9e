/** The recursion of a write over a pointer tree, and the loop over the slots of an inode. */
module WriteTree {
  import opened Bytes
  import opened Layout
  import opened Tree
  import opened ReadWrite
  import opened Cursor
  import opened WriteProof

  /** The first block from fb on that the request touches is a hole of file n. */
  predicate HoleFrom(su: Super, q: Request, n: nat, e: Image, fb: nat)
  {
    var x := Max(fb, q.Sblock());
    n < NINODES && x < CAPACITY && NodeAt(su, e, LeafAddr(n, x)) == 0
  }

  /** Where a stretch of a write stopped: at the end of its coverage, or at a hole
      for which no room was left. */
  ghost predicate Stopped(su: Super, q: Request, n: nat, t: State, e: Image, ok: bool, end: nat)
  {
    if ok then t.boff == end
    else t.boff < end && t.boff <= q.Eblock() && DiskFull(su, e) && HoleFrom(su, q, n, e, t.boff)
  }

  ghost predicate WritePre(su: Super, q: Request, s: State, a: Addr, d: Image, own: Owners)
  {
    && q.w && Good(su, d, own) && CursorOk(q, s)
    && Valid(a) && Reached(su, d, a)
    && Agree(s.d, d, Open(su, d, a))
  }

  /** How the disk t.d and the completed image e stand to each other after a stretch below a. */
  ghost predicate InStep(su: Super, s: State, a: Addr, d: Image, t: State, e: Image)
    requires Valid(a)
  {
    Agree(t.d, e, Open(su, d, a)) && AgreeOn(t.d, s.d, Open(su, d, a))
  }

  lemma SkipStep(su: Super, q: Request, s: State, n: nat, e: nat, d: Image, own: Owners)
    requires Good(su, d, own) && CursorOk(q, s) && s.boff <= e && !Overlaps(q, s.boff, e)
    ensures Wrote(su, q, n, s, d, own, Skip(s, e), d, own)
  {
    hide Good, NodeAt, InodeAt, Patch, CursorOk, Overlaps, Touched;
    SkipCursor(q, s, e);
    assert q.sz <= |s.buf| by { SkipBuffer(q, s); }
    forall x {:trigger Content(su, d, x)} | Leaf(x) && s.boff <= Fb(x) < e
      ensures Patch(q, s.buf, Content(su, d, x), Fb(x)) == Content(su, d, x)
    {
      PatchOutside(q, s.buf, Content(su, d, x), Fb(x));
    }
  }

  lemma SkipBuffer(q: Request, s: State)
    requires CursorOk(q, s)
    ensures q.sz <= |s.buf| && s.InBuffer()
  {
  }

  lemma NodeNotOpen(su: Super, d: Image, own: Owners, a: Addr)
    requires Good(su, d, own) && Valid(a) && Reached(su, d, a)
    ensures NodeAt(su, d, a) !in Open(su, d, a)
  {
    if NodeAt(su, d, a) in Open(su, d, a) {
      OpenMembers(su, d, own, a, NodeAt(su, d, a));
    }
  }

  lemma {:induction false} InodeBlockOpen(su: Super, d: Image, a: Addr)
    requires Valid(a)
    ensures Ino(a) < NINODES && InodeBlock(su, Ino(a)) in Open(su, d, a)
  {
    if a.Kid? {
      InodeBlockOpen(su, d, a.up);
    }
  }

  /** The data block under leaf a takes its part of the request. */
  lemma TransferStep(su: Super, q: Request, s: State, a: Addr, d: Image, own: Owners) returns (e: Image)
    requires WritePre(su, q, s, a, d, own) && Lvl(a) == 0 && s.boff == Fb(a)
    requires NodeAt(su, d, a) != 0 && Touched(q, s.boff)
    ensures s.InBuffer() && Ino(a) < NINODES
    ensures var t := Transfer(q, s, NodeAt(su, d, a));
      && Wrote(su, q, Ino(a), s, d, own, t, e, own)
      && InStep(su, s, a, d, t, e)
      && AgreeOn(e, d, Open(su, d, a))
      && OnlyTouched(su, q, Ino(a), d, e, s.boff, t.boff)
      && t.boff == s.boff + 1
  {
    var p := NodeAt(su, d, a);
    var t := Transfer(q, s, p);
    NodeNotOpen(su, d, own, a);
    InodeBlockOpen(su, d, a);
    TransferCursor(q, s, p);
    TransferPatches(q, s, p);
    var b := Patch(q, s.buf, ReadB(d, p), s.boff);
    e := WriteB(d, p, b);
    assert ReadB(s.d, p) == ReadB(d, p);
    StoreAgrees(s.d, d, p, b, Open(su, d, a));
    hide NodeAt, Patch, Good, Open, Wrote, CursorOk, Agree, AgreeOn, WriteB, OnlyTouched;
    StoreWrote(su, q, s, a, d, own, t, p, b);
    StoreTouches(su, q, a, d, own, b, s.boff, t.boff);
  }

  lemma StoreTouches(su: Super, q: Request, a: Addr, d: Image, own: Owners, b: Block, lo: nat, hi: nat)
    requires Leaf(a) && Good(su, d, own) && NodeAt(su, d, a) != 0
    ensures OnlyTouched(su, q, Ino(a), d, WriteB(d, NodeAt(su, d, a), b), lo, hi)
  {
    hide NodeAt, Good, WriteB, Overlaps;
    var e := WriteB(d, NodeAt(su, d, a), b);
    forall x {:trigger NodeAt(su, e, x)} | Valid(x) ensures NodeAt(su, e, x) == NodeAt(su, d, x) {
      StoreNode(su, d, own, a, b, x);
    }
  }

  lemma StoreAgrees(r: Image, d: Image, p: u32, b: Block, open: set<nat>)
    requires Agree(r, d, open) && p !in open
    ensures Agree(WriteB(r, p, b), WriteB(d, p, b), open)
    ensures AgreeOn(WriteB(r, p, b), r, open) && AgreeOn(WriteB(d, p, b), d, open)
  {
  }

  lemma StoreWrote(su: Super, q: Request, s: State, a: Addr, d: Image, own: Owners, t: State, p: u32, b: Block)
    requires Leaf(a) && Ino(a) < NINODES && s.boff == Fb(a) && t.boff == s.boff + 1 && t.buf == s.buf
    requires CursorOk(q, s) && CursorOk(q, t)
    requires Good(su, d, own) && p == NodeAt(su, d, a) && p != 0
    requires b == Patch(q, s.buf, ReadB(d, p), Fb(a))
    ensures Wrote(su, q, Ino(a), s, d, own, t, WriteB(d, p, b), own)
  {
    hide Good, InodesKept, PlainKept, Patched, Mapped, Patch, NodeAt, WellLaid, WriteB, Content, Before;
    NodeOwned(su, d, own, a);
    StoreGood(su, d, own, a, b);
    StorePlain(su, p, d, b, Ino(a));
    StorePatched(su, q, s, a, d, own);
    StoreMapped(su, q, a, d, own, b);
  }

  lemma StorePatched(su: Super, q: Request, s: State, a: Addr, d: Image, own: Owners)
    requires Leaf(a) && q.sz <= |s.buf| && Good(su, d, own) && NodeAt(su, d, a) != 0
    ensures var e := WriteB(d, NodeAt(su, d, a), Patch(q, s.buf, ReadB(d, NodeAt(su, d, a)), Fb(a)));
      Patched(su, q, Ino(a), s.buf, d, e, Fb(a), Fb(a) + 1)
  {
    hide Patch, NodeAt, Good, WriteB, ReadB;
    var p := NodeAt(su, d, a);
    var b := Patch(q, s.buf, ReadB(d, p), Fb(a));
    StoreGood(su, d, own, a, b);
    assert Content(su, d, a) == ReadB(d, p);
    hide Content;
    var e := WriteB(d, p, b);
    forall x {:trigger Content(su, e, x)} | Leaf(x)
      ensures Content(su, e, x) == if Ino(x) == Ino(a) && Fb(a) <= Fb(x) < Fb(a) + 1
                                   then Patch(q, s.buf, Content(su, d, x), Fb(x)) else Content(su, d, x)
    {
      if Ino(x) == Ino(a) && Fb(x) == Fb(a) {
        LeafInjective(x, a);
      }
    }
  }

  lemma StoreMapped(su: Super, q: Request, a: Addr, d: Image, own: Owners, b: Block)
    requires Leaf(a) && Good(su, d, own) && NodeAt(su, d, a) != 0
    ensures Mapped(su, q, Ino(a), WriteB(d, NodeAt(su, d, a), b), Fb(a), Fb(a) + 1)
  {
    hide NodeAt, Good, WriteB;
    StoreNode(su, d, own, a, b, a);
    forall x | Leaf(x) && Ino(x) == Ino(a) && Fb(x) == Fb(a) ensures x == a {
      LeafInjective(x, a);
    }
  }

  lemma StorePlain(su: Super, p: u32, d: Image, b: Block, n: nat)
    requires WellLaid(su, |d|) && DataBlock(su, p)
    ensures InodesKept(su, d, WriteB(d, p, b), n)
    ensures PlainKept(su, d, WriteB(d, p, b))
  {
    hide GetInode;
  }

  /** A pointer the request reaches, at any level. */
  lemma {:induction false} WriteNode(su: Super, q: Request, s: State, a: Addr, d: Image, own: Owners)
    returns (e: Image, own': Owners)
    requires WritePre(su, q, s, a, d, own) && 0 <= Lvl(a) <= 2 && s.boff == Fb(a)
    ensures s.InBuffer() && Ino(a) < NINODES
    ensures var o := Rw(su, q, s, NodeAt(su, d, a), Lvl(a));
      && Wrote(su, q, Ino(a), s, d, own, o.s, e, own')
      && InStep(su, s, a, d, o.s, e)
      && PointerSet(su, d, e, a, o.p)
      && OnlyTouched(su, q, Ino(a), d, e, s.boff, o.s.boff)
      && Stopped(su, q, Ino(a), o.s, e, o.ok, Fb(a) + Cov(Lvl(a)))
    decreases Lvl(a), 1, 0
  {
    hide GetPtr, SetPtr, GetInode, Wrote, PointerSet, Agree, AgreeOn, Good, CursorOk, NodeAt, Visit, DiskFull,
         OnlyTouched, OnlyAt, HoleFrom;
    SkipBuffer(q, s);
    InodeBlockOpen(su, d, a);
    var p, lvl := NodeAt(su, d, a), Lvl(a);
    var end := s.boff + Cov(lvl);
    var n := Ino(a);
    if !Overlaps(q, s.boff, end) {
      e, own' := d, own;
      SkipStep(su, q, s, n, end, d, own);
      SameNothing(su, q, s, a, d, own);
      SkipAgrees(s, end, d, Open(su, d, a));
      NothingTouched(su, q, n, d, s.boff, end);
    } else {
      var e1, own1 := ProvideStep(su, q, s, a, d, own);
      var (r, p1) := Provide(su, s.d, p, lvl);
      if p1 == 0 {
        e, own' := d, own;
        WroteNothing(su, q, n, s, d, own);
        SameNothing(su, q, s, a, d, own);
        SkipAgrees(s, s.boff, d, Open(su, d, a));
        NothingTouched(su, q, n, d, s.boff, s.boff);
        NullFrom(su, q, d, a);
      } else {
        var s1 := s.(d := r);
        WroteGood(su, q, n, s, d, own, s1, e1, own1);
        OpenStays(su, d, own, e1, own1, a);
        e, own' := WriteVisit(su, q, s1, a, e1, own1);
        var o := Visit(su, q, s1, p1, lvl);
        WroteThenWrote(su, q, n, s, d, own, s1, e1, own1, o.s, e, own');
        WroteGood(su, q, n, s1, e1, own1, o.s, e, own');
        TouchedHere(su, q, d, e1, a);
        TouchedTwice(su, q, n, d, e1, e, s.boff, LeafEnd(a), s.boff, o.s.boff);
        PointerStays(su, d, e1, e, a, p1);
        AgreeTwice(s.d, r, o.s.d, Open(su, d, a));
      }
    }
  }

  /** A null pointer that the request reaches leaves a hole there. */
  lemma NullFrom(su: Super, q: Request, d: Image, a: Addr)
    requires Valid(a) && NodeAt(su, d, a) == 0 && Overlaps(q, Fb(a), Fb(a) + Cov(Lvl(a)))
    ensures HoleFrom(su, q, Ino(a), d, Fb(a))
  {
    hide NodeAt;
    LvlRange(a);
    FbRange(a);
    NullBelow(su, d, a, Max(Fb(a), q.Sblock()));
  }

  lemma AgreeTwice(d: Image, e: Image, f: Image, on: set<nat>)
    requires AgreeOn(e, d, on) && AgreeOn(f, e, on)
    ensures AgreeOn(f, d, on)
  {
  }

  lemma SkipAgrees(s: State, e: nat, d: Image, open: set<nat>)
    requires Agree(s.d, d, open) && s.boff <= e
    ensures Agree(Skip(s, e).d, d, open) && AgreeOn(Skip(s, e).d, s.d, open) && AgreeOn(s.d, s.d, open)
  {
  }

  lemma WroteGood(su: Super, q: Request, n: nat, s: State, d: Image, own: Owners, t: State, e: Image, own': Owners)
    requires Wrote(su, q, n, s, d, own, t, e, own')
    ensures Good(su, e, own') && Extends(own, own') && CursorOk(q, t) && t.buf == s.buf && s.boff <= t.boff
  {
  }

  lemma PointerStays(su: Super, d: Image, e: Image, f: Image, a: Addr, r: u32)
    requires Valid(a) && Ino(a) < NINODES
    requires PointerSet(su, d, e, a, r) && AgreeOn(f, e, Open(su, d, a))
    ensures PointerSet(su, d, f, a, r)
  {
    hide GetPtr, SetPtr, GetInode;
    HolderIsOpen(su, d, a);
    InodeBlockOpen(su, d, a);
  }

  /** A non-null pointer the request reaches: a data block, or an index block and all below it. */
  lemma {:induction false} WriteVisit(su: Super, q: Request, s: State, a: Addr, d: Image, own: Owners)
    returns (e: Image, own': Owners)
    requires WritePre(su, q, s, a, d, own) && 0 <= Lvl(a) <= 2 && s.boff == Fb(a)
    requires NodeAt(su, d, a) != 0 && Overlaps(q, s.boff, s.boff + Cov(Lvl(a)))
    ensures s.InBuffer() && Ino(a) < NINODES
    ensures var o := Visit(su, q, s, NodeAt(su, d, a), Lvl(a));
      && o.p == NodeAt(su, d, a)
      && Wrote(su, q, Ino(a), s, d, own, o.s, e, own')
      && InStep(su, s, a, d, o.s, e)
      && AgreeOn(e, d, Open(su, d, a))
      && OnlyTouched(su, q, Ino(a), d, e, s.boff, o.s.boff)
      && LeafEnd(a) <= o.s.boff
      && Stopped(su, q, Ino(a), o.s, e, o.ok, Fb(a) + Cov(Lvl(a)))
    decreases Lvl(a), 0, 0
  {
    hide GetPtr, SetPtr, GetInode, Wrote, Good, CursorOk, NodeAt, DiskFull, Kids, OnlyTouched, HoleFrom;
    SkipBuffer(q, s);
    var p, lvl := NodeAt(su, d, a), Lvl(a);
    if lvl == 0 {
      own' := own;
      e := TransferStep(su, q, s, a, d, own);
    } else {
      NodeNotOpen(su, d, own, a);
      var b := ReadB(s.d, p);
      e, own' := WriteKids(su, q, s, a, d, own, b, 0);
      var (t, b', ok) := Kids(su, q, s, b, lvl - 1, 0);
      WroteGood(su, q, Ino(a), s, d, own, t, e, own');
      WriteBack(su, q, Ino(a), s, d, own, t, e, own', p, b', Open(su, d, a));
    }
  }

  lemma WriteBack(su: Super, q: Request, n: nat, s: State, d: Image, own: Owners,
                  t: State, e: Image, own': Owners, p: u32, b: Block, open: set<nat>)
    requires Wrote(su, q, n, s, d, own, t, e, own')
    requires Agree(t.d, e, open + {p as nat}) && ReadB(e, p) == b && p !in open
    ensures Wrote(su, q, n, s, d, own, t.(d := WriteB(t.d, p, b)), e, own')
    ensures Agree(WriteB(t.d, p, b), e, open)
  {
    hide Good;
  }

  /** The entries of index block b from the i-th on. */
  lemma {:induction false} WriteKids(su: Super, q: Request, s: State, a: Addr, d: Image, own: Owners, b: Block, i: nat)
    returns (e: Image, own': Owners)
    requires q.w && Good(su, d, own) && CursorOk(q, s) && Valid(a) && Reached(su, d, a)
    requires 1 <= Lvl(a) <= 2 && NodeAt(su, d, a) != 0 && ReadB(d, NodeAt(su, d, a)) == b
    requires Agree(s.d, d, Open(su, d, a) + {NodeAt(su, d, a) as nat})
    requires i <= NPTRS_PER_BLOCK && s.boff == Fb(a) + (if Lvl(a) == 2 then NPTRS_PER_BLOCK * i else i)
    ensures s.InBuffer() && Ino(a) < NINODES
    ensures var (t, b', ok) := Kids(su, q, s, b, Lvl(a) - 1, i);
      && Wrote(su, q, Ino(a), s, d, own, t, e, own')
      && Agree(t.d, e, Open(su, d, a) + {NodeAt(su, d, a) as nat})
      && AgreeOn(t.d, s.d, Open(su, d, a) + {NodeAt(su, d, a) as nat})
      && AgreeOn(e, d, Open(su, d, a))
      && ReadB(e, NodeAt(su, d, a)) == b'
      && OnlyTouched(su, q, Ino(a), d, e, s.boff, t.boff)
      && Stopped(su, q, Ino(a), t, e, ok, Fb(a) + Cov(Lvl(a)))
    decreases Lvl(a) - 1, 2, NPTRS_PER_BLOCK - i
  {
    hide GetPtr, SetPtr, GetInode, Wrote, Agree, AgreeOn, Good, CursorOk, Rw, DiskFull, OnlyTouched, HoleFrom;
    SkipBuffer(q, s);
    InodeBlockOpen(su, d, a);
    var open := Open(su, d, a) + {NodeAt(su, d, a) as nat};
    if i == NPTRS_PER_BLOCK {
      e, own' := d, own;
      WroteNothing(su, q, Ino(a), s, d, own);
      SkipAgrees(s, s.boff, d, open);
      assert AgreeOn(d, d, Open(su, d, a)) by { SelfAgrees(d, Open(su, d, a)); }
      NothingTouched(su, q, Ino(a), d, s.boff, s.boff);
    } else {
      var c := Kid(a, i);
      var e1, own1 := WriteNode(su, q, s, c, d, own);
      var o := Rw(su, q, s, NodeAt(su, d, c), Lvl(c));
      WroteGood(su, q, Ino(a), s, d, own, o.s, e1, own1);
      KidSet(su, d, own, e1, own1, a, i, o.p);
      if o.ok {
        e, own' := WriteKids(su, q, o.s, a, e1, own1, SetPtr(b, i, o.p), i + 1);
        var r := Kids(su, q, o.s, SetPtr(b, i, o.p), Lvl(a) - 1, i + 1);
        WroteThenWrote(su, q, Ino(a), s, d, own, o.s, e1, own1, r.0, e, own');
        WroteGood(su, q, Ino(a), o.s, e1, own1, r.0, e, own');
        TouchedTwice(su, q, Ino(a), d, e1, e, s.boff, o.s.boff, o.s.boff, r.0.boff);
        AgreeTwice(s.d, o.s.d, r.0.d, open);
        AgreeTwice(d, e1, e, Open(su, d, a));
      } else {
        e, own' := e1, own1;
      }
    }
  }

  lemma SelfAgrees(d: Image, on: set<nat>)
    ensures AgreeOn(d, d, on)
  {
  }

  /** After entry i of a's index block was set, the block is as the copy in memory says. */
  lemma KidSet(su: Super, d: Image, own: Owners, e: Image, own': Owners, a: Addr, i: nat, r: u32)
    requires Good(su, d, own) && Good(su, e, own') && Extends(own, own')
    requires Valid(a) && Reached(su, d, a) && NodeAt(su, d, a) != 0 && Lvl(a) > 0 && i < NPTRS_PER_BLOCK
    requires Ino(a) < NINODES && PointerSet(su, d, e, Kid(a, i), r)
    ensures NodeAt(su, e, a) == NodeAt(su, d, a) && Open(su, e, a) == Open(su, d, a) && Reached(su, e, a)
    ensures ReadB(e, NodeAt(su, d, a)) == SetPtr(ReadB(d, NodeAt(su, d, a)), i, r)
    ensures AgreeOn(e, d, Open(su, d, a))
  {
    hide GetPtr, SetPtr, GetInode, Good;
    NodeStays(su, d, own, e, own', a);
    OpenStays(su, d, own, e, own', a);
    NodeNotOpen(su, d, own, a);
    assert Open(su, d, Kid(a, i)) - {Holder(su, d, Kid(a, i))} == Open(su, d, a);
  }
}

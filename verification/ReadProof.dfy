/** What a recursive read does: it changes no block, and it fills the buffer with the
    file's bytes exactly when it does not start inside a hole and run out of it into data. */
module ReadProof {
  import opened Bytes
  import opened Layout
  import opened Tree
  import opened ReadWrite
  import opened Cursor
  import opened File

  // ----- a read changes no block, on any disk -----

  lemma WriteBackSame(d: Image, p: int)
    ensures WriteB(d, p, ReadB(d, p)) == d
  {
  }

  /** The part of the buffer already filled is left alone. */
  predicate Onward(s: State, t: State)
  {
    && t.d == s.d
    && s.pos <= t.pos <= |t.buf| && |t.buf| == |s.buf|
    && t.buf[..s.pos] == s.buf[..s.pos]
    && t.buf[t.pos..] == s.buf[t.pos..]
  }

  lemma OnwardTwice(s: State, t: State, u: State)
    requires Onward(s, t) && Onward(t, u)
    ensures Onward(s, u)
  {
    assert u.buf[..s.pos] == u.buf[..t.pos][..s.pos] == t.buf[..s.pos];
    forall k | u.pos <= k < |u.buf| ensures u.buf[k] == s.buf[k] {
      assert u.buf[k] == u.buf[u.pos..][k - u.pos] == t.buf[u.pos..][k - u.pos];
      assert t.buf[k] == t.buf[t.pos..][k - t.pos] == s.buf[t.pos..][k - t.pos];
    }
  }

  lemma PutOnward(s: State, t: State, n: nat, v: seq<byte>)
    requires s.InBuffer() && n <= s.left && |v| == n
    requires t.d == s.d && t.pos == s.pos + n && t.buf == Put(s.buf, s.pos, v)
    ensures Onward(s, t)
  {
  }

  lemma {:induction false} ReadKeepsDisk(su: Super, q: Request, s: State, p: u32, lvl: nat)
    requires !q.w && s.InBuffer() && lvl <= 2
    ensures var o := Rw(su, q, s, p, lvl);
      o.ok && o.p == p && Onward(s, o.s) && o.s.boff == s.boff + Cov(lvl)
    decreases lvl, 1, 0
  {
    var e := s.boff + Cov(lvl);
    if Overlaps(q, s.boff, e) {
      if p == 0 {
        var n := Min(s.left, (e - s.boff) * BLOCKSIZE);
        PutOnward(s, ReadHole(s, e), n, Zeros(n));
      } else {
        VisitKeepsDisk(su, q, s, p, lvl);
      }
    }
  }

  lemma {:induction false} VisitKeepsDisk(su: Super, q: Request, s: State, p: u32, lvl: nat)
    requires !q.w && s.InBuffer() && lvl <= 2
    ensures var o := Visit(su, q, s, p, lvl);
      o.ok && o.p == p && Onward(s, o.s) && o.s.boff == s.boff + Cov(lvl)
    decreases lvl, 0, 0
  {
    hide Onward, Kids, Transfer;
    if lvl == 0 {
      TransferOnward(q, s, p);
    } else {
      KidsKeepDisk(su, q, s, ReadB(s.d, p), lvl - 1, 0);
      OnwardMeans(s, Kids(su, q, s, ReadB(s.d, p), lvl - 1, 0).0);
      WriteBackSame(s.d, p);
    }
  }

  lemma TransferOnward(q: Request, s: State, p: u32)
    requires !q.w && s.InBuffer()
    ensures Onward(s, Transfer(q, s, p)) && Transfer(q, s, p).boff == s.boff + 1
  {
    var start := s.off % BLOCKSIZE;
    var n := Min(s.left, BLOCKSIZE - start);
    PutOnward(s, Transfer(q, s, p), n, ReadB(s.d, p)[start..start + n]);
  }

  lemma {:induction false} KidsKeepDisk(su: Super, q: Request, s: State, b: Block, lvl: nat, i: nat)
    requires !q.w && s.InBuffer() && lvl <= 1 && i <= NPTRS_PER_BLOCK
    ensures var (t, b', ok) := Kids(su, q, s, b, lvl, i);
      && ok && b' == b && Onward(s, t)
      && t.boff == s.boff + Cov(lvl) * (NPTRS_PER_BLOCK - i)
    decreases lvl, 2, NPTRS_PER_BLOCK - i
  {
    hide GetPtr, SetPtr, Onward, Rw;
    if i == NPTRS_PER_BLOCK {
      OnwardSelf(s);
    } else {
      var o := Rw(su, q, s, GetPtr(b, i), lvl);
      ReadKeepsDisk(su, q, s, GetPtr(b, i), lvl);
      PtrSetSame(b, i);
      KidsKeepDisk(su, q, o.s, b, lvl, i + 1);
      OnwardTwice(s, o.s, Kids(su, q, o.s, b, lvl, i + 1).0);
    }
  }

  lemma OnwardSelf(s: State)
    requires s.InBuffer()
    ensures Onward(s, s)
  {
  }

  lemma {:induction false} SlotsKeepDisk(su: Super, q: Request, s: State, ptrs: seq<u32>, i: nat)
    requires !q.w && s.InBuffer() && |ptrs| == NPTRS && i <= NPTRS && s.boff == Start(i)
    ensures var (t, ptrs') := Slots(su, q, s, ptrs, i);
      Onward(s, t) && ptrs' == ptrs && t.boff == CAPACITY
    decreases NPTRS - i
  {
    hide Onward, Rw;
    if i == NPTRS {
      OnwardSelf(s);
    } else {
      var o := Rw(su, q, s, ptrs[i], Ilevel(i));
      ReadKeepsDisk(su, q, s, ptrs[i], Ilevel(i));
      assert ptrs[i := o.p] == ptrs && Start(i) + Cov(Ilevel(i)) == Start(i + 1);
      SlotsKeepDisk(su, q, o.s, ptrs, i + 1);
      OnwardTwice(s, o.s, Slots(su, q, o.s, ptrs, i + 1).0);
    }
  }

  /** `fs_read` leaves every block of the disk as it was, whatever the disk holds,
      and touches no byte of the buffer past what it reports. */
  lemma ReadChangesNothing(su: Super, d: Image, n: nat, buf: seq<byte>, sz: nat, off: u32)
    requires sz <= |buf|
    ensures var r := InodeRw(su, d, n, buf, sz, off, false);
      && r.d == d
      && -1 <= r.n <= sz
      && r.buf[Max(0, r.n)..] == buf[Max(0, r.n)..]
  {
    hide Onward, Slots;
    var di := InodeAt(su, d, n);
    if n < su.ninodes && off < di.size {
      var q := Clip(di, off, sz, false);
      var s := Begin(d, buf, q);
      SlotsKeepDisk(su, q, s, di.ptrs, 0);
      OnwardMeans(s, Slots(su, q, s, di.ptrs, 0).0);
    }
  }

  lemma OnwardMeans(s: State, t: State)
    requires Onward(s, t)
    ensures t.d == s.d && s.pos <= t.pos <= |t.buf| && |t.buf| == |s.buf| && t.buf[t.pos..] == s.buf[t.pos..]
    ensures forall k | 0 <= k < s.pos :: t.buf[k] == s.buf[k]
  {
    forall k | 0 <= k < s.pos ensures t.buf[k] == s.buf[k] {
      assert t.buf[k] == t.buf[..s.pos][k] && s.buf[k] == s.buf[..s.pos][k];
    }
  }

  // ----- the bytes a read delivers -----

  /** The buffer holds the file's bytes from off on, up to the cursor. */
  ghost predicate SoFar(su: Super, q: Request, n: nat, s: State)
    requires n < NINODES
  {
    && CursorOk(q, s)
    && forall k {:trigger s.buf[k]} | 0 <= k < s.pos && q.off + k < CAPBYTES ::
         s.buf[k] == FileByte(su, s.d, n, q.off + k)
  }

  /** The topmost null pointer on the way to the null pointer x. */
  function Hole(su: Super, d: Image, x: Addr): (h: Addr)
    requires Valid(x) && NodeAt(su, d, x) == 0
    ensures Valid(h) && NodeAt(su, d, h) == 0 && Reached(su, d, h) && Ino(h) == Ino(x)
    decreases x
  {
    if x.Kid? && NodeAt(su, d, x.up) == 0 then Hole(su, d, x.up) else x
  }

  function HoleEnd(h: Addr): nat
  {
    Fb(h) + Cov(Lvl(h))
  }

  /** The bytes [off, off + sz) start strictly inside the coverage of a null pointer and run past its end. */
  predicate RunsOutOfHole(su: Super, d: Image, n: nat, off: nat, sz: nat)
    requires n < NINODES
  {
    off < CAPBYTES && !BlockMapped(su, d, n, off / BLOCKSIZE) &&
    var h := Hole(su, d, LeafAddr(n, off / BLOCKSIZE));
    Fb(h) * BLOCKSIZE < off && HoleEnd(h) * BLOCKSIZE < off + sz
  }

  /** The pointers that cover file block fb are those on the way to its leaf. */
  lemma HoleCovers(su: Super, d: Image, a: Addr, fb: nat)
    requires Valid(a) && NodeAt(su, d, a) == 0 && Reached(su, d, a)
    requires Ino(a) < NINODES && Fb(a) <= fb < Fb(a) + Cov(Lvl(a)) && fb < CAPACITY
    ensures !BlockMapped(su, d, Ino(a), fb)
    ensures Hole(su, d, LeafAddr(Ino(a), fb)) == a
  {
    hide InodeAt, GetPtr;
    var x := LeafAddr(Ino(a), fb);
    LvlRange(a);
    if Lvl(a) == 0 {
      LeafInjective(a, x);
    } else if Lvl(a) == 1 {
      assert x == Kid(a, fb - Fb(a)) by {
        LeafInjective(x, Kid(a, fb - Fb(a)));
      }
    } else {
      var i := (fb - Fb(a)) / NPTRS_PER_BLOCK;
      var y := Kid(a, i);
      assert Lvl(y) == 1 && Valid(y) && Fb(y) == Fb(a) + NPTRS_PER_BLOCK * i;
      LeafInjective(x, Kid(y, fb - Fb(y)));
      assert NodeAt(su, d, y) == 0;
      assert Hole(su, d, y) == a;
      assert Hole(su, d, x) == Hole(su, d, y);
    }
  }

  lemma HoleFillCursor(q: Request, s: State, e: nat)
    requires CursorOk(q, s) && s.boff <= e && Overlaps(q, s.boff, e)
    requires s.boff * BLOCKSIZE < q.off ==> q.off + q.sz <= e * BLOCKSIZE
    ensures CursorOk(q, ReadHole(s, e))
  {
    var n := Min(s.left, (e - s.boff) * BLOCKSIZE);
    WrapResidue(s.off + n);
    if s.left > n {
      AddMultiple(s.off, e - s.boff);
    }
  }

  /** The side condition under which the pointer at a is read right. */
  predicate NoOverrun(su: Super, d: Image, q: Request, a: Addr)
    requires Ino(a) < NINODES
  {
    !RunsOutOfHole(su, d, Ino(a), q.off, q.sz)
  }

  lemma HoleReads(su: Super, q: Request, s: State, a: Addr)
    requires Valid(a) && Ino(a) < NINODES && NodeAt(su, s.d, a) == 0 && Reached(su, s.d, a)
    requires SoFar(su, q, Ino(a), s) && s.boff == Fb(a)
    requires NoOverrun(su, s.d, q, a) && Overlaps(q, s.boff, HoleEnd(a))
    ensures s.InBuffer() && SoFar(su, q, Ino(a), ReadHole(s, HoleEnd(a)))
  {
    hide NodeAt, FileByte, RunsOutOfHole;
    var e := HoleEnd(a);
    HoleRoom(su, q, s, a);
    HoleFillCursor(q, s, e);
    var t := ReadHole(s, e);
    forall k {:trigger t.buf[k]} | 0 <= k < t.pos && q.off + k < CAPBYTES
      ensures t.buf[k] == FileByte(su, t.d, Ino(a), q.off + k)
    {
      if s.pos <= k {
        HoleByte(su, q, s, a, k);
      }
    }
  }

  lemma HoleRoom(su: Super, q: Request, s: State, a: Addr)
    requires Valid(a) && Ino(a) < NINODES && NodeAt(su, s.d, a) == 0 && Reached(su, s.d, a)
    requires CursorOk(q, s) && s.boff == Fb(a)
    requires NoOverrun(su, s.d, q, a) && Overlaps(q, s.boff, HoleEnd(a))
    ensures s.boff * BLOCKSIZE < q.off ==> q.off + q.sz <= HoleEnd(a) * BLOCKSIZE
  {
    hide NodeAt;
    FbRange(a);
    if s.boff * BLOCKSIZE < q.off {
      HoleCovers(su, s.d, a, q.off / BLOCKSIZE);
    }
  }

  lemma HoleByte(su: Super, q: Request, s: State, a: Addr, k: nat)
    requires Valid(a) && Ino(a) < NINODES && NodeAt(su, s.d, a) == 0 && Reached(su, s.d, a)
    requires CursorOk(q, s) && s.boff == Fb(a)
    requires s.pos <= k < s.pos + Min(s.left, (HoleEnd(a) - s.boff) * BLOCKSIZE) && q.off + k < CAPBYTES
    requires s.boff * BLOCKSIZE < q.off ==> q.off + q.sz <= HoleEnd(a) * BLOCKSIZE
    ensures FileByte(su, s.d, Ino(a), q.off + k) == 0
  {
    hide NodeAt;
    assert Fb(a) <= (q.off + k) / BLOCKSIZE < HoleEnd(a);
    HoleCovers(su, s.d, a, (q.off + k) / BLOCKSIZE);
  }

  lemma TransferReads(su: Super, q: Request, s: State, a: Addr)
    requires Leaf(a) && Ino(a) < NINODES && NodeAt(su, s.d, a) != 0
    requires SoFar(su, q, Ino(a), s) && s.boff == Fb(a) && Touched(q, s.boff) && !q.w
    ensures s.InBuffer() && SoFar(su, q, Ino(a), Transfer(q, s, NodeAt(su, s.d, a)))
  {
    hide NodeAt, FileByte;
    var p := NodeAt(su, s.d, a);
    TransferCursor(q, s, p);
    var t := Transfer(q, s, p);
    forall k {:trigger t.buf[k]} | 0 <= k < t.pos && q.off + k < CAPBYTES
      ensures t.buf[k] == FileByte(su, t.d, Ino(a), q.off + k)
    {
      if s.pos <= k {
        TransferByte(su, q, s, a, p, k);
      }
    }
  }

  lemma TransferByte(su: Super, q: Request, s: State, a: Addr, p: u32, k: nat)
    requires Leaf(a) && Ino(a) < NINODES && p == NodeAt(su, s.d, a) && p != 0
    requires CursorOk(q, s) && s.boff == Fb(a) && Touched(q, s.boff) && !q.w
    requires s.pos <= k < Transfer(q, s, p).pos && q.off + k < CAPBYTES
    ensures Transfer(q, s, p).buf[k] == FileByte(su, s.d, Ino(a), q.off + k)
  {
    hide NodeAt, ReadB;
    TransferExtent(q, s);
    var i := s.off % BLOCKSIZE + (k - s.pos);
    assert Hit(q, s.boff, i);
    assert q.off + k == s.boff * BLOCKSIZE + i;
    LeafUnique(a);
    assert (q.off + k) / BLOCKSIZE == s.boff && (q.off + k) % BLOCKSIZE == i;
    assert Content(su, s.d, a) == ReadB(s.d, p);
  }

  lemma SkipReads(su: Super, q: Request, n: nat, s: State, e: nat)
    requires n < NINODES && SoFar(su, q, n, s) && s.boff <= e && !Overlaps(q, s.boff, e)
    ensures SoFar(su, q, n, Skip(s, e))
  {
    SkipCursor(q, s, e);
  }

  lemma {:induction false} ReadNode(su: Super, q: Request, s: State, a: Addr)
    requires !q.w && Valid(a) && 0 <= Lvl(a) <= 2 && Ino(a) < NINODES && Reached(su, s.d, a)
    requires SoFar(su, q, Ino(a), s) && s.boff == Fb(a) && NoOverrun(su, s.d, q, a)
    ensures s.InBuffer() && SoFar(su, q, Ino(a), Rw(su, q, s, NodeAt(su, s.d, a), Lvl(a)).s)
    decreases Lvl(a), 1, 0
  {
    hide SoFar, CursorOk, NodeAt, Visit, NoOverrun, Skip, ReadHole;
    SoFarBuffer(su, q, Ino(a), s);
    if !Overlaps(q, s.boff, s.boff + Cov(Lvl(a))) {
      SkipReads(su, q, Ino(a), s, s.boff + Cov(Lvl(a)));
    } else if NodeAt(su, s.d, a) == 0 {
      HoleReads(su, q, s, a);
    } else {
      VisitReads(su, q, s, a);
    }
  }

  lemma SoFarBuffer(su: Super, q: Request, n: nat, s: State)
    requires n < NINODES && SoFar(su, q, n, s)
    ensures s.InBuffer() && CursorOk(q, s)
  {
  }

  lemma {:induction false} VisitReads(su: Super, q: Request, s: State, a: Addr)
    requires !q.w && Valid(a) && 0 <= Lvl(a) <= 2 && Ino(a) < NINODES && NodeAt(su, s.d, a) != 0
    requires Overlaps(q, s.boff, s.boff + Cov(Lvl(a)))
    requires SoFar(su, q, Ino(a), s) && s.boff == Fb(a) && NoOverrun(su, s.d, q, a)
    ensures s.InBuffer() && SoFar(su, q, Ino(a), Visit(su, q, s, NodeAt(su, s.d, a), Lvl(a)).s)
    decreases Lvl(a), 0, 0
  {
    hide SoFar, CursorOk, NodeAt, NoOverrun, Transfer, Kids, Onward;
    SoFarBuffer(su, q, Ino(a), s);
    var p := NodeAt(su, s.d, a);
    if Lvl(a) == 0 {
      TransferReads(su, q, s, a);
    } else {
      var b := ReadB(s.d, p);
      var r := Kids(su, q, s, b, Lvl(a) - 1, 0);
      KidsRead(su, q, s, a, 0);
      KidsKeepDisk(su, q, s, b, Lvl(a) - 1, 0);
      OnwardMeans(s, r.0);
      WriteBackSame(s.d, p);
    }
  }

  lemma {:induction false} KidsRead(su: Super, q: Request, s: State, a: Addr, i: nat)
    requires !q.w && Valid(a) && 1 <= Lvl(a) <= 2 && Ino(a) < NINODES && NodeAt(su, s.d, a) != 0
    requires SoFar(su, q, Ino(a), s) && NoOverrun(su, s.d, q, a) && i <= NPTRS_PER_BLOCK
    requires s.boff == Fb(a) + (if Lvl(a) == 2 then NPTRS_PER_BLOCK * i else i)
    ensures s.InBuffer()
    ensures SoFar(su, q, Ino(a), Kids(su, q, s, ReadB(s.d, NodeAt(su, s.d, a)), Lvl(a) - 1, i).0)
    decreases Lvl(a) - 1, 2, NPTRS_PER_BLOCK - i
  {
    hide SoFar, CursorOk, RunsOutOfHole, GetPtr, SetPtr, Onward, Rw, ReadB;
    SoFarBuffer(su, q, Ino(a), s);
    if i < NPTRS_PER_BLOCK {
      var b := ReadB(s.d, NodeAt(su, s.d, a));
      var c := Kid(a, i);
      assert NodeAt(su, s.d, c) == GetPtr(b, i);
      ReadNode(su, q, s, c);
      var o := Rw(su, q, s, GetPtr(b, i), Lvl(c));
      ReadKeepsDisk(su, q, s, GetPtr(b, i), Lvl(c));
      OnwardMeans(s, o.s);
      PtrSetSame(b, i);
      KidsRead(su, q, o.s, a, i + 1);
    }
  }

  lemma {:induction false} SlotsRead(su: Super, q: Request, s: State, n: nat, i: nat)
    requires !q.w && n < NINODES && i <= NPTRS && s.boff == Start(i)
    requires SoFar(su, q, n, s) && !RunsOutOfHole(su, s.d, n, q.off, q.sz)
    ensures s.InBuffer()
    ensures SoFar(su, q, n, Slots(su, q, s, InodeAt(su, s.d, n).ptrs, i).0)
    decreases NPTRS - i
  {
    hide SoFar, CursorOk, RunsOutOfHole, InodeAt, Onward, Rw;
    SoFarBuffer(su, q, n, s);
    if i < NPTRS {
      var a, ptrs := Root(n, i), InodeAt(su, s.d, n).ptrs;
      ReadNode(su, q, s, a);
      var o := Rw(su, q, s, ptrs[i], Ilevel(i));
      ReadKeepsDisk(su, q, s, ptrs[i], Ilevel(i));
      OnwardMeans(s, o.s);
      assert ptrs[i := o.p] == ptrs && Start(i) + Cov(Ilevel(i)) == Start(i + 1);
      SlotsRead(su, q, o.s, n, i + 1);
    }
  }

  /** The number of bytes a read of sz bytes at off should deliver from file n. */
  function ReadLen(su: Super, d: Image, n: nat, sz: nat, off: nat): nat
  {
    Min(Min(sz, Max(0, InodeAt(su, d, n).size - off)), Max(0, CAPBYTES - off))
  }

  /** The result of a read is the slice of the file. */
  ghost predicate ReadRight(su: Super, d: Image, n: nat, sz: nat, off: nat, r: Result)
    requires n < NINODES
  {
    && r.n == ReadLen(su, d, n, sz, off)
    && r.n <= |r.buf|
    && forall k {:trigger r.buf[k]} | 0 <= k < r.n && off + k < CAPBYTES :: r.buf[k] == FileByte(su, d, n, off + k)
  }

  /** A read delivers the slice of the file unless it starts strictly inside a hole and runs past it. */
  lemma ReadRefinesView(su: Super, d: Image, n: nat, buf: seq<byte>, sz: nat, off: u32)
    requires n < NINODES && su.ninodes == NINODES && sz <= |buf|
    requires !RunsOutOfHole(su, d, n, off, Min(sz, Max(0, InodeAt(su, d, n).size - off)))
    ensures ReadRight(su, d, n, sz, off, InodeRw(su, d, n, buf, sz, off, false))
  {
    hide RunsOutOfHole, InodeAt, Slots, FileByte, Onward;
    var di := InodeAt(su, d, n);
    if off < di.size {
      var q := Clip(di, off, sz, false);
      assert q.sz == Min(sz, Max(0, di.size - off));
      var s := Begin(d, buf, q);
      BeginCursor(d, buf, q);
      SlotsRead(su, q, s, n, 0);
      SlotsKeepDisk(su, q, s, di.ptrs, 0);
      OnwardMeans(s, Slots(su, q, s, di.ptrs, 0).0);
    }
  }

  /** Reads that stay inside one block are always right. */
  lemma SmallReadSafe(su: Super, d: Image, n: nat, off: nat, sz: nat)
    requires n < NINODES && off % BLOCKSIZE + sz <= BLOCKSIZE
    ensures !RunsOutOfHole(su, d, n, off, sz)
  {
    hide NodeAt;
    if RunsOutOfHole(su, d, n, off, sz) {
      HoleContains(su, d, LeafAddr(n, off / BLOCKSIZE));
    }
  }

  lemma {:induction false} HoleContains(su: Super, d: Image, x: Addr)
    requires Valid(x) && NodeAt(su, d, x) == 0
    ensures Fb(Hole(su, d, x)) <= Fb(x) && Fb(x) + Cov(Lvl(x)) <= HoleEnd(Hole(su, d, x))
  {
    hide InodeAt, GetPtr;
    FbRange(x);
    if x.Kid? {
      FbRange(x.up);
      if NodeAt(su, d, x.up) == 0 {
        HoleContains(su, d, x.up);
      }
    }
  }
}

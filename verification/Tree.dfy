/** The pointer trees of the inodes.
    An address names one pointer: a slot of an inode, or an entry of the block that
    another pointer leads to. `Good` says that following pointers is a bijection between
    the addresses that hold a non-null pointer and the blocks the bitmap marks in use. */
module Tree {
  import opened Bytes
  import opened Layout

  datatype Addr = Root(ino: nat, slot: nat) | Kid(up: Addr, i: nat)

  /** 10 direct pointers, 2 singly-indirect ones and 1 doubly-indirect one. */
  function Ilevel(slot: nat): nat
  {
    if slot < 10 then 0 else if slot < 12 then 1 else 2
  }

  /** The number of data blocks a pointer of the given level covers. */
  function Cov(lvl: int): nat
  {
    if lvl == 0 then 1 else if lvl == 1 then NPTRS_PER_BLOCK else NPTRS_PER_BLOCK * NPTRS_PER_BLOCK
  }

  const CAPACITY: nat := 16650

  /** The first file block that a slot of an inode covers. */
  function Start(slot: nat): nat
  {
    if slot <= 10 then slot else if slot == 11 then 138 else if slot == 12 then 266 else CAPACITY
  }

  function Ino(a: Addr): nat
  {
    match a case Root(n, _) => n case Kid(up, _) => Ino(up)
  }

  function Lvl(a: Addr): int
  {
    match a case Root(_, s) => Ilevel(s) case Kid(up, _) => Lvl(up) - 1
  }

  /** The first file block that an address covers. */
  function Fb(a: Addr): nat
  {
    match a
    case Root(_, s) => Start(s)
    case Kid(up, i) => if Lvl(up) == 2 then Fb(up) + NPTRS_PER_BLOCK * i else Fb(up) + i
  }

  predicate Valid(a: Addr)
  {
    match a
    case Root(n, s) => n < NINODES && s < NPTRS
    case Kid(up, i) => Valid(up) && Lvl(up) > 0 && i < NPTRS_PER_BLOCK
  }

  predicate Leaf(a: Addr)
  {
    Valid(a) && Lvl(a) == 0
  }

  /** The pointer held at address a; null below a null pointer. */
  function NodeAt(su: Super, d: Image, a: Addr): u32
    requires Valid(a)
  {
    match a
    case Root(n, s) => InodeAt(su, d, n).ptrs[s]
    case Kid(up, i) =>
      var p := NodeAt(su, d, up);
      if p == 0 then 0 else GetPtr(ReadB(d, p), i)
  }

  /** The data block a leaf leads to; a hole reads as zeros. */
  function Content(su: Super, d: Image, x: Addr): Block
    requires Leaf(x)
  {
    var p := NodeAt(su, d, x);
    if p == 0 then ZERO_BLOCK else ReadB(d, p)
  }

  predicate DataBlock(su: Super, p: int)
  {
    su.sdata <= p < su.sdata + su.nblockDat
  }

  type Owners = map<u32, Addr>

  /** Every pointer leads to a data block of its own, and own inverts NodeAt. */
  ghost predicate Forest(su: Super, d: Image, own: Owners)
  {
    && (forall a {:trigger NodeAt(su, d, a)} | Valid(a) && NodeAt(su, d, a) != 0 ::
          NodeAt(su, d, a) in own && own[NodeAt(su, d, a)] == a)
    && (forall p | p in own :: DataBlock(su, p) && Valid(own[p]) && NodeAt(su, d, own[p]) == p)
  }

  /** Bit k is set exactly if its block is in the forest, and is otherwise zero. */
  ghost predicate BitExact(su: Super, d: Image, own: Owners, k: nat)
    requires k < NBits(su)
  {
    && (Used(su, d, k) <==> su.sdata + k in own)
    && (su.sdata + k !in own ==> ReadB(d, su.sdata + k) == ZERO_BLOCK)
  }

  /** The bitmap marks the blocks of the forest; all other data blocks are zero. */
  ghost predicate BitmapExact(su: Super, d: Image, own: Owners)
  {
    forall k: nat | k < NBits(su) :: BitExact(su, d, own, k)
  }

  /** The blocks `bitmap_alloc` never hands out are not in the forest. */
  ghost predicate TailUnused(su: Super, own: Owners)
  {
    forall p | p in own :: p < su.sdata + NBits(su)
  }

  ghost predicate Good(su: Super, d: Image, own: Owners)
  {
    && WellLaid(su, |d|)
    && Forest(su, d, own)
    && BitmapExact(su, d, own)
    && TailUnused(su, own)
  }

  // ----- arithmetic of addresses -----

  lemma LvlRange(a: Addr)
    requires Valid(a)
    ensures 0 <= Lvl(a) <= 2 && Ino(a) < NINODES
  {
  }

  lemma {:induction false} FbRange(a: Addr)
    requires Valid(a)
    ensures 0 <= Lvl(a) <= 2
    ensures Fb(a) + Cov(Lvl(a)) <= CAPACITY
  {
    if a.Kid? {
      FbRange(a.up);
    }
  }

  /** The leaf of file block fb. */
  function LeafAddr(n: nat, fb: nat): (x: Addr)
    requires n < NINODES && fb < CAPACITY
    ensures Leaf(x) && Fb(x) == fb && Ino(x) == n
  {
    if fb < 10 then Root(n, fb)
    else if fb < 266 then
      var slot := if fb < 138 then 10 else 11;
      assert Lvl(Root(n, slot)) == 1;
      Kid(Root(n, slot), fb - Start(slot))
    else
      var top, i := Root(n, 12), (fb - 266) / 128;
      assert Lvl(top) == 2 && Valid(top);
      assert Lvl(Kid(top, i)) == 1 && Valid(Kid(top, i)) && Fb(Kid(top, i)) == 266 + 128 * i;
      assert Ino(Kid(top, i)) == n;
      Kid(Kid(top, i), (fb - 266) % 128)
  }

  /** A leaf is determined by its inode and file block. */
  lemma LeafUnique(x: Addr)
    requires Leaf(x)
    ensures Fb(x) < CAPACITY && Ino(x) < NINODES && x == LeafAddr(Ino(x), Fb(x))
  {
    FbRange(x);
    if x.Kid? {
      LvlRange(x.up);
      if x.up.Kid? {
        MiddleShape(x.up);
        assert x.up.i == (Fb(x) - 266) / 128 && x.i == (Fb(x) - 266) % 128;
      }
    }
  }

  lemma MiddleShape(a: Addr)
    requires Valid(a) && a.Kid? && Lvl(a) == 1
    ensures a.up == Root(Ino(a), 12) && Fb(a) == 266 + 128 * a.i
  {
    LvlRange(a.up);
    if a.up.Kid? {
      LvlRange(a.up.up);
    }
  }

  lemma LeafInjective(x: Addr, y: Addr)
    requires Leaf(x) && Leaf(y) && Ino(x) == Ino(y) && Fb(x) == Fb(y)
    ensures x == y
  {
    LeafUnique(x);
    LeafUnique(y);
  }

  /** Everything below a null pointer is null. */
  lemma NullBelow(su: Super, d: Image, a: Addr, fb: nat)
    requires Valid(a) && NodeAt(su, d, a) == 0 && Ino(a) < NINODES
    requires Fb(a) <= fb < Fb(a) + Cov(Lvl(a)) && fb < CAPACITY
    ensures NodeAt(su, d, LeafAddr(Ino(a), fb)) == 0
  {
    hide InodeAt, GetPtr;
    var x := LeafAddr(Ino(a), fb);
    LvlRange(a);
    if Lvl(a) == 0 {
      LeafInjective(a, x);
    } else if Lvl(a) == 1 {
      LeafInjective(x, Kid(a, fb - Fb(a)));
    } else {
      var y := Kid(a, (fb - Fb(a)) / NPTRS_PER_BLOCK);
      assert Lvl(y) == 1 && Valid(y) && Fb(y) == Fb(a) + NPTRS_PER_BLOCK * ((fb - Fb(a)) / NPTRS_PER_BLOCK);
      LeafInjective(x, Kid(y, fb - Fb(y)));
      assert NodeAt(su, d, y) == 0;
    }
  }

  // ----- open blocks: those that hold a pointer on the way to a -----

  function InodeBlock(su: Super, n: nat): nat
  {
    su.sinode + n / NINODES_PER_BLOCK
  }

  /** The block in which the pointer at a is stored. */
  function Holder(su: Super, d: Image, a: Addr): nat
    requires Valid(a)
  {
    match a
    case Root(n, _) => InodeBlock(su, n)
    case Kid(up, _) => NodeAt(su, d, up)
  }

  function Open(su: Super, d: Image, a: Addr): set<nat>
    requires Valid(a)
  {
    match a
    case Root(n, _) => {InodeBlock(su, n)}
    case Kid(up, _) => Open(su, d, up) + {NodeAt(su, d, up) as nat}
  }

  predicate Reached(su: Super, d: Image, a: Addr)
    requires Valid(a)
  {
    a.Kid? ==> NodeAt(su, d, a.up) != 0
  }

  lemma {:induction false} OpenMembers(su: Super, d: Image, own: Owners, a: Addr, p: nat)
    requires Good(su, d, own) && Valid(a) && Reached(su, d, a)
    requires p in Open(su, d, a)
    ensures p == InodeBlock(su, Ino(a)) || (p in own && Lvl(own[p]) > Lvl(a))
    ensures p != su.sbitmap && p < |d| && (p in own || su.sinode <= p < su.sbitmap)
    ensures p != NodeAt(su, d, a)
  {
    LvlRange(a);
    match a
    case Root(n, _) =>
    case Kid(up, i) =>
      if p != NodeAt(su, d, up) {
        if NodeAt(su, d, up) == 0 {
          assert false;
        }
        OpenMembers(su, d, own, up, p);
      }
  }

  // ----- the two changes a write makes -----

  /** The disk with the pointer at a replaced by q. */
  function SetNode(su: Super, d: Image, a: Addr, q: u32): (r: Image)
    requires Valid(a)
    ensures |r| == |d|
  {
    match a
    case Root(n, s) =>
      var di := InodeAt(su, d, n);
      WriteInode(su, d, n, di.(ptrs := di.ptrs[s := q]))
    case Kid(up, i) =>
      var h := NodeAt(su, d, up);
      WriteB(d, h, SetPtr(ReadB(d, h), i, q))
  }

  function SetUsed(su: Super, d: Image, k: nat): (r: Image)
    requires k < 8 * BLOCKSIZE
    ensures |r| == |d|
  {
    WriteB(d, su.sbitmap, SetBitAt(ReadB(d, su.sbitmap), k))
  }

  function Allocate(su: Super, d: Image, a: Addr, k: nat): (r: Image)
    requires Valid(a) && k < 8 * BLOCKSIZE && su.sdata + k < WORD
    ensures |r| == |d|
  {
    SetNode(su, SetUsed(su, d, k), a, su.sdata + k)
  }

  /** Inode n once the pointer at a is q. */
  function InodeWith(su: Super, d: Image, a: Addr, n: nat, q: u32): Dinode
    requires Valid(a)
  {
    var di := InodeAt(su, d, n);
    if a.Root? && n == a.ino then di.(ptrs := di.ptrs[a.slot := q]) else di
  }

  /** The preconditions of taking free block k for the null pointer at a. */
  ghost predicate CanAllocate(su: Super, d: Image, own: Owners, a: Addr, k: nat)
  {
    && Good(su, d, own) && Valid(a) && Reached(su, d, a) && NodeAt(su, d, a) == 0
    && k < NBits(su) && !Used(su, d, k)
  }

  lemma NodeOwned(su: Super, d: Image, own: Owners, a: Addr)
    requires Good(su, d, own) && Valid(a) && NodeAt(su, d, a) != 0
    ensures NodeAt(su, d, a) in own && own[NodeAt(su, d, a)] == a
    ensures DataBlock(su, NodeAt(su, d, a)) && WellLaid(su, |d|)
  {
    hide NodeAt, Valid, BitmapExact;
  }

  lemma HolderInUse(su: Super, d: Image, own: Owners, a: Addr)
    requires Good(su, d, own) && Valid(a) && Reached(su, d, a)
    ensures Holder(su, d, a) < |d| && Holder(su, d, a) != su.sbitmap
    ensures Holder(su, d, a) in own || Holder(su, d, a) < su.sbitmap
    ensures a.Kid? ==> Holder(su, d, a) in own && own[Holder(su, d, a)] == a.up && DataBlock(su, Holder(su, d, a))
  {
    LvlRange(a);
    if a.Kid? {
      assert NodeAt(su, d, a.up) in own;
    }
  }

  lemma AllocateBlocks(su: Super, d: Image, own: Owners, a: Addr, k: nat, p: nat)
    requires CanAllocate(su, d, own, a, k)
    requires p != su.sbitmap && p != Holder(su, d, a)
    ensures ReadB(Allocate(su, d, a, k), p) == ReadB(d, p)
  {
    hide GetInode, PutInode, GetPtr, SetPtr, BitAt, SetBitAt;
    AllocateHolder(su, d, own, a, k);
  }

  lemma {:induction false} NodeAtBitmap(su: Super, d: Image, own: Owners, x: Addr, k: nat)
    requires Good(su, d, own) && Valid(x) && k < 8 * BLOCKSIZE
    ensures NodeAt(su, SetUsed(su, d, k), x) == NodeAt(su, d, x)
  {
    hide GetInode, PutInode, GetPtr, SetPtr, BitAt, SetBitAt;
    if x.Kid? {
      NodeAtBitmap(su, d, own, x.up, k);
    }
  }

  /** Block k is free, zero, and none of the blocks on the way to a. */
  lemma FreeBlock(su: Super, d: Image, own: Owners, a: Addr, k: nat)
    requires CanAllocate(su, d, own, a, k)
    ensures WellLaid(su, |d|) && su.sdata + k < WORD && k < 8 * BLOCKSIZE
    ensures su.sdata + k !in own && ReadB(d, su.sdata + k) == ZERO_BLOCK
    ensures Holder(su, d, a) < |d| && Holder(su, d, a) != su.sbitmap && Holder(su, d, a) != su.sdata + k
  {
    hide NodeAt, BitAt;
    HolderInUse(su, d, own, a);
    assert BitExact(su, d, own, k);
  }

  lemma AllocateHolder(su: Super, d: Image, own: Owners, a: Addr, k: nat)
    requires CanAllocate(su, d, own, a, k)
    ensures su.sdata + k !in own && su.sdata + k < WORD && ReadB(d, su.sdata + k) == ZERO_BLOCK
    ensures Holder(su, d, a) != su.sbitmap && Holder(su, d, a) != su.sdata + k
    ensures Holder(su, SetUsed(su, d, k), a) == Holder(su, d, a)
    ensures a.Kid? ==>
      ReadB(Allocate(su, d, a, k), Holder(su, d, a)) == SetPtr(ReadB(d, Holder(su, d, a)), a.i, su.sdata + k)
  {
    hide GetInode, PutInode, GetPtr, SetPtr, BitAt, SetBitAt, NodeAt, InodeAt, Used, Forest, BitmapExact, WellLaid;
    FreeBlock(su, d, own, a, k);
    if a.Kid? {
      NodeAtBitmap(su, d, own, a.up, k);
    }
  }

  lemma AllocateInode(su: Super, d: Image, own: Owners, a: Addr, k: nat, n: nat)
    requires CanAllocate(su, d, own, a, k) && n < NINODES
    ensures su.sdata + k < WORD
    ensures InodeAt(su, Allocate(su, d, a, k), n) == InodeWith(su, d, a, n, su.sdata + k)
  {
    hide GetInode, PutInode, GetPtr, SetPtr, BitAt, SetBitAt, NodeAt, Forest, BitmapExact;
    var d1 := SetUsed(su, d, k);
    assert InodeAt(su, d1, n) == InodeAt(su, d, n);
    match a
    case Root(m, s) =>
      assert InodeAt(su, d1, m) == InodeAt(su, d, m);
      InodeReadWrite(su, d1, m, InodeWith(su, d, a, m, su.sdata + k), n);
    case Kid(up, i) =>
      AllocateHolder(su, d, own, a, k);
      HolderInUse(su, d, own, a);
      AllocateBlocks(su, d, own, a, k, InodeBlock(su, n));
  }

  lemma {:induction false} AllocateNode(su: Super, d: Image, own: Owners, a: Addr, k: nat, x: Addr)
    requires CanAllocate(su, d, own, a, k) && Valid(x)
    ensures su.sdata + k < WORD
    ensures NodeAt(su, Allocate(su, d, a, k), x) == if x == a then su.sdata + k else NodeAt(su, d, x)
  {
    hide InodeAt, GetPtr, SetPtr, Used, BitmapExact, SetNode, SetUsed;
    FreeBlock(su, d, own, a, k);
    HolderInUse(su, d, own, a);
    hide Allocate;
    var e, q := Allocate(su, d, a, k), su.sdata + k;
    AllocateHolder(su, d, own, a, k);
    match x
    case Root(n, s) =>
      AllocateInode(su, d, own, a, k, n);
    case Kid(up, i) =>
      AllocateNode(su, d, own, a, k, up);
      var p := NodeAt(su, d, up);
      if up == a {
        AllocateBlocks(su, d, own, a, k, q);
        PtrZero(i);
      } else if p != 0 {
        assert p in own && own[p] == up;
        if a.Kid? && p == Holder(su, d, a) {
          assert up == a.up;
          PtrGetSet(ReadB(d, p), a.i, q, i);
        } else {
          AllocateBlocks(su, d, own, a, k, p);
        }
      }
  }

  lemma AllocateContent(su: Super, d: Image, own: Owners, a: Addr, k: nat, x: Addr)
    requires CanAllocate(su, d, own, a, k) && Leaf(x)
    ensures Content(su, Allocate(su, d, a, k), x) == Content(su, d, x)
  {
    hide GetInode, PutInode, GetPtr, SetPtr, BitAt, SetBitAt;
    AllocateNode(su, d, own, a, k, x);
    AllocateHolder(su, d, own, a, k);
    var p := NodeAt(su, d, x);
    if x == a {
      AllocateBlocks(su, d, own, a, k, su.sdata + k);
    } else if p != 0 {
      assert p in own && own[p] == x;
      if a.Kid? {
        LvlRange(a);
        assert Holder(su, d, a) in own && own[Holder(su, d, a)] == a.up;
      }
      AllocateBlocks(su, d, own, a, k, p);
    }
  }

  lemma AllocateBits(su: Super, d: Image, own: Owners, a: Addr, k: nat, j: nat)
    requires CanAllocate(su, d, own, a, k) && j < NBits(su)
    ensures Used(su, Allocate(su, d, a, k), j) == (j == k || Used(su, d, j))
  {
    hide GetInode, PutInode, GetPtr, SetPtr, BitAt, SetBitAt;
    AllocateHolder(su, d, own, a, k);
    BitGetSet(ReadB(d, su.sbitmap), k, j);
    assert ReadB(Allocate(su, d, a, k), su.sbitmap) == SetBitAt(ReadB(d, su.sbitmap), k);
  }

  /** The forest after the null pointer at a became q, a block outside it. */
  lemma ForestGrows(su: Super, d: Image, own: Owners, e: Image, a: Addr, q: u32)
    requires Forest(su, d, own) && Valid(a) && NodeAt(su, d, a) == 0
    requires su.sdata > 0 && q !in own && DataBlock(su, q)
    requires forall x {:trigger NodeAt(su, e, x)} | Valid(x) ::
      NodeAt(su, e, x) == if x == a then q else NodeAt(su, d, x)
    ensures Forest(su, e, own[q := a])
  {
    hide NodeAt, Valid;
  }

  /** Taking a free block for a null pointer keeps the invariant and changes nothing that can be read. */
  lemma AllocateGood(su: Super, d: Image, own: Owners, a: Addr, k: nat)
    requires CanAllocate(su, d, own, a, k)
    ensures su.sdata + k < WORD
    ensures Good(su, Allocate(su, d, a, k), own[su.sdata + k := a])
  {
    hide NodeAt, Forest, BitmapExact, SetNode, SetUsed, Used, Reached, Holder;
    FreeBlock(su, d, own, a, k);
    hide Allocate;
    var e, q := Allocate(su, d, a, k), su.sdata + k;
    forall x | Valid(x) ensures NodeAt(su, e, x) == if x == a then q else NodeAt(su, d, x) {
      AllocateNode(su, d, own, a, k, x);
    }
    ForestGrows(su, d, own, e, a, q);
    AllocateBitmap(su, d, own, a, k);
  }

  lemma AllocateBitmap(su: Super, d: Image, own: Owners, a: Addr, k: nat)
    requires CanAllocate(su, d, own, a, k) && su.sdata + k < WORD
    ensures BitmapExact(su, Allocate(su, d, a, k), own[su.sdata + k := a])
  {
    hide Allocate, Used, Good, Reached, NodeAt;
    assert k < NBits(su) && Valid(a);
    hide CanAllocate;
    var e, own' := Allocate(su, d, a, k), own[su.sdata + k := a];
    forall j: nat | j < NBits(su) ensures BitExact(su, e, own', j) {
      AllocateBit(su, d, own, a, k, j);
    }
  }

  lemma AllocateBit(su: Super, d: Image, own: Owners, a: Addr, k: nat, j: nat)
    requires CanAllocate(su, d, own, a, k) && su.sdata + k < WORD && j < NBits(su)
    ensures Used(su, Allocate(su, d, a, k), j) <==> su.sdata + j in own[su.sdata + k := a]
    ensures su.sdata + j !in own[su.sdata + k := a] ==>
      ReadB(Allocate(su, d, a, k), su.sdata + j) == ZERO_BLOCK
  {
    hide Allocate, BitAt, Forest, NodeAt;
    AllocateBits(su, d, own, a, k, j);
    assert BitExact(su, d, own, j);
    if su.sdata + j !in own[su.sdata + k := a] {
      HolderInUse(su, d, own, a);
      assert su.sdata + j !in own;
      AllocateBlocks(su, d, own, a, k, su.sdata + j);
    }
  }

  // ----- writing one data block -----

  lemma {:induction false} StoreNode(su: Super, d: Image, own: Owners, a: Addr, b: Block, x: Addr)
    requires Good(su, d, own) && Leaf(a) && NodeAt(su, d, a) != 0 && Valid(x)
    ensures NodeAt(su, WriteB(d, NodeAt(su, d, a), b), x) == NodeAt(su, d, x)
  {
    hide GetInode, PutInode, GetPtr, SetPtr, BitAt, SetBitAt;
    var q := NodeAt(su, d, a);
    assert q in own && own[q] == a;
    match x
    case Root(n, s) =>
      assert InodeAt(su, WriteB(d, q, b), n) == InodeAt(su, d, n);
    case Kid(up, i) =>
      StoreNode(su, d, own, a, b, up);
      var p := NodeAt(su, d, up);
      if p != 0 {
        assert p in own && own[p] == up;
      }
  }

  /** Writing through the leaf a keeps the invariant and changes the content of a alone. */
  lemma StoreGood(su: Super, d: Image, own: Owners, a: Addr, b: Block)
    requires Good(su, d, own) && Leaf(a) && NodeAt(su, d, a) != 0
    ensures Good(su, WriteB(d, NodeAt(su, d, a), b), own)
    ensures forall x | Leaf(x) ::
      Content(su, WriteB(d, NodeAt(su, d, a), b), x) == if x == a then b else Content(su, d, x)
  {
    hide GetInode, PutInode, GetPtr, SetPtr, BitAt, SetBitAt;
    var q := NodeAt(su, d, a);
    var e := WriteB(d, q, b);
    assert q in own && own[q] == a;
    forall x | Valid(x) ensures NodeAt(su, e, x) == NodeAt(su, d, x) {
      StoreNode(su, d, own, a, b, x);
    }
    SameForest(su, d, own, e);
    forall x | Leaf(x) ensures Content(su, e, x) == if x == a then b else Content(su, d, x) {
      var p := NodeAt(su, d, x);
      assert p != 0 ==> p in own && own[p] == x;
    }
    StoreBitmap(su, d, own, q, b);
  }

  lemma SameForest(su: Super, d: Image, own: Owners, e: Image)
    requires Forest(su, d, own)
    requires forall x {:trigger NodeAt(su, e, x)} | Valid(x) :: NodeAt(su, e, x) == NodeAt(su, d, x)
    ensures Forest(su, e, own)
  {
    hide NodeAt, Valid;
  }

  lemma StoreBitmap(su: Super, d: Image, own: Owners, q: u32, b: Block)
    requires Good(su, d, own) && q in own
    ensures BitmapExact(su, WriteB(d, q, b), own)
  {
    hide NodeAt, BitAt;
    var e := WriteB(d, q, b);
    forall j: nat | j < NBits(su) ensures BitExact(su, e, own, j) {
      assert BitExact(su, d, own, j);
    }
  }
}

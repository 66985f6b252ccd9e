/** `recursive_rw` and `inode_rw` as functions of the disk and the shared cursor. */
module ReadWrite {
  import opened Bytes
  import opened Layout
  import opened Tree

  /** The constant part of `struct share_arg`: the byte interval and the direction.
      The block interval [sblock, eblock] is inclusive at both ends. */
  datatype Request = Request(off: u32, sz: nat, w: bool)
  {
    function Sblock(): nat { off / BLOCKSIZE }
    function Eblock(): nat { (off + sz) / BLOCKSIZE }
  }

  /** The disk, the moving part of `struct share_arg`, and the caller's buffer. */
  datatype State = State(d: Image, boff: nat, off: u32, pos: nat, left: nat, buf: seq<byte>)
  {
    predicate InBuffer() { pos + left <= |buf| }

    /** The cursor after n bytes went through the buffer and boff reached e. */
    function Advance(n: nat, e: nat): State
      requires n <= left
    {
      this.(boff := e, off := (off + n) % WORD, pos := pos + n, left := left - n)
    }
  }

  datatype Outcome = Outcome(s: State, p: u32, ok: bool)

  predicate SameShape(s: State, t: State)
  {
    t.pos + t.left == s.pos + s.left && |t.buf| == |s.buf| && |t.d| == |s.d|
  }

  /** The pointer is not involved: step over everything it covers. */
  function Skip(s: State, e: nat): State
    requires s.boff <= e
  {
    s.(boff := e, off := (s.off + (e - s.boff) * BLOCKSIZE) % WORD)
  }

  predicate Overlaps(q: Request, b: nat, e: nat)
  {
    b <= q.Eblock() && q.Sblock() < e
  }

  /** A null pointer met while writing: take a block, and clear it if it will hold pointers. */
  function Provide(su: Super, d: Image, p: u32, lvl: nat): (r: (Image, u32))
    ensures |r.0| == |d|
  {
    if p != 0 then (d, p)
    else
      var (d1, q) := BitmapAlloc(su, d);
      if q != 0 && lvl > 0 then (WriteB(d1, q, ZERO_BLOCK), q) else (d1, q)
  }

  /** A null pointer met while reading: zero-fill for all it covers. */
  function ReadHole(s: State, e: nat): State
    requires s.InBuffer() && s.boff <= e
  {
    var n := Min(s.left, (e - s.boff) * BLOCKSIZE);
    s.(buf := Put(s.buf, s.pos, Zeros(n))).Advance(n, e)
  }

  /** Copy between the buffer and one data block. */
  function Transfer(q: Request, s: State, p: u32): State
    requires s.InBuffer()
  {
    var start := s.off % BLOCKSIZE;
    var n := Min(s.left, BLOCKSIZE - start);
    var b := ReadB(s.d, p);
    if q.w then
      s.(d := WriteB(s.d, p, Put(b, start, s.buf[s.pos..s.pos + n]))).Advance(n, s.boff + 1)
    else
      s.(buf := Put(s.buf, s.pos, b[start..start + n])).Advance(n, s.boff + 1)
  }

  function Rw(su: Super, q: Request, s: State, p: u32, lvl: nat): (o: Outcome)
    requires s.InBuffer() && lvl <= 2
    ensures SameShape(s, o.s)
    decreases lvl, 1, 0
  {
    var e := s.boff + Cov(lvl);
    if !Overlaps(q, s.boff, e) then Outcome(Skip(s, e), p, true)
    else if q.w then
      var (d, p1) := Provide(su, s.d, p, lvl);
      if p1 == 0 then Outcome(s.(d := d), 0, false) else Visit(su, q, s.(d := d), p1, lvl)
    else if p == 0 then Outcome(ReadHole(s, e), p, true)
    else Visit(su, q, s, p, lvl)
  }

  function Visit(su: Super, q: Request, s: State, p: u32, lvl: nat): (o: Outcome)
    requires s.InBuffer() && lvl <= 2
    ensures SameShape(s, o.s)
    decreases lvl, 0, 0
  {
    if lvl == 0 then Outcome(Transfer(q, s, p), p, true)
    else
      var (t, b, ok) := Kids(su, q, s, ReadB(s.d, p), lvl - 1, 0);
      Outcome(if ok || q.w then t.(d := WriteB(t.d, p, b)) else t, p, ok)
  }

  /** The loop over the pointers of an index block from the i-th on; b is the copy in memory. */
  function Kids(su: Super, q: Request, s: State, b: Block, lvl: nat, i: nat): (r: (State, Block, bool))
    requires s.InBuffer() && lvl <= 1 && i <= NPTRS_PER_BLOCK
    ensures SameShape(s, r.0)
    decreases lvl, 2, NPTRS_PER_BLOCK - i
  {
    if i == NPTRS_PER_BLOCK then (s, b, true)
    else
      var o := Rw(su, q, s, GetPtr(b, i), lvl);
      var b1 := SetPtr(b, i, o.p);
      if !o.ok then (o.s, b1, false) else Kids(su, q, o.s, b1, lvl, i + 1)
  }

  /** The loop over the slots of an inode from the i-th on. */
  function Slots(su: Super, q: Request, s: State, ptrs: seq<u32>, i: nat): (r: (State, seq<u32>))
    requires s.InBuffer() && |ptrs| == NPTRS && i <= NPTRS
    ensures SameShape(s, r.0) && |r.1| == NPTRS
    decreases NPTRS - i
  {
    if i == NPTRS then (s, ptrs)
    else
      var o := Rw(su, q, s, ptrs[i], Ilevel(i));
      var ptrs1 := ptrs[i := o.p];
      if !o.ok then (o.s, ptrs1) else Slots(su, q, o.s, ptrs1, i + 1)
  }

  /** What `inode_rw` returns: the disk, the buffer, and the result (-1 on error). */
  datatype Result = Result(d: Image, buf: seq<byte>, n: int)

  /** The request after a read was clipped to the size of the file. */
  function Clip(di: Dinode, off: u32, sz: nat, w: bool): Request
    requires w || off < di.size
  {
    Request(off, if !w && off + sz >= di.size then di.size - off else sz, w)
  }

  function Begin(d: Image, buf: seq<byte>, q: Request): State
  {
    State(d, 0, q.off, 0, q.sz, buf)
  }

  /** The inode a write leaves: its pointers, and a size that reaches at least to the given byte. */
  function Written(di: Dinode, ptrs: seq<u32>, end: u32): Dinode
    requires |ptrs| == NPTRS
  {
    di.(ptrs := ptrs, size := Max(di.size, end))
  }

  /** `inode_rw` for a size that passed the range check on an initialised file system. The source's end
      of the interval wraps around only for offsets no inode can address, where it does not matter. */
  function InodeRw(su: Super, d: Image, n: nat, buf: seq<byte>, sz: nat, off: u32, w: bool): (r: Result)
    requires sz <= |buf|
    ensures |r.d| == |d| && |r.buf| == |buf| && -1 <= r.n <= sz
  {
    if n >= su.ninodes then Result(d, buf, -1)
    else
      var di := InodeAt(su, d, n);
      if !w && off >= di.size then Result(d, buf, 0)
      else
        var q := Clip(di, off, sz, w);
        var (t, ptrs) := Slots(su, q, Begin(d, buf, q), di.ptrs, 0);
        var consumed := q.sz - t.left;
        if w then
          Result(WriteInode(su, t.d, n, Written(di, ptrs, (off + consumed) % WORD)), t.buf, consumed)
        else Result(t.d, t.buf, consumed)
  }
}

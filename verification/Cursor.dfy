/** Arithmetic of the shared cursor: which bytes of the request lie before a file block. */
module Cursor {
  import opened Bytes
  import opened Layout
  import opened ReadWrite

  /** The number of requested bytes that lie before file block b. */
  function Before(q: Request, b: nat): (n: nat)
    ensures n <= q.sz
  {
    var n := b * BLOCKSIZE - q.off;
    if n < 0 then 0 else if n > q.sz then q.sz else n
  }

  /** File block fb lies in the inclusive block interval of the request. */
  predicate Touched(q: Request, fb: nat)
  {
    q.Sblock() <= fb <= q.Eblock()
  }

  /** Byte i of file block fb is one of the requested bytes. */
  predicate Hit(q: Request, fb: nat, i: nat)
  {
    q.off <= fb * BLOCKSIZE + i < q.off + q.sz
  }

  /** The cursor stands at the start of block boff, and everything before it is done.
      Only the residue of `off` matters. */
  predicate CursorOk(q: Request, s: State)
  {
    && |s.buf| >= q.sz
    && s.pos == Before(q, s.boff)
    && s.left == q.sz - s.pos
    && (s.boff * BLOCKSIZE <= q.off ==> s.off % BLOCKSIZE == q.off % BLOCKSIZE)
    && (s.boff * BLOCKSIZE > q.off && s.left > 0 ==> s.off % BLOCKSIZE == 0)
  }

  lemma WrapResidue(x: nat)
    ensures x % WORD % BLOCKSIZE == x % BLOCKSIZE
  {
    var y := x / WORD;
    assert x == WORD * y + x % WORD;
    assert WORD * y == BLOCKSIZE * (0x80_0000 * y);
    AddMultiple(x % WORD, 0x80_0000 * y);
  }

  lemma AddMultiple(x: nat, k: nat)
    ensures (x + k * BLOCKSIZE) % BLOCKSIZE == x % BLOCKSIZE
  {
  }

  lemma BeginCursor(d: Image, buf: seq<byte>, q: Request)
    requires q.sz <= |buf|
    ensures CursorOk(q, Begin(d, buf, q))
  {
  }

  lemma SkipCursor(q: Request, s: State, e: nat)
    requires CursorOk(q, s) && s.boff <= e && !Overlaps(q, s.boff, e)
    ensures CursorOk(q, Skip(s, e))
    ensures forall fb | s.boff <= fb < e :: !Touched(q, fb)
  {
    WrapResidue(s.off + (e - s.boff) * BLOCKSIZE);
    AddMultiple(s.off, e - s.boff);
    if s.boff > q.Eblock() {
      assert s.boff * BLOCKSIZE > q.off + q.sz;
    } else {
      assert e * BLOCKSIZE <= q.off;
    }
  }

  /** Where a transfer starts in its block and how much it moves. */
  lemma TransferExtent(q: Request, s: State)
    requires CursorOk(q, s) && Touched(q, s.boff)
    ensures var start := s.off % BLOCKSIZE; var n := Min(s.left, BLOCKSIZE - start);
      && Before(q, s.boff + 1) == s.pos + n
      && forall i | 0 <= i < BLOCKSIZE ::
          && (Hit(q, s.boff, i) <==> start <= i < start + n)
          && (start <= i < start + n ==> s.boff * BLOCKSIZE + i - q.off == s.pos + (i - start))
  {
  }

  lemma TransferCursor(q: Request, s: State, p: u32)
    requires CursorOk(q, s) && Touched(q, s.boff)
    ensures CursorOk(q, Transfer(q, s, p))
  {
    hide Put, ReadB, WriteB;
    TransferExtent(q, s);
    TransferResidue(q, s);
    hide Before;
    assert q.off < (s.boff + 1) * BLOCKSIZE;
  }

  /** A transfer that leaves requested bytes over stops at the end of its block. */
  lemma TransferResidue(q: Request, s: State)
    requires CursorOk(q, s) && Touched(q, s.boff)
    ensures var n := Min(s.left, BLOCKSIZE - s.off % BLOCKSIZE);
      s.left > n ==> (s.off + n) % WORD % BLOCKSIZE == 0
  {
    hide Before;
    var n := Min(s.left, BLOCKSIZE - s.off % BLOCKSIZE);
    WrapResidue(s.off + n);
    if s.left > n {
      assert s.off + n == BLOCKSIZE * (s.off / BLOCKSIZE + 1);
    }
  }

  // ----- the effect of a write on one block -----

  /** Block b of file block fb with the requested bytes taken from buf. */
  function Patch(q: Request, buf: seq<byte>, b: Block, fb: nat): (r: Block)
    requires q.sz <= |buf|
    ensures forall i | 0 <= i < BLOCKSIZE ::
      r[i] == if Hit(q, fb, i) then buf[fb * BLOCKSIZE + i - q.off] else b[i]
  {
    seq(BLOCKSIZE, i requires 0 <= i < BLOCKSIZE =>
      if Hit(q, fb, i) then buf[fb * BLOCKSIZE + i - q.off] else b[i])
  }

  lemma PatchOutside(q: Request, buf: seq<byte>, b: Block, fb: nat)
    requires q.sz <= |buf| && !Touched(q, fb)
    ensures Patch(q, buf, b, fb) == b
  {
  }

  lemma TransferPatches(q: Request, s: State, p: u32)
    requires CursorOk(q, s) && Touched(q, s.boff) && q.w
    ensures Transfer(q, s, p).d == WriteB(s.d, p, Patch(q, s.buf, ReadB(s.d, p), s.boff))
  {
    TransferExtent(q, s);
    var start := s.off % BLOCKSIZE;
    var n := Min(s.left, BLOCKSIZE - start);
    var b := ReadB(s.d, p);
    assert Put(b, start, s.buf[s.pos..s.pos + n]) == Patch(q, s.buf, b, s.boff);
  }
}

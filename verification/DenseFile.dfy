/** Files without holes behave as plain byte sequences. */
module DenseFile {
  import opened Bytes
  import opened Layout
  import opened Tree
  import opened ReadWrite
  import opened WriteProof
  import opened File
  import opened ReadProof
  import opened Directory
  import opened Namespace
  import opened Mknod
  import opened Runs
  import opened Persistence
  import NameTree

  /** Every block below the size of file n is mapped, and the size is within what an inode can address. */
  ghost predicate Dense(su: Super, d: Image, n: nat)
    requires n < NINODES
  {
    && InodeAt(su, d, n).size <= CAPBYTES
    && forall fb: nat {:trigger BlockMapped(su, d, n, fb)} |
         fb < CAPACITY && fb * BLOCKSIZE < InodeAt(su, d, n).size :: BlockMapped(su, d, n, fb)
  }

  /** The contents of file n, up to its size. */
  function Contents(su: Super, d: Image, n: nat): (s: seq<byte>)
    requires n < NINODES && InodeAt(su, d, n).size <= CAPBYTES
    ensures |s| == InodeAt(su, d, n).size
    ensures forall k :: 0 <= k < |s| ==> s[k] == FileByte(su, d, n, k)
  {
    seq<byte>(InodeAt(su, d, n).size, k requires 0 <= k < InodeAt(su, d, n).size => FileByte(su, d, n, k))
  }

  /** Writing into a plain byte sequence, at most one past its end. */
  function Splice(s: seq<byte>, off: nat, data: seq<byte>): (r: seq<byte>)
    requires off <= |s|
  {
    if off + |data| <= |s| then s[..off] + data + s[off + |data|..] else s[..off] + data
  }

  /** Reading from a plain byte sequence. */
  function Slice(s: seq<byte>, off: nat, sz: nat): (r: seq<byte>)
    ensures |r| == Min(sz, Max(0, |s| - off))
  {
    if off >= |s| then [] else s[off..Min(|s|, off + sz)]
  }

  lemma DenseStays(su: Super, d: Image, own: Owners, n: nat, buf: seq<byte>, sz: nat, off: u32, r: Result, own': Owners)
    requires Good(su, d, own) && n < NINODES && sz <= |buf| && Dense(su, d, n) && off <= InodeAt(su, d, n).size
    requires WriteEffect(su, d, own, n, buf, sz, off, r, own') && WrittenMapped(su, n, off, r)
    ensures Dense(su, r.d, n)
  {
    hide Good, NodeAt, InodeAt, FileByte, PlainKept;
    forall fb: nat {:trigger BlockMapped(su, r.d, n, fb)} |
      fb < CAPACITY && fb * BLOCKSIZE < InodeAt(su, r.d, n).size ensures BlockMapped(su, r.d, n, fb)
    {
      if fb * BLOCKSIZE < InodeAt(su, d, n).size {
        assert BlockMapped(su, d, n, fb);
        NodeStays(su, d, own, r.d, own', LeafAddr(n, fb));
      }
    }
  }

  lemma SpliceIs(su: Super, d: Image, own: Owners, n: nat, buf: seq<byte>, sz: nat, off: u32, r: Result, own': Owners)
    requires n < NINODES && sz <= |buf| && Dense(su, d, n) && off <= InodeAt(su, d, n).size && Dense(su, r.d, n)
    requires WriteEffect(su, d, own, n, buf, sz, off, r, own')
    ensures Contents(su, r.d, n) == Splice(Contents(su, d, n), off, buf[..r.n])
  {
    hide Good, NodeAt, InodeAt, FileByte, PlainKept, BlockMapped;
    var a, b := Contents(su, r.d, n), Splice(Contents(su, d, n), off, buf[..r.n]);
    assert |a| == |b|;
    forall k | 0 <= k < |a| ensures a[k] == b[k] {
      assert a[k] == FileByte(su, r.d, n, k);
    }
  }

  /** A write at most at the end of a dense file is a splice of the plain sequence, and leaves it dense. */
  lemma DenseWrite(su: Super, d: Image, own: Owners, n: nat, buf: seq<byte>, sz: nat, off: u32)
    returns (own': Owners)
    requires Good(su, d, own) && n < NINODES && sz <= |buf|
    requires Dense(su, d, n) && off <= InodeAt(su, d, n).size
    ensures var r := InodeRw(su, d, n, buf, sz, off, true);
      && Good(su, r.d, own') && Dense(su, r.d, n) && 0 <= r.n <= sz
      && Contents(su, r.d, n) == Splice(Contents(su, d, n), off, buf[..r.n])
  {
    hide Good, InodeAt, InodeRw, Splice, Contents, DiskFull;
    own' := WriteRefinesView(su, d, own, n, buf, sz, off);
    var r := InodeRw(su, d, n, buf, sz, off, true);
    DenseStays(su, d, own, n, buf, sz, off, r, own');
    SpliceIs(su, d, own, n, buf, sz, off, r, own');
  }

  lemma DenseNoHole(su: Super, d: Image, n: nat, sz: nat, off: nat)
    requires n < NINODES && Dense(su, d, n)
    ensures !RunsOutOfHole(su, d, n, off, Min(sz, Max(0, InodeAt(su, d, n).size - off)))
  {
    hide InodeAt, NodeAt, Hole;
    var c := Min(sz, Max(0, InodeAt(su, d, n).size - off));
    if off < CAPBYTES && !BlockMapped(su, d, n, off / BLOCKSIZE) {
      assert c == 0;
      HoleContains(su, d, LeafAddr(n, off / BLOCKSIZE));
    }
  }

  /** A read of a dense file is a slice of the plain sequence, at any offset and of any length. */
  lemma DenseRead(su: Super, d: Image, own: Owners, n: nat, buf: seq<byte>, sz: nat, off: u32)
    requires Good(su, d, own) && n < NINODES && sz <= |buf| && Dense(su, d, n)
    ensures var r := InodeRw(su, d, n, buf, sz, off, false);
      && 0 <= r.n <= |r.buf| && r.buf[..r.n] == Slice(Contents(su, d, n), off, sz)
      && r.d == d
  {
    assert su.ninodes == NINODES by { hide Forest, BitmapExact; }
    hide Good, InodeAt, InodeRw, FileByte, BlockMapped, RunsOutOfHole, Slice;
    DenseNoHole(su, d, n, sz, off);
    ReadRefinesView(su, d, n, buf, sz, off);
    ReadChangesNothing(su, d, n, buf, sz, off);
    SliceIs(su, d, n, sz, off, InodeRw(su, d, n, buf, sz, off, false));
  }

  lemma SliceIs(su: Super, d: Image, n: nat, sz: nat, off: nat, r: Result)
    requires n < NINODES && InodeAt(su, d, n).size <= CAPBYTES && ReadRight(su, d, n, sz, off, r)
    ensures 0 <= r.n <= |r.buf| && r.buf[..r.n] == Slice(Contents(su, d, n), off, sz)
  {
    hide InodeAt, FileByte;
    var a, b := r.buf[..r.n], Slice(Contents(su, d, n), off, sz);
    assert |a| == |b|;
    forall k | 0 <= k < |a| ensures a[k] == b[k] {
      assert r.buf[k] == FileByte(su, d, n, off + k);
    }
  }

  // ----- whole runs -----

  /** A plain byte sequence in place of file n: what a call makes of it, given how much a write took. */
  function PlainNext(n: nat, s: seq<byte>, op: Op, a: Answer): seq<byte>
  {
    if Writes(op, n) && a.Took? && 0 <= a.n <= |op.data| && op.off <= |s| then Splice(s, op.off, op.data[..a.n]) else s
  }

  function PlainEnd(n: nat, s: seq<byte>, ops: seq<Op>, answers: seq<Answer>): seq<byte>
    requires |answers| == |ops|
    decreases |ops|
  {
    if ops == [] then s else PlainEnd(n, PlainNext(n, s, ops[0], answers[0]), ops[1..], answers[1..])
  }

  /** No write of the run to file n starts past the end the file then has. */
  predicate NoGaps(n: nat, s: seq<byte>, ops: seq<Op>, answers: seq<Answer>)
    requires |answers| == |ops|
    decreases |ops|
  {
    ops != [] ==>
      && (Writes(ops[0], n) ==> ops[0].off <= |s|)
      && NoGaps(n, PlainNext(n, s, ops[0], answers[0]), ops[1..], answers[1..])
  }

  /** Every read of file n in the run returns the slice of the plain sequence, and every write to it
      takes no more than it was given. */
  predicate PlainAnswers(n: nat, s: seq<byte>, ops: seq<Op>, answers: seq<Answer>)
    requires |answers| == |ops|
    decreases |ops|
  {
    ops != [] ==>
      && PlainAnswer(n, s, ops[0], answers[0])
      && PlainAnswers(n, PlainNext(n, s, ops[0], answers[0]), ops[1..], answers[1..])
  }

  predicate PlainAnswer(n: nat, s: seq<byte>, op: Op, a: Answer)
  {
    && (op.Read? && op.rinum == n ==> a == Gave(|Slice(s, op.roff, op.sz)|, Slice(s, op.roff, op.sz)))
    && (Writes(op, n) ==> a.Took? && 0 <= a.n <= |op.data|)
  }

  /** File n is dense before, during and after the run. */
  ghost predicate DenseThroughout(su: Super, d: Image, n: nat, ops: seq<Op>)
    requires n < NINODES
    decreases |ops|
  {
    Dense(su, d, n) && (ops != [] ==> DenseThroughout(su, Step(su, d, ops[0]), n, ops[1..]))
  }

  /** The file reads the same and no pointer was lost, so it is dense as before. */
  lemma SameDense(su: Super, d: Image, own: Owners, e: Image, own': Owners, n: nat)
    requires Good(su, d, own) && Good(su, e, own') && Extends(own, own')
    requires n < NINODES && Dense(su, d, n) && SameFile(su, d, e, n)
    ensures Dense(su, e, n) && Contents(su, e, n) == Contents(su, d, n)
  {
    hide Good, InodeAt, NodeAt, FileByte;
    forall fb: nat {:trigger BlockMapped(su, e, n, fb)} | fb < CAPACITY && fb * BLOCKSIZE < InodeAt(su, e, n).size
      ensures BlockMapped(su, e, n, fb)
    {
      assert BlockMapped(su, d, n, fb);
      NodeStays(su, d, own, e, own', LeafAddr(n, fb));
    }
    assert Contents(su, e, n) == Contents(su, d, n);
  }

  /** One call of a run leaves a dense file dense, and does to it what the plain sequence says. */
  lemma DenseStep(su: Super, d: Image, own: Owners, par: NameTree.Places, dep: NameTree.Depths, n: nat, op: Op)
    returns (own': Owners, par': NameTree.Places, dep': NameTree.Depths)
    requires Inv(su, d, own, par, dep) && Allowed(su, d, op) && Plain(su, d, n) && Dense(su, d, n)
    requires Writes(op, n) ==> op.off <= InodeAt(su, d, n).size
    ensures Inv(su, Step(su, d, op), own', par', dep') && Plain(su, Step(su, d, op), n) && Dense(su, Step(su, d, op), n)
    ensures PlainAnswer(n, Contents(su, d, n), op, Reply(su, d, op))
    ensures Contents(su, Step(su, d, op), n) == PlainNext(n, Contents(su, d, n), op, Reply(su, d, op))
  {
    hide Inv, Good, Dense, Contents, InodeAt, InodeRw, FileByte, Splice, Slice, SameFile, FsMknod, FsLookup, GoodPath;
    InvGood(su, d, own, par, dep);
    own', par', dep' := StepKeepsInv(su, d, own, par, dep, op);
    var e := Step(su, d, op);
    InvGood(su, e, own', par', dep');
    DenseSize(su, d, n);
    if Writes(op, n) {
      var _ := DenseWrite(su, d, own, n, op.data, |op.data|, op.off);
      WriteStaysPlain(su, d, own, n, op.data, op.off);
    } else {
      StepKeepsFile(su, d, own, par, dep, op, n);
      SameDense(su, d, own, e, own', n);
      SameMeta(su, d, e, n);
      if op.Read? && op.rinum == n {
        DenseRead(su, d, own, n, op.buf, op.sz, op.roff);
      }
    }
  }

  lemma DenseSize(su: Super, d: Image, n: nat)
    requires n < NINODES && Dense(su, d, n)
    ensures InodeAt(su, d, n).size <= CAPBYTES && |Contents(su, d, n)| == InodeAt(su, d, n).size
  {
    hide InodeAt, FileByte;
  }

  lemma SameMeta(su: Super, d: Image, e: Image, n: nat)
    requires n < NINODES && SameFile(su, d, e, n)
    ensures InodeAt(su, e, n).typ == InodeAt(su, d, n).typ
  {
    hide InodeAt, FileByte;
  }

  lemma WriteStaysPlain(su: Super, d: Image, own: Owners, n: nat, data: seq<byte>, off: u32)
    requires Good(su, d, own) && n < NINODES
    ensures InodeAt(su, InodeRw(su, d, n, data, |data|, off, true).d, n).typ == InodeAt(su, d, n).typ
  {
    hide Good, InodeAt, InodeRw, FileByte, PlainKept, WrittenMapped, MapEffect, ShortExplained, Stop;
    var _ := WriteRefinesView(su, d, own, n, data, |data|, off);
  }

  /** Over any run of calls in which no write to file n starts past its end, whatever else is created,
      written, read and looked up in between: the file is dense throughout, every read of it returns
      the slice of a plain byte sequence, and it ends as that sequence with the writes spliced in. */
  lemma {:induction false} DenseRun(su: Super, d: Image, own: Owners, par: NameTree.Places, dep: NameTree.Depths,
                                    n: nat, ops: seq<Op>)
    requires Inv(su, d, own, par, dep) && AllAllowed(su, d, ops) && Plain(su, d, n) && Dense(su, d, n)
    requires NoGaps(n, Contents(su, d, n), ops, Replies(su, d, ops))
    ensures DenseThroughout(su, d, n, ops) && Dense(su, Run(su, d, ops), n)
    ensures PlainAnswers(n, Contents(su, d, n), ops, Replies(su, d, ops))
    ensures Contents(su, Run(su, d, ops), n) == PlainEnd(n, Contents(su, d, n), ops, Replies(su, d, ops))
    decreases |ops|
  {
    hide Inv, Dense, Contents, InodeAt, Allowed, Step, Reply, Plain, PlainAnswer, PlainNext;
    assert n < NINODES by { PlainInRange(su, d, n); }
    DenseSize(su, d, n);
    if ops != [] {
      assert Replies(su, d, ops)[1..] == Replies(su, Step(su, d, ops[0]), ops[1..]);
      var own', par', dep' := DenseStep(su, d, own, par, dep, n, ops[0]);
      DenseRun(su, Step(su, d, ops[0]), own', par', dep', n, ops[1..]);
    }
  }

  lemma PlainInRange(su: Super, d: Image, n: nat)
    requires Plain(su, d, n)
    ensures n < NINODES
  {
  }
}

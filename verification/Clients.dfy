/** The programs on top: copying files into and out of the file system one byte at a time,
    and the boot loader's kernel load loop. */
module Clients {
  import opened Bytes
  import opened Layout
  import opened Tree
  import opened ReadWrite
  import opened WriteProof
  import opened File
  import opened ReadProof
  import opened Namespace
  import opened Runs
  import opened FileSystem
  import Memory
  import NameTree

  // ----- copying in -----

  /** The loop of `do_migrate` from byte i on: the disk, and whether it ended without panic. */
  function CopyIn(su: Super, d: Image, n: nat, data: seq<byte>, i: nat): (r: (Image, bool))
    requires i <= |data|
    decreases |data| - i
  {
    if i == |data| then (d, true)
    else if i > CAPBYTES then (d, false)
    else
      var w := InodeRw(su, d, n, [data[i]], 1, i, true);
      if w.n != 1 then (w.d, false) else CopyIn(su, w.d, n, data, i + 1)
  }

  /** The loop of `do_retrieve` from offset off on. */
  function CopyOut(su: Super, d: Image, n: nat, off: nat): seq<byte>
    decreases CAPBYTES - off
  {
    if off >= CAPBYTES then []
    else
      var r := InodeRw(su, d, n, [0], 1, off, false);
      if r.n != 1 then [] else [r.buf[0]] + CopyOut(su, d, n, off + 1)
  }

  /** File n holds exactly the given bytes. */
  ghost predicate FileIs(su: Super, d: Image, n: nat, data: seq<byte>)
    requires n < NINODES
  {
    && InodeAt(su, d, n).size == |data| <= CAPBYTES
    && forall k {:trigger FileByte(su, d, n, k)} | 0 <= k < |data| :: FileByte(su, d, n, k) == data[k]
  }

  /** Inode m and all its bytes are the same. */
  ghost predicate Untouched(su: Super, d: Image, e: Image, m: nat)
    requires m < NINODES
  {
    InodeAt(su, e, m) == InodeAt(su, d, m) && SameContent(su, d, e, m)
  }

  /** Names, and every file but n, are the same. */
  ghost predicate OthersKept(su: Super, d: Image, e: Image, n: nat)
  {
    && SpaceOf(su, e) == SpaceOf(su, d)
    && forall m: nat | m < NINODES && m != n :: Untouched(su, d, e, m)
  }

  lemma OthersTwice(su: Super, d: Image, e: Image, f: Image, n: nat)
    requires OthersKept(su, d, e, n) && OthersKept(su, e, f, n)
    ensures OthersKept(su, d, f, n)
  {
    hide Untouched, SpaceOf;
    forall m: nat | m < NINODES && m != n ensures Untouched(su, d, f, m) {
      assert Untouched(su, d, e, m) && Untouched(su, e, f, m);
      UntouchedTwice(su, d, e, f, m);
    }
  }

  lemma UntouchedTwice(su: Super, d: Image, e: Image, f: Image, m: nat)
    requires m < NINODES && Untouched(su, d, e, m) && Untouched(su, e, f, m)
    ensures Untouched(su, d, f, m)
  {
    hide FileByte, InodeAt;
  }

  lemma OthersSelf(su: Super, d: Image, n: nat)
    ensures OthersKept(su, d, d, n)
  {
    hide InodeAt, FileByte, SpaceOf;
  }

  /** Appending one byte. */
  lemma OneByte(su: Super, d: Image, own: Owners, par: NameTree.Places, dep: NameTree.Depths,
                n: nat, data: seq<byte>, i: nat)
    returns (own': Owners)
    requires Inv(su, d, own, par, dep) && Plain(su, d, n) && i < |data| && FileIs(su, d, n, data[..i])
    ensures i + 1 < WORD
    ensures var w := InodeRw(su, d, n, [data[i]], 1, i, true);
      && Inv(su, w.d, own', par, dep) && Plain(su, w.d, n) && 0 <= w.n <= 1
      && (w.n == 1 ==> FileIs(su, w.d, n, data[..i + 1]))
      && (w.n == 0 ==> DiskFull(su, w.d) || i == CAPBYTES)
      && OthersKept(su, d, w.d, n)
  {
    hide Good, InodeAt, FileByte, PlainKept, InodeRw, DiskFull, InodesSane, Tidy, NameTree.WellNamed,
         WrittenMapped, MapEffect, SpaceOf;
    own' := WriteKeepsInv(su, d, own, par, dep, n, [data[i]], i);
    var own2 := WriteRefinesView(su, d, own, n, [data[i]], 1, i);
    var w := InodeRw(su, d, n, [data[i]], 1, i, true);
    assert [data[i]][0] == data[i];
    WriteKeepsSpace(su, d, own, n, [data[i]], i, w, own2);
    if w.n == 1 {
      forall k {:trigger FileByte(su, w.d, n, k)} | 0 <= k < |data[..i + 1]|
        ensures FileByte(su, w.d, n, k) == data[..i + 1][k]
      {
        if k < i {
          assert FileByte(su, d, n, k) == data[..i][k];
        }
      }
    }
  }

  lemma {:induction false} CopyInHolds(su: Super, d: Image, own: Owners, par: NameTree.Places, dep: NameTree.Depths,
                                       n: nat, data: seq<byte>, i: nat)
    requires Inv(su, d, own, par, dep) && Plain(su, d, n) && i <= |data| && FileIs(su, d, n, data[..i])
    ensures var (e, ok) := CopyIn(su, d, n, data, i);
      && Consistent(su, e) && Plain(su, e, n)
      && (ok ==> FileIs(su, e, n, data))
      && (!ok ==> DiskFull(su, e) || |data| > CAPBYTES)
      && OthersKept(su, d, e, n)
    decreases |data| - i
  {
    hide Inv, FileIs, InodeRw, DiskFull, InodeAt, OthersKept;
    OthersSelf(su, d, n);
    assert n < NINODES;
    hide Plain;
    FileIsSize(su, d, n, data[..i]);
    if i == |data| {
      assert data[..i] == data;
    } else {
      var own' := OneByte(su, d, own, par, dep, n, data, i);
      var w := InodeRw(su, d, n, [data[i]], 1, i, true);
      if w.n == 1 {
        CopyInHolds(su, w.d, own', par, dep, n, data, i + 1);
        OthersTwice(su, d, w.d, CopyIn(su, w.d, n, data, i + 1).0, n);
      }
    }
  }

  lemma FileIsSize(su: Super, d: Image, n: nat, data: seq<byte>)
    requires n < NINODES && FileIs(su, d, n, data)
    ensures |data| <= CAPBYTES
  {
  }

  // ----- copying out -----

  lemma OneByteOut(su: Super, d: Image, n: nat, buf: seq<byte>, off: nat)
    requires n < NINODES && su.ninodes == NINODES && off <= CAPBYTES && |buf| == 1
    ensures var r := InodeRw(su, d, n, buf, 1, off, false);
      && r.d == d
      && r.n == (if off < Min(InodeAt(su, d, n).size, CAPBYTES) then 1 else 0)
      && (r.n == 1 ==> off < CAPBYTES && r.buf == [FileByte(su, d, n, off)])
  {
    hide InodeAt, FileByte, InodeRw, RunsOutOfHole;
    SmallReadSafe(su, d, n, off, Min(1, Max(0, InodeAt(su, d, n).size - off)));
    ReadRefinesView(su, d, n, buf, 1, off);
    ReadChangesNothing(su, d, n, buf, 1, off);
    var r := InodeRw(su, d, n, buf, 1, off, false);
    assert r.n == 1 ==> r.buf[0] == FileByte(su, d, n, off + 0);
  }

  lemma {:induction false} CopyOutIs(su: Super, d: Image, n: nat, data: seq<byte>, off: nat)
    requires n < NINODES && su.ninodes == NINODES && FileIs(su, d, n, data) && off <= |data|
    ensures CopyOut(su, d, n, off) == data[off..]
    decreases |data| - off
  {
    hide InodeAt, FileByte, InodeRw;
    if off < CAPBYTES {
      OneByteOut(su, d, n, [0], off);
      if off < |data| {
        CopyOutIs(su, d, n, data, off + 1);
        assert data[off..] == [data[off]] + data[off + 1..];
      }
    }
  }

  /** Copying a file in without a panic and copying it out again gives the same bytes, for every file. */
  lemma MigrateRetrieve(su: Super, d: Image, n: nat, data: seq<byte>)
    requires Consistent(su, d) && Plain(su, d, n) && InodeAt(su, d, n).size == 0
    requires CopyIn(su, d, n, data, 0).1
    ensures CopyOut(su, CopyIn(su, d, n, data, 0).0, n, 0) == data
  {
    hide InodeAt, FileByte, CopyIn, CopyOut;
    var own, par, dep :| Inv(su, d, own, par, dep);
    assert FileIs(su, d, n, data[..0]);
    CopyInHolds(su, d, own, par, dep, n, data, 0);
    var e := CopyIn(su, d, n, data, 0).0;
    InvGood(su, d, own, par, dep);
    CopyOutIs(su, e, n, data, 0);
    assert data[0..] == data;
  }

  /** One `fs_write` of the copy loop, from a one-byte buffer. */
  method PutByte(fs: Fs, inum: nat, c: byte, off: u32) returns (nn: int)
    requires fs.init && fs.su.nblockDat / 8 <= BLOCKSIZE
    modifies fs.disk
    ensures var w := InodeRw(fs.su, old(fs.disk[..]), inum, [c], 1, off, true); nn == w.n && fs.disk[..] == w.d
  {
    hide InodeRw;
    var buf := new byte[1](_ requires true => c);
    assert buf[..] == [c];
    nn := fs.FsWrite(inum, buf, 1, off);
  }

  /** The copy loop of `do_migrate`. `ok` is false where the source panics. */
  method Migrate(fs: Fs, inum: nat, host: seq<byte>) returns (ok: bool)
    requires fs.init && Consistent(fs.su, fs.disk[..]) && Plain(fs.su, fs.disk[..], inum)
    requires InodeAt(fs.su, fs.disk[..], inum).size == 0
    modifies fs.disk
    ensures (fs.disk[..], ok) == CopyIn(fs.su, old(fs.disk[..]), inum, host, 0)
    ensures Consistent(fs.su, fs.disk[..])
    ensures ok ==> FileIs(fs.su, fs.disk[..], inum, host)
    ensures !ok ==> DiskFull(fs.su, fs.disk[..]) || |host| > CAPBYTES
    ensures OthersKept(fs.su, old(fs.disk[..]), fs.disk[..], inum)
  {
    hide InodeAt, FileByte, InodeRw, DiskFull, OthersKept;
    ghost var su, d := fs.su, fs.disk[..];
    ghost var own, par, dep :| Inv(su, d, own, par, dep);
    hide Inv;
    InvGood(su, d, own, par, dep);
    assert FileIs(su, d, inum, host[..0]);
    CopyInHolds(su, d, own, par, dep, inum, host, 0);
    assert inum < NINODES;
    hide FileIs, Plain, Consistent;
    ok := true;
    var off: nat := 0;
    while off < |host|
      invariant off <= |host| && fs.init && fs.su == su
      invariant Inv(su, fs.disk[..], own, par, dep) && Plain(su, fs.disk[..], inum)
      invariant FileIs(su, fs.disk[..], inum, host[..off])
      invariant CopyIn(su, d, inum, host, 0) == CopyIn(su, fs.disk[..], inum, host, off)
    {
      FileIsSize(su, fs.disk[..], inum, host[..off]);
      own := OneByte(su, fs.disk[..], own, par, dep, inum, host, off);
      var nn := PutByte(fs, inum, host[off], off);
      if nn != 1 {
        ok := false;
        return;
      }
      off := off + 1;
    }
  }

  /** The copy loop of `do_retrieve`: the bytes written to the host file. */
  method Retrieve(fs: Fs, inum: nat) returns (out: seq<byte>)
    requires fs.init && fs.su.ninodes == NINODES && fs.su.nblockDat / 8 <= BLOCKSIZE && inum < NINODES
    modifies fs.disk
    ensures fs.disk[..] == old(fs.disk[..])
    ensures |out| == Min(InodeAt(fs.su, fs.disk[..], inum).size, CAPBYTES)
    ensures forall k :: 0 <= k < |out| ==> out[k] == FileByte(fs.su, fs.disk[..], inum, k)
  {
    hide InodeAt, FileByte, InodeRw;
    ghost var d := fs.disk[..];
    ghost var len := Min(InodeAt(fs.su, d, inum).size, CAPBYTES);
    out := [];
    var off: nat := 0;
    while true
      invariant |out| == off <= len && fs.disk[..] == d
      invariant forall k :: 0 <= k < off ==> out[k] == FileByte(fs.su, d, inum, k)
      decreases len - off
    {
      var c := new byte[1];
      OneByteOut(fs.su, d, inum, c[..], off);
      var n := fs.FsRead(inum, c, 1, off);
      if n == 0 {
        break;
      }
      assert c[..] == [FileByte(fs.su, d, inum, off)];
      out := out + [c[0]];
      off := off + 1;
    }
  }

  // ----- the kernel load loop -----

  /** A read of one block at a block boundary. */
  lemma BlockRead(su: Super, d: Image, n: nat, buf: seq<byte>, off: nat)
    requires n < NINODES && su.ninodes == NINODES && off <= CAPBYTES && |buf| == BLOCKSIZE && off % BLOCKSIZE == 0
    ensures var r := InodeRw(su, d, n, buf, BLOCKSIZE, off, false);
      && r.d == d
      && r.n == Min(BLOCKSIZE, Max(0, Min(InodeAt(su, d, n).size, CAPBYTES) - off))
      && forall k | 0 <= k < r.n :: off + k < CAPBYTES && r.buf[k] == FileByte(su, d, n, off + k)
  {
    hide InodeAt, FileByte, InodeRw, RunsOutOfHole;
    SmallReadSafe(su, d, n, off, Min(BLOCKSIZE, Max(0, InodeAt(su, d, n).size - off)));
    ReadRefinesView(su, d, n, buf, BLOCKSIZE, off);
    ReadChangesNothing(su, d, n, buf, BLOCKSIZE, off);
  }

  /** The load loop of `boot`: memory from base on holds the file, and the rest of memory is untouched. */
  method LoadKernel(fs: Fs, inum: nat, mem: array<byte>, base: nat)
    requires fs.init && fs.su.ninodes == NINODES && fs.su.nblockDat / 8 <= BLOCKSIZE && inum < NINODES
    requires mem as object != fs.disk
    requires base + Min(InodeAt(fs.su, fs.disk[..], inum).size, CAPBYTES) <= mem.Length
    modifies fs.disk, mem
    ensures fs.disk[..] == old(fs.disk[..])
    ensures var len := Min(InodeAt(fs.su, fs.disk[..], inum).size, CAPBYTES);
      forall k :: 0 <= k < mem.Length ==>
        mem[k] == if base <= k < base + len then FileByte(fs.su, fs.disk[..], inum, k - base) else old(mem[k])
  {
    hide InodeAt, FileByte, InodeRw;
    ghost var d := fs.disk[..];
    ghost var len := Min(InodeAt(fs.su, d, inum).size, CAPBYTES);
    var p := base;
    var off: nat := 0;
    while true
      invariant off <= len && fs.disk[..] == d && off <= p - base
      invariant off < len ==> off % BLOCKSIZE == 0 && p == base + off
      invariant off % BLOCKSIZE == 0 || off == len
      invariant forall k :: 0 <= k < mem.Length ==>
        mem[k] == if base <= k < base + off then FileByte(fs.su, d, inum, k - base) else old(mem[k])
      decreases len - off
    {
      var buf := new byte[BLOCKSIZE];
      BlockReadEnd(fs.su, d, inum, buf[..], off);
      var n := fs.FsRead(inum, buf, BLOCKSIZE, off);
      assert n >= 0;
      if n == 0 {
        break;
      }
      ghost var got := buf[..];
      ghost var before := mem[..];
      Memory.Memcpy(mem, p, buf, 0, n);
      assert forall k :: 0 <= k < n ==> buf[0..n][k] == got[k];
      off := off + n;
      p := p + BLOCKSIZE;
    }
  }

  /** A read of one block at a block boundary or at the end of the file. */
  lemma BlockReadEnd(su: Super, d: Image, n: nat, buf: seq<byte>, off: nat)
    requires n < NINODES && su.ninodes == NINODES && |buf| == BLOCKSIZE
    requires off <= CAPBYTES && (off % BLOCKSIZE == 0 || off == InodeAt(su, d, n).size)
    ensures var r := InodeRw(su, d, n, buf, BLOCKSIZE, off, false);
      && r.d == d
      && r.n == Min(BLOCKSIZE, Max(0, Min(InodeAt(su, d, n).size, CAPBYTES) - off))
      && forall k | 0 <= k < r.n :: off + k < CAPBYTES && r.buf[k] == FileByte(su, d, n, off + k)
  {
    hide InodeAt, FileByte;
    if off % BLOCKSIZE == 0 {
      hide InodeRw;
      BlockRead(su, d, n, buf, off);
    }
  }
}

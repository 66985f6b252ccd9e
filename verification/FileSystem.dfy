/** The file system as it runs: global state over a disk, changed block by block. */
module FileSystem {
  import opened Bytes
  import opened Layout
  import opened Tree
  import opened ReadWrite
  import opened Memory
  import opened Directory
  import opened DirectoryProof
  import opened Namespace
  import opened Path
  import opened Mknod
  import opened Runs
  import ReadProof

  /** `struct share_arg`: one copy shared by all activations of the recursion.
      `pos` is where the source's `buf` pointer stands in the caller's buffer. */
  class Share {
    var boff: nat
    const sblock: nat
    const eblock: nat
    var off: u32
    const buf: array<byte>
    var pos: nat
    var left: nat
    const w: bool

    /** `ebyte` is where the source's 32-bit sum of offset and size ends up. */
    constructor (off: u32, sz: nat, ebyte: u32, buf: array<byte>, w: bool)
      ensures boff == 0 && this.off == off && pos == 0 && left == sz && this.buf == buf
      ensures sblock == off / BLOCKSIZE && eblock == ebyte / BLOCKSIZE && this.w == w
    {
      boff := 0;
      sblock := off / BLOCKSIZE;
      eblock := ebyte / BLOCKSIZE;
      this.off := off;
      this.buf := buf;
      pos := 0;
      left := sz;
      this.w := w;
    }

    /** The cursor belongs to a request. If the end of the interval wrapped around, the interval starts
        behind everything an inode can address. */
    ghost predicate Of(q: Request)
    {
      sblock == q.Sblock() && w == q.w && (eblock == q.Eblock() || sblock >= CAPACITY)
    }

    /** Move the cursor over n bytes. */
    method Advance(n: nat)
      requires n <= left
      modifies this
      ensures pos == old(pos) + n && left == old(left) - n && off == (old(off) + n) % WORD && boff == old(boff)
    {
      pos := pos + n;
      left := left - n;
      off := (off + n) % WORD;
    }
  }

  class Fs {
    var init: bool
    var su: Super
    const disk: array<Block>

    constructor (disk: array<Block>)
      ensures this.disk == disk && !init
    {
      this.disk := disk;
      init := false;
      su := Super(0, 0, 0, 0, 0, 0, 0, 0, 0, 0, 0);
    }

    // ----- the device -----

    method DiskRead(n: int) returns (b: Block)
      ensures b == ReadB(disk[..], n)
    {
      b := if 0 <= n < disk.Length then disk[n] else ZERO_BLOCK;
    }

    method DiskWrite(n: int, b: Block)
      modifies disk
      ensures disk[..] == WriteB(old(disk[..]), n, b)
    {
      if 0 <= n < disk.Length {
        disk[n] := b;
      }
    }

    // ----- bitmap -----

    method BitmapAlloc() returns (p: u32)
      requires su.nblockDat / 8 <= BLOCKSIZE
      modifies disk
      ensures (disk[..], p) == Layout.BitmapAlloc(su, old(disk[..]))
      ensures 0 < su.sdata && su.sdata + su.nblockDat < WORD ==> TakesLowest(su, old(disk[..]), disk[..], p)
    {
      if 0 < su.sdata && su.sdata + su.nblockDat < WORD {
        AllocTakesLowest(su, disk[..]);
      }
      hide TakesLowest;
      p := 0;
      var b := DiskRead(su.sbitmap);
      var i := 0;
      while i < su.nblockDat / 8
        invariant 0 <= i <= su.nblockDat / 8
        invariant forall j :: 0 <= j < 8 * i ==> BitAt(b, j)
        invariant disk[..] == old(disk[..])
      {
        if b[i] == 0xff {
          FullByte(b[i]);
          assert forall j :: 8 * i <= j < 8 * i + 8 ==> BitAt(b, j);
          i := i + 1;
          continue;
        }
        var off := 0;
        FullByte(b[i]);
        while off < 8 && Bit(b[i], off)
          invariant 0 <= off <= 8
          invariant forall k :: 0 <= k < off ==> Bit(b[i], k)
        {
          off := off + 1;
        }
        assert off != 8;
        var k := off + i * 8;
        assert k / 8 == i && k % 8 == off;
        if k >= su.nblockDat {
          return;
        }
        assert forall j :: 8 * i <= j < k ==> BitAt(b, j);
        FirstClearIs(b, NBits(su), 0, k);
        DiskWrite(su.sbitmap, b[i := OrByte(b[i], off)]);
        return (k + su.sdata) % WORD;
      }
      FirstClearIs(b, NBits(su), 0, NBits(su));
    }

    // ----- inodes -----

    /** `rw_inode` */
    method RwInode(inum: nat, p: Dinode, w: bool) returns (ret: int, q: Dinode)
      modifies disk
      ensures init && inum < su.ninodes ==>
        && ret == 0
        && disk[..] == (if w then Layout.WriteInode(su, old(disk[..]), inum, p) else old(disk[..]))
        && q == if w then p else InodeAt(su, disk[..], inum)
      ensures !(init && inum < su.ninodes) ==> ret == -1 && disk[..] == old(disk[..]) && q == p
    {
      if !init {
        return -1, p;
      }
      if inum >= su.ninodes {
        return -1, p;
      }
      var b := DiskRead(su.sinode + inum / NINODES_PER_BLOCK);
      if w {
        b := PutInode(b, inum % NINODES_PER_BLOCK, p);
        DiskWrite(su.sinode + inum / NINODES_PER_BLOCK, b);
        InodeGetPut(ReadB(old(disk[..]), InodeBlock(su, inum)), inum % NINODES_PER_BLOCK, p, inum % NINODES_PER_BLOCK);
      }
      return 0, GetInode(b, inum % NINODES_PER_BLOCK);
    }

    // ----- reading and writing a pointer tree -----

    /** The state of the recursion as a value. */
    ghost function StateOf(sa: Share): State
      reads this, disk, sa, sa.buf
    {
      State(disk[..], sa.boff, sa.off, sa.pos, sa.left, sa.buf[..])
    }

    ghost predicate Ready(q: Request, sa: Share)
      reads this, disk, sa, sa.buf
    {
      sa.Of(q) && StateOf(sa).InBuffer() && sa.buf as object != disk && su.nblockDat / 8 <= BLOCKSIZE
    }

    /** `recursive_rw`. The pointer it may set comes back as r instead of through its address. */
    method RecursiveRw(p: u32, lvl: nat, sa: Share, ghost q: Request) returns (r: u32, ret: int)
      requires Ready(q, sa) && lvl <= 2
      requires sa.eblock == q.Eblock() || sa.boff + Cov(lvl) <= CAPACITY
      modifies disk, sa, sa.buf
      ensures var o := Rw(su, q, old(StateOf(sa)), p, lvl);
        StateOf(sa) == o.s && r == o.p && (ret == 0 <==> o.ok)
      decreases lvl, 1, 0
    {
      hide Visit, Layout.BitmapAlloc, ReadHole;
      r, ret := p, 0;
      var sblock, eblock := sa.boff, sa.boff + Cov(lvl);
      if !(sblock <= sa.eblock && sa.sblock < eblock) {
        sa.off := (sa.off + (eblock - sblock) * BLOCKSIZE) % WORD;
        sa.boff := eblock;
        return;
      }
      if sa.w {
        if r == 0 {
          r := BitmapAlloc();
          if r == 0 {
            ret := -1;
            return;
          }
          if lvl > 0 {
            DiskWrite(r, ZERO_BLOCK);
          }
        }
      } else if r == 0 {
        FillHole(eblock, sa, q);
        return;
      }
      ret := VisitBlock(r, lvl, sa, q);
    }

    /** The part of `recursive_rw` for a null pointer met while reading. */
    method FillHole(eblock: nat, sa: Share, ghost q: Request)
      requires Ready(q, sa) && sa.boff <= eblock
      modifies sa, sa.buf
      ensures sa.Of(q) && disk[..] == old(disk[..])
      ensures StateOf(sa) == ReadHole(old(StateOf(sa)), eblock)
    {
      var sz := (eblock - sa.boff) * BLOCKSIZE;
      if sa.left < sz {
        sz := sa.left;
      }
      Memset(sa.buf, sa.pos, 0, sz);
      assert seq(sz, _ => 0) == Zeros(sz);
      sa.Advance(sz);
      sa.boff := eblock;
    }

    /** The part of `recursive_rw` for a pointer that is not null. */
    method VisitBlock(p: u32, lvl: nat, sa: Share, ghost q: Request) returns (ret: int)
      requires Ready(q, sa) && lvl <= 2 && sa.eblock == q.Eblock()
      modifies disk, sa, sa.buf
      ensures sa.Of(q)
      ensures var o := Visit(su, q, old(StateOf(sa)), p, lvl);
        StateOf(sa) == o.s && p == o.p && (ret == 0 <==> o.ok)
      decreases lvl, 0, 0
    {
      hide Rw, GetPtr, SetPtr, Transfer;
      ret := 0;
      if lvl > 0 {
        var b := DiskRead(p);
        ghost var b0 := b;
        var i := 0;
        while i < NPTRS_PER_BLOCK
          invariant i <= NPTRS_PER_BLOCK && Ready(q, sa)
          invariant Kids(su, q, old(StateOf(sa)), b0, lvl - 1, 0) == Kids(su, q, StateOf(sa), b, lvl - 1, i)
        {
          var kid, failed := RecursiveRw(GetPtr(b, i), lvl - 1, sa, q);
          b := SetPtr(b, i, kid);
          if failed != 0 {
            if sa.w {
              DiskWrite(p, b);
            }
            return -1;
          }
          i := i + 1;
        }
        DiskWrite(p, b);
        return;
      }
      TransferBlock(p, sa, q);
    }

    /** The part of `recursive_rw` for a data block. */
    method TransferBlock(p: u32, sa: Share, ghost q: Request)
      requires Ready(q, sa)
      modifies disk, sa, sa.buf
      ensures StateOf(sa) == Transfer(q, old(StateOf(sa)), p)
    {
      hide Put, ReadB, WriteB;
      var start := sa.off % BLOCKSIZE;
      var sz := if sa.left < BLOCKSIZE - start then sa.left else BLOCKSIZE - start;
      var blk := DiskRead(p);
      var b := Load(blk);
      if sa.w {
        Memcpy(b, start, sa.buf, sa.pos, sz);
        DiskWrite(p, b[..]);
      } else {
        Memcpy(sa.buf, sa.pos, b, start, sz);
      }
      sa.Advance(sz);
      sa.boff := sa.boff + 1;
    }

    /** `inode_rw`. The source reads the size as unsigned and refuses what is above 0xefffffff: as a
        signed number, -0x10000000 to -1. Every size that is not negative is accepted. */
    method InodeRw(inum: nat, buf: array<byte>, sz: int, off: u32, w: bool) returns (ret: int)
      requires buf as object != disk && su.nblockDat / 8 <= BLOCKSIZE && -0x8000_0000 <= sz < 0x8000_0000
      requires !(-0x1000_0000 <= sz < 0) ==> sz % WORD <= buf.Length
      modifies disk, buf
      ensures !init || -0x1000_0000 <= sz < 0 ==> ret == -1 && disk[..] == old(disk[..]) && buf[..] == old(buf[..])
      ensures init && !(-0x1000_0000 <= sz < 0) ==>
        Result(disk[..], buf[..], ret) == ReadWrite.InodeRw(su, old(disk[..]), inum, old(buf[..]), sz % WORD, off, w)
    {
      hide InodeAt, Layout.WriteInode, Slots, Written;
      var ebyte := (off + sz) % WORD;
      if !init {
        return -1;
      }
      if sz % WORD > 0xefff_ffff {
        return -1;
      }
      var failed, di := RwInode(inum, ZERO_INODE, false);
      if failed < 0 {
        return -1;
      }
      if !w && off >= di.size {
        return 0;
      }
      var n := sz % WORD;
      if !w && ebyte >= di.size {
        ebyte := di.size;
        n := di.size - off;
      }
      var q := Request(off, n, w);
      EndOfInterval(off, sz, di.size, w);
      var sa := new Share(off, n, ebyte, buf, w);
      assert StateOf(sa) == Begin(disk[..], buf[..], q);
      SameSlots(su, disk[..], buf[..], Clip(di, off, sz % WORD, w), q, di.ptrs);
      var ptrs := SlotsLoop(di.ptrs, sa, q);
      var consumed := n - sa.left;
      if w {
        di := di.(ptrs := ptrs, size := if di.size > (off + consumed) % WORD then di.size else (off + consumed) % WORD);
        assert di == Written(InodeAt(su, old(disk[..]), inum), ptrs, (off + consumed) % WORD) by { WrittenIs(); }
        var failed', _ := RwInode(inum, di, true);
        assert failed' == 0;
      }
      ret := consumed;
    }

    /** The loop of `inode_rw` over the pointers of the inode. */
    method SlotsLoop(ptrs0: seq<u32>, sa: Share, ghost q: Request) returns (ptrs: seq<u32>)
      requires Ready(q, sa) && |ptrs0| == NPTRS && sa.boff == 0
      modifies disk, sa, sa.buf
      ensures (StateOf(sa), ptrs) == Slots(su, q, old(StateOf(sa)), ptrs0, 0)
    {
      hide Rw;
      ptrs := ptrs0;
      var i := 0;
      while i < NPTRS
        invariant i <= NPTRS && |ptrs| == NPTRS && Ready(q, sa)
        invariant sa.eblock == q.Eblock() || sa.boff == Start(i)
        invariant Slots(su, q, old(StateOf(sa)), ptrs0, 0) == Slots(su, q, StateOf(sa), ptrs, i)
      {
        assert Start(i) + Cov(Ilevel(i)) == Start(i + 1) <= CAPACITY;
        FarSkip(su, q, StateOf(sa), ptrs[i], Ilevel(i));
        var p, failed := RecursiveRw(ptrs[i], Ilevel(i), sa, q);
        ptrs := ptrs[i := p];
        if failed != 0 {
          return;
        }
        i := i + 1;
      }
    }

    method FsWrite(inum: nat, buf: array<byte>, sz: int, off: u32) returns (ret: int)
      requires buf as object != disk && su.nblockDat / 8 <= BLOCKSIZE && -0x8000_0000 <= sz < 0x8000_0000
      requires !(-0x1000_0000 <= sz < 0) ==> sz % WORD <= buf.Length
      modifies disk, buf
      ensures !init || -0x1000_0000 <= sz < 0 ==> ret == -1 && disk[..] == old(disk[..]) && buf[..] == old(buf[..])
      ensures init && !(-0x1000_0000 <= sz < 0) ==>
        Result(disk[..], buf[..], ret) == ReadWrite.InodeRw(su, old(disk[..]), inum, old(buf[..]), sz % WORD, off, true)
    {
      ret := InodeRw(inum, buf, sz, off, true);
    }

    method FsRead(inum: nat, buf: array<byte>, sz: int, off: u32) returns (ret: int)
      requires buf as object != disk && su.nblockDat / 8 <= BLOCKSIZE && -0x8000_0000 <= sz < 0x8000_0000
      requires !(-0x1000_0000 <= sz < 0) ==> sz % WORD <= buf.Length
      modifies disk, buf
      ensures disk[..] == old(disk[..])
      ensures !init || -0x1000_0000 <= sz < 0 ==> ret == -1 && buf[..] == old(buf[..])
      ensures init && !(-0x1000_0000 <= sz < 0) ==>
        Result(disk[..], buf[..], ret) == ReadWrite.InodeRw(su, disk[..], inum, old(buf[..]), sz % WORD, off, false)
    {
      if !(-0x1000_0000 <= sz < 0) {
        ReadProof.ReadChangesNothing(su, disk[..], inum, buf[..], sz % WORD, off);
      }
      ret := InodeRw(inum, buf, sz, off, false);
    }

    // ----- allocating inodes -----

    /** `alloc_inode` */
    method AllocInode(typ: u16) returns (n: nat)
      requires su.nblockInode == NINODES / NINODES_PER_BLOCK
      modifies disk
      ensures (disk[..], n) == Directory.AllocInode(su, old(disk[..]), typ)
    {
      hide GetInode, PutInode, InodeAt, Layout.WriteInode, Directory.FirstFreeInode;
      if typ > T_DEV {
        return NULLINUM;
      }
      var i := 0;
      while i < su.nblockInode
        invariant i <= su.nblockInode && disk[..] == old(disk[..])
        invariant forall k :: 0 <= k < i * NINODES_PER_BLOCK ==> InodeAt(su, disk[..], k).typ != 0
      {
        var b := DiskRead(i + su.sinode);
        var j := 0;
        while j < NINODES_PER_BLOCK
          invariant j <= NINODES_PER_BLOCK && disk[..] == old(disk[..])
          invariant forall k :: 0 <= k < i * NINODES_PER_BLOCK + j ==> InodeAt(su, disk[..], k).typ != 0
        {
          var k := i * NINODES_PER_BLOCK + j;
          InodeInBlock(su, disk[..], i, j, Directory.NewInode(typ));
          if GetInode(b, j).typ == 0 {
            Directory.FirstFreeIs(su, disk[..], 0, k);
            DiskWrite(i + su.sinode, PutInode(b, j, Directory.NewInode(typ)));
            return k;
          }
          j := j + 1;
        }
        i := i + 1;
      }
      Directory.FirstFreeIs(su, disk[..], 0, NINODES);
      return NULLINUM;
    }

    /** `free_inode` of an inode without blocks. */
    method FreeInode(n: nat) returns (ret: int)
      requires init && n < su.ninodes && InodeAt(su, disk[..], n).ptrs == NoPtrs()
      modifies disk
      ensures ret == 0 && disk[..] == Directory.FreeInode(su, old(disk[..]), n)
    {
      var _, di := RwInode(n, ZERO_INODE, false);
      for i := 0 to NPTRS {
        assert di.ptrs[i] == 0;
      }
      var _, _ := RwInode(n, Dinode(0, di.major, di.minor, di.linkcnt, di.size, di.ptrs), true);
      return 0;
    }

    // ----- directories and paths -----

    /** `dir_lookup`: the inode recorded under a name, and the offset of the record. */
    method DirLookup(inum: nat, name: array<byte>) returns (r: nat, off: nat)
      requires init && inum < NINODES && su.ninodes == NINODES && su.nblockDat / 8 <= BLOCKSIZE
      requires InodeAt(su, disk[..], inum).typ == T_DIR ==> Scannable(su, disk[..], inum)
      requires Terminated(name[..]) && name as object != disk
      modifies disk
      ensures disk[..] == old(disk[..])
      ensures r == Directory.DirLookup(su, disk[..], inum, CStr(name[..]))
      ensures r != NULLINUM ==> off == DIRENT * Scan(su, disk[..], inum, CStr(name[..]), 0)
    {
      hide InodeAt, Record, CStr, ReadWrite.InodeRw, Scan;
      var failed, di := RwInode(inum, ZERO_INODE, false);
      assert failed >= 0;
      off := 0;
      if di.typ != T_DIR {
        return NULLINUM, off;
      }
      ghost var d := disk[..];
      var i := 0;
      while i < di.size / DIRENT
        invariant i <= di.size / DIRENT == Records(su, d, inum) && off == i * DIRENT
        invariant disk[..] == d && name[..] == old(name[..])
        invariant forall j: nat | j < i :: DirentName(Record(su, d, inum, j)) != CStr(name[..])
      {
        var de := new byte[DIRENT];
        RecordRead(su, d, inum, de[..], i);
        var n := FsRead(inum, de, DIRENT, off);
        assert n == DIRENT;
        assert name[0..] == name[..] && de[2..] == Record(su, d, inum, i)[2..];
        var c := Strcmp(name, 0, de, 2);
        if c == 0 {
          ScanIs(su, d, inum, CStr(name[..]), 0, i);
          return Half(de[..], 0), off;
        }
        i := i + 1;
        off := off + DIRENT;
      }
      ScanIs(su, d, inum, CStr(name[..]), 0, i);
      r := NULLINUM;
    }

    /** `fs_lookup` */
    method FsLookup(path: array<byte>) returns (r: nat)
      requires init && Consistent(su, disk[..]) && Terminated(path[..]) && path as object != disk
      requires !SeekPath(su, disk[..], CStr(path[..])).Overrun?
      modifies disk
      ensures disk[..] == old(disk[..])
      ensures Found(r) == SeekPath(su, disk[..], CStr(path[..]))
      ensures r == Directory.FsLookup(su, disk[..], CStr(path[..]))
    {
      hide CStr, Seek, Consistent, Names, Directory.FsLookup;
      ghost var d, s := disk[..], CStr(path[..]);
      LookupOverruns(su, d, s);
      CStrAll(path[..]);
      var l := Strnlen(path, MAXPATH);
      if l > MAXPATH - 1 {
        return NULLINUM;
      }
      if path[0] != SLASH {
        return NULLINUM;
      }
      ConsistentLaid(su, d);
      assert s != [] && s[0] == SLASH;
      var inum: nat := ROOTINUM;
      var p := 1;
      while path[p] != 0
        invariant 1 <= p <= |s| && inum < NINODES
        invariant disk[..] == d && path[..] == old(path[..])
        invariant SeekPath(su, d, s) == Seek(su, d, inum, Names(s[p..]))
        decreases |s| - p
      {
        var next;
        inum, next := LookupStep(path, inum, p);
        if inum == NULLINUM {
          return NULLINUM;
        }
        p := next;
      }
      assert s[p..] == [];
      SeekDone(su, d, inum);
      r := inum;
    }

    /** One turn of the loop of `fs_lookup`: copy a name out of the path and look it up. */
    method LookupStep(path: array<byte>, inum: nat, p0: nat) returns (r: nat, p: nat)
      requires init && Consistent(su, disk[..]) && Terminated(path[..]) && path as object != disk
      requires p0 < |CStr(path[..])| && inum < NINODES
      requires !Seek(su, disk[..], inum, Names(CStr(path[..])[p0..])).Overrun?
      modifies disk
      ensures disk[..] == old(disk[..])
      ensures r < NINODES
      ensures var s := CStr(path[..]);
        && (r == NULLINUM ==> Seek(su, disk[..], inum, Names(s[p0..])) == Found(NULLINUM))
        && (r != NULLINUM ==> p0 < p <= |s|)
        && (r != NULLINUM ==> Seek(su, disk[..], inum, Names(s[p0..])) == Seek(su, disk[..], r, Names(s[p..])))
    {
      hide CStr, Seek, Consistent, Scannable, Terminated, Names, Head, Rest;
      ghost var d, s := disk[..], CStr(path[..]);
      ConsistentLaid(su, d);
      if InodeAt(su, d, inum).typ == T_DIR {
        ConsistentScan(su, d, inum);
      }
      SeekStep(su, d, inum, s[p0..]);
      var name, fits;
      name, p, fits := NextName(path, p0);
      if !fits {
        return NULLINUM, p0;
      }
      var off;
      r, off := DirLookup(inum, name);
    }

    /** `fs_mknod` */
    method FsMknod(path: array<byte>, typ: u16) returns (r: nat)
      requires init && Consistent(su, disk[..]) && Terminated(path[..]) && path as object != disk
      requires GoodPath(CStr(path[..])) && 1 <= typ
      requires ParentFits(su, disk[..], CStr(path[..]))
      modifies disk
      ensures (disk[..], r) == Directory.FsMknod(su, old(disk[..]), CStr(path[..]), typ)
      ensures Consistent(su, disk[..])
    {
      hide CStr, Consistent, GetName, Directory.FsLookup, Directory.DirLookup, InodeAt, MakeNode, Scannable;
      ghost var d := disk[..];
      MknodConsistent(su, d, CStr(path[..]), typ);
      ConsistentLaid(su, d);
      var name := new byte[MAXNAME];
      var parent := new byte[MAXPATH];
      var ok := Getname(path, name, parent);
      if !ok {
        return NULLINUM;
      }
      ghost var dir, x := CStr(parent[..]), CStr(name[..]);
      var n := FsLookup(parent);
      if n == NULLINUM {
        return NULLINUM;
      }
      ConsistentFound(su, d, dir);
      var failed, di := RwInode(n, ZERO_INODE, false);
      assert failed >= 0;
      if di.typ != T_DIR {
        return NULLINUM;
      }
      ConsistentScan(su, d, n);
      var dup, _ := DirLookup(n, name);
      if dup != NULLINUM {
        return NULLINUM;
      }
      NewInodePointerless(su, d, n, x, typ);
      assert Directory.FsMknod(su, d, CStr(path[..]), typ) == MakeNode(su, d, n, x, typ);
      r := Link(n, name, di.size, typ);
    }

    /** The part of `fs_mknod` behind its checks: take an inode and record it in directory n. */
    method Link(n: nat, name: array<byte>, size: u32, typ: u16) returns (r: nat)
      requires init && n < NINODES && su.ninodes == NINODES && su.nblockDat / 8 <= BLOCKSIZE
      requires su.nblockInode == NINODES / NINODES_PER_BLOCK
      requires name.Length == MAXNAME && Terminated(name[..]) && name as object != disk
      requires size == InodeAt(su, disk[..], n).size
      requires var (d1, m) := Directory.AllocInode(su, disk[..], typ);
        m != NULLINUM ==>
          var w := ReadWrite.InodeRw(su, d1, n, EncodeDirent(m, CStr(name[..])), DIRENT, size, true);
          InodeAt(su, w.d, m) == NewInode(typ)
      modifies disk
      ensures (disk[..], r) == MakeNode(su, old(disk[..]), n, CStr(name[..]), typ)
    {
      hide CStr, InodeAt, ReadWrite.InodeRw, Directory.AllocInode, Layout.WriteInode, EncodeHalf;
      var m := AllocInode(typ);
      if m == NULLINUM {
        return NULLINUM;
      }
      var de := NewDirent(m, CStr(name[..]));
      var w := FsWrite(n, de, DIRENT, size);
      if w != DIRENT {
        var _ := FreeInode(m);
        return NULLINUM;
      }
      var _, di := RwInode(m, ZERO_INODE, false);
      var _, _ := RwInode(m, Linked(di), true);
      return m;
    }

    // ----- starting and formatting -----

    /** `fs_init` */
    method Init(start: u32) returns (ret: int)
      modifies this
      ensures (su, ret == 0) == FsInit(disk[..], start)
      ensures ret == 0 <==> HasMagic(ReadB(disk[..], start))
      ensures su == GetSuper(ReadB(disk[..], start))
      ensures init == (ret == 0 || old(init)) && (ret == 0 || ret == -1)
    {
      InitExactly(disk[..], start);
      var b := DiskRead(start);
      su := GetSuper(b);
      if su.magic != FSMAGIC {
        return -1;
      }
      init := true;
      return 0;
    }

    /** `fs_format` */
    method Format(start: u32, n: u32)
      requires start + n < WORD && 57 <= n
      modifies this, disk
      ensures (su, disk[..]) == FsFormat(old(su), old(disk[..]), start, n) && init == old(init)
      ensures Geometry(su, start, n)
    {
      hide PutSuper, Directory.AllocInode;
      var i := 0;
      while i < su.nblockTot
        invariant i <= su.nblockTot && su == old(su) && init == old(init)
        invariant ZeroRange(old(disk[..]), su.start, su.nblockTot, 0) == ZeroRange(disk[..], su.start, su.nblockTot, i)
      {
        DiskWrite(su.start + i, ZERO_BLOCK);
        i := i + 1;
      }
      var made := FormatSuper(start, n);
      DiskWrite(start, PutSuper(ZERO_BLOCK, made));
      su := made;
      var _ := AllocInode(T_DIR);
      var _ := AllocInode(T_DIR);
    }

    /** What `mkfs` does first: accept a file system, or make one. */
    method Open(start: u32, n: u32)
      requires Fits(disk[..], start, n)
      modifies this, disk
      ensures init
      ensures HasMagic(ReadB(old(disk[..]), start)) ==>
        disk[..] == old(disk[..]) && su == GetSuper(ReadB(disk[..], start))
      ensures !HasMagic(ReadB(old(disk[..]), start)) ==>
        var before := GetSuper(ReadB(old(disk[..]), start));
        && Geometry(su, start, n)
        && (EmptyFs(su, disk[..]) <==>
             Blank(su, ZeroRange(old(disk[..]), before.start, before.nblockTot, 0)))
      ensures (forall p: nat | start <= p < start + n :: old(disk[..])[p] == ZERO_BLOCK) ==>
        EmptyFs(su, disk[..]) && Geometry(su, start, n)
      ensures EmptyFs(su, disk[..]) ==> Consistent(su, disk[..])
    {
      hide PutSuper, GetSuper, Reserve, EmptyFs, Blank, ZeroRange, HasMagic, FsInit;
      ghost var d0 := disk[..];
      if forall p: nat | start <= p < start + n :: d0[p] == ZERO_BLOCK {
        ZeroOpens(GetSuper(ReadB(d0, start)), d0, start, n);
      }
      var ret := Init(start);
      if ret < 0 {
        ghost var before, d := su, disk[..];
        Format(start, n);
        FormatExactly(before, d, start, n);
        FormatGeometry(before, d, start, n);
        ret := Init(start);
        assert ret >= 0;
      }
      if EmptyFs(su, disk[..]) {
        EmptyConsistent(su, disk[..]);
      }
    }
  }

  /** A zero partition is not accepted, and is blank. */
  lemma ZeroOpens(before: Super, d: Image, start: u32, n: u32)
    requires Fits(d, start, n) && forall p: nat | start <= p < start + n :: d[p] == ZERO_BLOCK
    ensures !HasMagic(ReadB(d, start))
    ensures Blank(FormatSuper(start, n), ZeroRange(d, before.start, before.nblockTot, 0))
  {
    hide ZeroRange, Blank;
    ClearedBlank(before, d, start, n);
  }

  /** A request that starts behind everything an inode can address skips every pointer. */
  lemma FarSkip(su: Super, q: Request, s: State, p: u32, lvl: nat)
    requires s.InBuffer() && lvl <= 2
    ensures q.Sblock() >= CAPACITY && s.boff + Cov(lvl) <= CAPACITY ==>
      Rw(su, q, s, p, lvl) == Outcome(Skip(s, s.boff + Cov(lvl)), p, true)
  {
  }

  lemma {:induction false} FarSlots(su: Super, q: Request, s: State, ptrs: seq<u32>, i: nat)
    requires s.InBuffer() && |ptrs| == NPTRS && i <= NPTRS && q.Sblock() >= CAPACITY && s.boff == Start(i)
    ensures var (t, ptrs') := Slots(su, q, s, ptrs, i);
      t.d == s.d && t.buf == s.buf && t.left == s.left && ptrs' == ptrs
    decreases NPTRS - i
  {
    hide Rw;
    if i < NPTRS {
      assert Start(i) + Cov(Ilevel(i)) == Start(i + 1) <= CAPACITY;
      FarSkip(su, q, s, ptrs[i], Ilevel(i));
      assert ptrs[i := ptrs[i]] == ptrs;
      FarSlots(su, q, Skip(s, s.boff + Cov(Ilevel(i))), ptrs, i + 1);
    }
  }

  /** Two requests from the same offset have the same effect if they are the same, or start behind
      everything an inode can address. */
  lemma SameSlots(su: Super, d: Image, buf: seq<byte>, q: Request, q': Request, ptrs: seq<u32>)
    requires |ptrs| == NPTRS && q.sz <= |buf| && q'.sz <= |buf|
    requires q == q' || (q.Sblock() >= CAPACITY && q'.Sblock() >= CAPACITY)
    ensures var (t, p) := Slots(su, q, Begin(d, buf, q), ptrs, 0);
            var (t', p') := Slots(su, q', Begin(d, buf, q'), ptrs, 0);
      t.d == t'.d && t.buf == t'.buf && q.sz - t.left == q'.sz - t'.left && p == p'
  {
    hide Slots;
    if q != q' {
      FarSlots(su, q, Begin(d, buf, q), ptrs, 0);
      FarSlots(su, q', Begin(d, buf, q'), ptrs, 0);
    }
  }

  /** Where the source's wrapped end of the interval, clipped to the file for a read, lies. */
  lemma EndOfInterval(off: u32, sz: int, size: u32, w: bool)
    requires -0x8000_0000 <= sz < 0x8000_0000 && !(-0x1000_0000 <= sz < 0) && (w || off < size)
    ensures var n := sz % WORD; var ebyte := (off + sz) % WORD;
      (off + n < WORD ==> ebyte == off + n) && (off + n >= WORD ==> off / BLOCKSIZE >= CAPACITY)
  {
  }

  lemma WrittenIs()
    ensures forall di: Dinode, ptrs: seq<u32>, end: u32 | |ptrs| == NPTRS ::
      Written(di, ptrs, end) == di.(ptrs := ptrs, size := Max(di.size, end))
  {
  }

  lemma {:induction false} FirstClearIs(b: Block, n: nat, from: nat, k: nat)
    requires from <= k <= n <= 8 * BLOCKSIZE && (k < n ==> !BitAt(b, k))
    requires forall j :: from <= j < k ==> BitAt(b, j)
    ensures FirstClear(b, n, from) == k
    decreases n - from
  {
    if from < k {
      FirstClearIs(b, n, from + 1, k);
    }
  }

  lemma InodeInBlock(su: Super, d: Image, i: nat, j: nat, di: Dinode)
    requires j < NINODES_PER_BLOCK
    ensures GetInode(ReadB(d, i + su.sinode), j) == InodeAt(su, d, i * NINODES_PER_BLOCK + j)
    ensures Layout.WriteInode(su, d, i * NINODES_PER_BLOCK + j, di) ==
      WriteB(d, i + su.sinode, PutInode(ReadB(d, i + su.sinode), j, di))
  {
    hide GetInode, PutInode;
    assert (i * NINODES_PER_BLOCK + j) / NINODES_PER_BLOCK == i && (i * NINODES_PER_BLOCK + j) % NINODES_PER_BLOCK == j;
  }
}

/** The on-disk layout: superblock, inode blocks, bitmap block and data blocks,
    with the encodings of the superblock and of the inodes. */
module Layout {
  import opened Bytes

  const NBLOCKS_LOG: nat := 30
  const NINODES: nat := 200
  const NINODES_PER_BLOCK: nat := 8
  const FSMAGIC: u32 := 0xdeadbeef
  const NULLINUM: nat := 0
  const ROOTINUM: nat := 1
  const T_DIR: u16 := 2
  const T_DEV: u16 := 3
  const NPTRS: nat := 13

  /** A whole disk. Block numbers index it. */
  type Image = seq<Block>

  /** Reading outside the disk gives zeros and writing outside it does nothing. */
  function ReadB(d: Image, n: int): Block
  {
    if 0 <= n < |d| then d[n] else ZERO_BLOCK
  }

  function WriteB(d: Image, n: int, b: Block): (r: Image)
    ensures |r| == |d|
  {
    if 0 <= n < |d| then d[n := b] else d
  }

  // ----- superblock -----

  datatype Super = Super(
    start: u32, ninodes: u32, nblockTot: u32, nblockLog: u32, nblockDat: u32, nblockInode: u32,
    slog: u32, sinode: u32, sbitmap: u32, sdata: u32, magic: u32)

  function SuperWords(su: Super): (ws: seq<u32>)
    ensures |ws| == 11
  {
    [su.start, su.ninodes, su.nblockTot, su.nblockLog, su.nblockDat, su.nblockInode,
     su.slog, su.sinode, su.sbitmap, su.sdata, su.magic]
  }

  function PutSuper(b: Block, su: Super): Block
  {
    Put(b, 0, EncodeWords(SuperWords(su)))
  }

  function GetSuper(b: Block): Super
  {
    Super(Word(b, 0), Word(b, 4), Word(b, 8), Word(b, 12), Word(b, 16), Word(b, 20),
          Word(b, 24), Word(b, 28), Word(b, 32), Word(b, 36), Word(b, 40))
  }

  lemma PutWordsAt(b: Block, ws: seq<u32>, i: nat)
    requires 4 * |ws| <= BLOCKSIZE && i < |ws|
    ensures Word(Put(b, 0, EncodeWords(ws)), 4 * i) == ws[i]
  {
    var e := EncodeWords(ws);
    WordsRoundTrip(ws, i);
    PutWordField(b, 0, e, 4 * i, 4 * i);
  }

  lemma SuperRoundTrip(b: Block, su: Super)
    ensures GetSuper(PutSuper(b, su)) == su
  {
    var ws := SuperWords(su);
    forall i | 0 <= i < 11 ensures Word(PutSuper(b, su), 4 * i) == ws[i] {
      PutWordsAt(b, ws, i);
    }
    var r := PutSuper(b, su);
    assert Word(r, 4 * 0) == ws[0] && Word(r, 4 * 1) == ws[1] && Word(r, 4 * 2) == ws[2] && Word(r, 4 * 3) == ws[3];
    assert Word(r, 4 * 4) == ws[4] && Word(r, 4 * 5) == ws[5] && Word(r, 4 * 6) == ws[6] && Word(r, 4 * 7) == ws[7];
    assert Word(r, 4 * 8) == ws[8] && Word(r, 4 * 9) == ws[9] && Word(r, 4 * 10) == ws[10];
  }

  /** The superblock's eleven fields, four bytes each, in the order of the header. */
  lemma SuperBytes(b: Block)
    ensures var su := GetSuper(b);
      && LittleWord(b, 0, su.start) && LittleWord(b, 4, su.ninodes) && LittleWord(b, 8, su.nblockTot)
      && LittleWord(b, 12, su.nblockLog) && LittleWord(b, 16, su.nblockDat) && LittleWord(b, 20, su.nblockInode)
      && LittleWord(b, 24, su.slog) && LittleWord(b, 28, su.sinode) && LittleWord(b, 32, su.sbitmap)
      && LittleWord(b, 36, su.sdata) && LittleWord(b, 40, su.magic)
  {
    hide Word, LittleWord;
    WordBytes(b, 0);
    WordBytes(b, 4);
    WordBytes(b, 8);
    WordBytes(b, 12);
    WordBytes(b, 16);
    WordBytes(b, 20);
    WordBytes(b, 24);
    WordBytes(b, 28);
    WordBytes(b, 32);
    WordBytes(b, 36);
    WordBytes(b, 40);
  }

  /** The magic number on the disk. */
  lemma MagicBytes(b: Block)
    ensures GetSuper(b).magic == FSMAGIC <==> b[40] == 0xef && b[41] == 0xbe && b[42] == 0xad && b[43] == 0xde
  {
    hide GetSuper;
    SuperBytes(b);
  }

  /** The geometry that `fs_format` lays down on a partition of a disk with n blocks. */
  ghost predicate WellLaid(su: Super, n: nat)
  {
    && su.ninodes == NINODES
    && su.nblockInode == NINODES / NINODES_PER_BLOCK
    && su.slog == su.start + 1
    && su.sinode == su.slog + NBLOCKS_LOG
    && su.sbitmap == su.sinode + su.nblockInode
    && su.sdata == su.sbitmap + 1
    && su.sdata + su.nblockDat == su.start + su.nblockTot
    && su.start + su.nblockTot <= n
    && su.start + su.nblockTot < WORD
    && su.nblockDat / 8 <= BLOCKSIZE
    && su.magic == FSMAGIC
  }

  // ----- inodes -----

  datatype DinodeFields = Dinode(
    typ: u16, major: u16, minor: u16, linkcnt: u16, size: u32, ptrs: seq<u32>)

  type Dinode = d: DinodeFields | |d.ptrs| == NPTRS
    witness Dinode(0, 0, 0, 0, 0, NoPtrs())

  /** memset(p, 0, sizeof *p) */
  const ZERO_INODE: Dinode := Dinode(0, 0, 0, 0, 0, NoPtrs())

  function NoPtrs(): (ps: seq<u32>)
    ensures |ps| == NPTRS
  {
    seq(NPTRS, _ => 0)
  }

  function EncodeInode(di: Dinode): (s: seq<byte>)
    ensures |s| == 64
  {
    EncodeHalf(di.typ) + EncodeHalf(di.major) + EncodeHalf(di.minor) + EncodeHalf(di.linkcnt)
    + EncodeWord(di.size) + EncodeWords(di.ptrs)
  }

  function DecodeInode(s: seq<byte>): Dinode
    requires |s| == 64
  {
    Dinode(Half(s, 0), Half(s, 2), Half(s, 4), Half(s, 6), Word(s, 8),
           DecodePtrs(s))
  }

  function DecodePtrs(s: seq<byte>): (ps: seq<u32>)
    requires |s| == 64
    ensures |ps| == NPTRS
    ensures forall i :: 0 <= i < NPTRS ==> ps[i] == Word(s, 12 + 4 * i)
  {
    seq(NPTRS, i requires 0 <= i < NPTRS => Word(s, 12 + 4 * i))
  }

  lemma InodeRoundTrip(di: Dinode)
    ensures DecodeInode(EncodeInode(di)) == di
  {
    var s := EncodeInode(di);
    HalfCopy(s, 0, EncodeHalf(di.typ), 0);
    HalfCopy(s, 2, EncodeHalf(di.major), 0);
    HalfCopy(s, 4, EncodeHalf(di.minor), 0);
    HalfCopy(s, 6, EncodeHalf(di.linkcnt), 0);
    WordCopy(s, 8, EncodeWord(di.size), 0);
    InodePtrsRoundTrip(di);
  }

  lemma InodePtrsRoundTrip(di: Dinode)
    ensures DecodePtrs(EncodeInode(di)) == di.ptrs
  {
    var s, e := EncodeInode(di), EncodeWords(di.ptrs);
    assert s[12..] == e;
    forall i | 0 <= i < NPTRS ensures Word(s, 12 + 4 * i) == di.ptrs[i] {
      SliceOfSlice(s, 12, 52, 4 * i, 4 * i + 4);
      WordCopy(s, 12 + 4 * i, e, 4 * i);
      WordsRoundTrip(di.ptrs, i);
    }
  }

  function GetInode(b: Block, j: nat): Dinode
    requires j < NINODES_PER_BLOCK
  {
    DecodeInode(b[64 * j..64 * j + 64])
  }

  function PutInode(b: Block, j: nat, di: Dinode): Block
    requires j < NINODES_PER_BLOCK
  {
    Put(b, 64 * j, EncodeInode(di))
  }

  lemma InodeGetPut(b: Block, j: nat, di: Dinode, k: nat)
    requires j < NINODES_PER_BLOCK && k < NINODES_PER_BLOCK
    ensures GetInode(PutInode(b, j, di), k) == if j == k then di else GetInode(b, k)
  {
    PutGet(b, 64 * j, EncodeInode(di), 64 * k, 64);
    InodeRoundTrip(di);
  }

  lemma DecodeZero(s: seq<byte>)
    requires |s| == 64 && forall k :: 0 <= k < 64 ==> s[k] == 0
    ensures DecodeInode(s) == ZERO_INODE
  {
    ZeroField(s, 0);
    ZeroField(s, 2);
    ZeroField(s, 4);
    ZeroField(s, 6);
    ZeroField(s, 8);
    forall i | 0 <= i < NPTRS ensures Word(s, 12 + 4 * i) == 0 { ZeroField(s, 12 + 4 * i); }
  }

  lemma InodeZero(j: nat)
    requires j < NINODES_PER_BLOCK
    ensures GetInode(ZERO_BLOCK, j) == ZERO_INODE
  {
    DecodeZero(ZERO_BLOCK[64 * j..64 * j + 64]);
  }

  lemma ZeroField(s: seq<byte>, o: nat)
    requires o + 4 <= |s| && forall k :: 0 <= k < |s| ==> s[k] == 0
    ensures Half(s, o) == 0 && Word(s, o) == 0
  {
    FromZeros(2);
    FromZeros(4);
    assert s[o..o + 2] == Zeros(2) && s[o..o + 4] == Zeros(4);
  }

  /** Inode n of the disk, as `rw_inode` reads it. */
  function InodeAt(su: Super, d: Image, n: nat): Dinode
  {
    GetInode(ReadB(d, su.sinode + n / NINODES_PER_BLOCK), n % NINODES_PER_BLOCK)
  }

  function WriteInode(su: Super, d: Image, n: nat, di: Dinode): (r: Image)
    ensures |r| == |d|
  {
    var ib := su.sinode + n / NINODES_PER_BLOCK;
    WriteB(d, ib, PutInode(ReadB(d, ib), n % NINODES_PER_BLOCK, di))
  }

  lemma InodeReadWrite(su: Super, d: Image, n: nat, di: Dinode, m: nat)
    requires su.sinode + n / NINODES_PER_BLOCK < |d|
    ensures InodeAt(su, WriteInode(su, d, n, di), m) == if m == n then di else InodeAt(su, d, m)
  {
    if m / NINODES_PER_BLOCK == n / NINODES_PER_BLOCK {
      InodeGetPut(ReadB(d, su.sinode + n / NINODES_PER_BLOCK), n % NINODES_PER_BLOCK, di, m % NINODES_PER_BLOCK);
    }
  }

  // ----- bitmap -----

  /** The number of bits `bitmap_alloc` scans: nblock_dat / 8 bytes, of the one bitmap block. */
  function NBits(su: Super): (n: nat)
    ensures n <= su.nblockDat && n <= 8 * BLOCKSIZE
  {
    8 * Min(su.nblockDat / 8, BLOCKSIZE)
  }

  predicate Used(su: Super, d: Image, k: nat)
    requires k < 8 * BLOCKSIZE
  {
    BitAt(ReadB(d, su.sbitmap), k)
  }

  /** The first clear bit at or after k and below n, or n. */
  function FirstClear(b: Block, n: nat, k: nat): (r: nat)
    requires k <= n <= 8 * BLOCKSIZE
    ensures k <= r <= n
    ensures r < n ==> !BitAt(b, r)
    ensures forall j :: k <= j < r ==> BitAt(b, j)
    decreases n - k
  {
    if k == n || !BitAt(b, k) then k else FirstClear(b, n, k + 1)
  }

  /** `bitmap_alloc`: the disk afterwards and the block number, 0 when no bit is clear. */
  function BitmapAlloc(su: Super, d: Image): (r: (Image, u32))
    ensures |r.0| == |d|
  {
    var b := ReadB(d, su.sbitmap);
    var k := FirstClear(b, NBits(su), 0);
    if k == NBits(su) then (d, 0)
    else (WriteB(d, su.sbitmap, SetBitAt(b, k)), (k + su.sdata) % WORD)
  }

  /** No allocatable block is left: every bit of the first nblock_dat / 8 bytes of the bitmap is set. */
  ghost predicate DiskFull(su: Super, d: Image)
  {
    forall k: nat | k / 8 < su.nblockDat / 8 && k / 8 < 512 :: BitSet(ReadB(d, su.sbitmap), k)
  }

  /** The lowest clear bit of the first nblock_dat / 8 bytes of the bitmap was set, nothing else changed,
      and p is its block; or there is none, nothing changed, and p is 0. */
  ghost predicate TakesLowest(su: Super, d: Image, e: Image, p: int)
  {
    if DiskFull(su, d) then p == 0 && e == d
    else
      var b, k := ReadB(d, su.sbitmap), p - su.sdata;
      && 0 <= k && k / 8 < su.nblockDat / 8 && k / 8 < 512
      && !BitSet(b, k) && (forall j: nat | j < k :: BitSet(b, j))
      && |e| == |d| && (forall q: nat | q != su.sbitmap :: ReadB(e, q) == ReadB(d, q))
      && (su.sbitmap < |d| ==> BitAdded(b, ReadB(e, su.sbitmap), k))
  }

  ghost predicate BitAdded(b: Block, b': Block, k: nat)
  {
    forall j: nat | j / 8 < 512 :: BitSet(b', j) <==> j == k || BitSet(b, j)
  }

  lemma SetBitAdds(b: Block, k: nat)
    requires k < 8 * BLOCKSIZE
    ensures BitAdded(b, SetBitAt(b, k), k)
  {
    hide BitAt, SetBitAt, BitSet;
    forall j: nat | j / 8 < 512 ensures BitSet(SetBitAt(b, k), j) <==> j == k || BitSet(b, j) {
      BitGetSet(b, k, j);
      BitSetIs(b, j);
      BitSetIs(SetBitAt(b, k), j);
    }
  }

  /** The bits that `bitmap_alloc` scans are those of nblock_dat / 8 bytes. */
  lemma ScannedBits(su: Super, k: nat)
    requires su.nblockDat / 8 <= 512
    ensures k < NBits(su) <==> k / 8 < su.nblockDat / 8
  {
  }

  lemma UsedIs(su: Super, d: Image, k: nat)
    requires k / 8 < 512
    ensures Used(su, d, k) <==> BitSet(ReadB(d, su.sbitmap), k)
  {
    BitSetIs(ReadB(d, su.sbitmap), k);
  }

  lemma FullUsed(su: Super, d: Image)
    requires su.nblockDat / 8 <= 512
    ensures DiskFull(su, d) <==> forall k: nat | k < NBits(su) :: Used(su, d, k)
  {
    hide Used, BitSet, NBits, ReadB;
    if DiskFull(su, d) {
      forall k: nat | k < NBits(su) ensures Used(su, d, k) {
        ScannedBits(su, k);
        UsedIs(su, d, k);
      }
    }
    if forall k: nat | k < NBits(su) :: Used(su, d, k) {
      forall k: nat | k / 8 < su.nblockDat / 8 && k / 8 < 512 ensures BitSet(ReadB(d, su.sbitmap), k) {
        ScannedBits(su, k);
        UsedIs(su, d, k);
      }
    }
  }

  lemma FirstClearTaken(su: Super, d: Image, k: nat)
    requires su.nblockDat / 8 <= 512 && k < NBits(su) && !Used(su, d, k)
    requires forall j: nat | j < k :: Used(su, d, j)
    ensures TakesLowest(su, d, WriteB(d, su.sbitmap, SetBitAt(ReadB(d, su.sbitmap), k)), su.sdata + k)
  {
    var b := ReadB(d, su.sbitmap);
    hide Used, NBits, BitSet, SetBitAt, BitAdded;
    ScannedBits(su, k);
    UsedIs(su, d, k);
    SetBitAdds(b, k);
    forall j: nat | j < k ensures BitSet(b, j) {
      UsedIs(su, d, j);
    }
    assert !DiskFull(su, d);
  }

  /** `bitmap_alloc` takes the lowest clear bit, and gives up only if there is none. */
  lemma AllocTakesLowest(su: Super, d: Image)
    requires su.nblockDat / 8 <= 512 && 0 < su.sdata && su.sdata + su.nblockDat < WORD
    ensures var (e, p) := BitmapAlloc(su, d); TakesLowest(su, d, e, p)
  {
    hide BitAt, SetBitAt, TakesLowest, DiskFull;
    var k := FirstClear(ReadB(d, su.sbitmap), NBits(su), 0);
    assert forall j: nat | j < k :: Used(su, d, j);
    if k < NBits(su) {
      FirstClearTaken(su, d, k);
    } else {
      FullUsed(su, d);
      NoneTaken(su, d);
    }
  }

  lemma NoneTaken(su: Super, d: Image)
    requires DiskFull(su, d)
    ensures TakesLowest(su, d, d, 0)
  {
    hide DiskFull;
  }
}

/** Where everything is on the disk, byte by byte, with the numbers of the header written out. */
module OnDisk {
  import opened Bytes
  import opened Layout
  import opened Tree
  import opened File
  import opened Path
  import opened Directory

  /** Inode n is the 64 bytes at 64 * (n % 8) of block n / 8 of the inode blocks: four 16-bit fields,
      the size, and 13 pointers. */
  lemma InodeBytes(su: Super, d: Image, n: nat, i: nat)
    requires i < 13
    ensures var di, b, o := InodeAt(su, d, n), ReadB(d, su.sinode + n / 8), 64 * (n % 8);
      && LittleHalf(b, o, di.typ) && LittleHalf(b, o + 2, di.major) && LittleHalf(b, o + 4, di.minor)
      && LittleHalf(b, o + 6, di.linkcnt) && LittleWord(b, o + 8, di.size) && LittleWord(b, o + 12 + 4 * i, di.ptrs[i])
  {
    var b, o := ReadB(d, su.sinode + n / 8), 64 * (n % 8);
    var s := b[o..o + 64];
    hide Half, Word, ReadB;
    HalfBytes(s, 0);
    HalfBytes(s, 2);
    HalfBytes(s, 4);
    HalfBytes(s, 6);
    WordBytes(s, 8);
    WordBytes(s, 12 + 4 * i);
  }

  /** The root directory of an empty file system: inode 1, of type 2, 64 bytes into the inode blocks. */
  lemma RootBytes(su: Super, d: Image)
    requires InodeAt(su, d, 1) == NewInode(T_DIR)
    ensures ReadB(d, su.sinode)[64] == 2 && ReadB(d, su.sinode)[65] == 0
  {
    hide InodeAt, ReadB;
    InodeBytes(su, d, 1, 0);
  }

  /** A directory record: two bytes of inode number, then the name up to its first zero. */
  lemma DirentBytes(s: seq<byte>)
    requires |s| == 16
    ensures LittleHalf(s, 0, DirentInum(s))
    ensures |DirentName(s)| <= 14 && s[2..2 + |DirentName(s)|] == DirentName(s) && CString(DirentName(s))
    ensures |DirentName(s)| < 14 ==> s[2 + |DirentName(s)|] == 0
  {
    HalfBytes(s, 0);
    CStrBytes(s[2..]);
  }

  lemma {:induction false} CStrBytes(s: seq<byte>)
    ensures s[..|CStr(s)|] == CStr(s) && (|CStr(s)| < |s| ==> s[|CStr(s)|] == 0)
  {
    if s != [] && s[0] != 0 {
      CStrBytes(s[1..]);
      assert s[..|CStr(s)|] == [s[0]] + s[1..][..|CStr(s[1..])|];
    }
  }

  /** The block a pointer leads to; null leads to zeros. */
  function Follow(d: Image, p: u32): Block
  {
    if p == 0 then ZERO_BLOCK else ReadB(d, p)
  }

  /** The block that entry i of the block under p leads to. */
  function Entry(d: Image, p: u32, i: nat): u32
    requires i < 128
  {
    if p == 0 then 0 else GetPtr(ReadB(d, p), i)
  }

  /** Byte k of file n: through one of 10 direct pointers, through one of 2 blocks of 128 pointers, or
      through a block of 128 such blocks. That makes 16650 blocks of 512 bytes. */
  lemma FileBytes(su: Super, d: Image, n: nat, k: nat)
    requires n < 200 && k < 16650 * 512
    ensures var fb, ptrs := k / 512, InodeAt(su, d, n).ptrs;
      FileByte(su, d, n, k) ==
        (if fb < 10 then Follow(d, ptrs[fb])
         else if fb < 138 then Follow(d, Entry(d, ptrs[10], fb - 10))
         else if fb < 266 then Follow(d, Entry(d, ptrs[11], fb - 138))
         else Follow(d, Entry(d, Entry(d, ptrs[12], (fb - 266) / 128), (fb - 266) % 128)))[k % 512]
  {
    hide InodeAt, GetPtr, ReadB;
    LeafPointer(su, d, n, k / 512);
  }

  lemma LeafPointer(su: Super, d: Image, n: nat, fb: nat)
    requires n < 200 && fb < 16650
    ensures var ptrs := InodeAt(su, d, n).ptrs;
      NodeAt(su, d, LeafAddr(n, fb)) ==
        if fb < 10 then ptrs[fb]
        else if fb < 138 then Entry(d, ptrs[10], fb - 10)
        else if fb < 266 then Entry(d, ptrs[11], fb - 138)
        else Entry(d, Entry(d, ptrs[12], (fb - 266) / 128), (fb - 266) % 128)
  {
    hide InodeAt, GetPtr, ReadB;
    var ptrs := InodeAt(su, d, n).ptrs;
    if fb >= 266 {
      var i := (fb - 266) / 128;
      assert NodeAt(su, d, Root(n, 12)) == ptrs[12];
      assert NodeAt(su, d, Kid(Root(n, 12), i)) == Entry(d, ptrs[12], i);
    } else if fb >= 10 {
      var slot := if fb < 138 then 10 else 11;
      assert NodeAt(su, d, Root(n, slot)) == ptrs[slot];
    }
  }
}

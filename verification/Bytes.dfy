/** Machine integers, little-endian fields and 512-byte blocks.
    A block is the source's `union block`: one run of bytes that other
    modules read and write as 16-bit or 32-bit fields at an offset. */
module Bytes {

  type byte = x: int | 0 <= x < 0x100
  type u16 = x: int | 0 <= x < 0x1_0000
  type u32 = x: int | 0 <= x < 0x1_0000_0000

  const WORD: nat := 0x1_0000_0000
  const BLOCKSIZE: nat := 512

  function Zeros(n: nat): (s: seq<byte>)
    ensures |s| == n
  {
    seq(n, _ => 0)
  }

  type Block = b: seq<byte> | |b| == BLOCKSIZE witness Zeros(BLOCKSIZE)

  const ZERO_BLOCK: Block := Zeros(BLOCKSIZE)

  function Min(x: int, y: int): int { if x < y then x else y }

  function Max(x: int, y: int): int { if x > y then x else y }

  // ----- fields of a byte run -----

  /** The value of a little-endian run of bytes. */
  function FromBytes(s: seq<byte>): (x: nat)
    ensures x < Pow256(|s|)
  {
    if s == [] then 0 else s[0] + 0x100 * FromBytes(s[1..])
  }

  /** The low n bytes of x, least significant first. */
  function ToBytes(x: nat, n: nat): (s: seq<byte>)
    ensures |s| == n
  {
    if n == 0 then [] else [x % 0x100] + ToBytes(x / 0x100, n - 1)
  }

  function Pow256(n: nat): nat
  {
    if n == 0 then 1 else 0x100 * Pow256(n - 1)
  }

  lemma PowWord()
    ensures Pow256(2) == 0x1_0000 && Pow256(4) == 0x1_0000_0000
  {
    assert Pow256(3) == 0x100_0000;
  }

  lemma {:induction false} FromToBytes(x: nat, n: nat)
    requires x < Pow256(n)
    ensures FromBytes(ToBytes(x, n)) == x
  {
    if n > 0 {
      FromToBytes(x / 0x100, n - 1);
      assert ToBytes(x, n)[1..] == ToBytes(x / 0x100, n - 1);
    }
  }

  lemma {:induction false} ToFromBytes(s: seq<byte>)
    ensures ToBytes(FromBytes(s), |s|) == s
  {
    if s != [] {
      ToFromBytes(s[1..]);
      assert FromBytes(s) % 0x100 == s[0] && FromBytes(s) / 0x100 == FromBytes(s[1..]);
    }
  }

  lemma {:induction false} FromZeros(n: nat)
    ensures FromBytes(Zeros(n)) == 0
  {
    if n > 0 {
      assert Zeros(n)[1..] == Zeros(n - 1);
      FromZeros(n - 1);
    }
  }

  function Half(s: seq<byte>, o: nat): u16
    requires o + 2 <= |s|
  {
    PowWord();
    FromBytes(s[o..o + 2])
  }

  function Word(s: seq<byte>, o: nat): u32
    requires o + 4 <= |s|
  {
    PowWord();
    FromBytes(s[o..o + 4])
  }

  function EncodeHalf(x: u16): (s: seq<byte>)
    ensures |s| == 2 && Half(s, 0) == x
  {
    PowWord();
    FromToBytes(x, 2);
    assert ToBytes(x, 2)[0..2] == ToBytes(x, 2);
    ToBytes(x, 2)
  }

  function EncodeWord(x: u32): (s: seq<byte>)
    ensures |s| == 4 && Word(s, 0) == x
  {
    PowWord();
    FromToBytes(x, 4);
    assert ToBytes(x, 4)[0..4] == ToBytes(x, 4);
    ToBytes(x, 4)
  }

  function EncodeWords(ws: seq<u32>): (s: seq<byte>)
    ensures |s| == 4 * |ws|
  {
    if ws == [] then [] else EncodeWord(ws[0]) + EncodeWords(ws[1..])
  }

  lemma {:induction false} WordsRoundTrip(ws: seq<u32>, i: nat)
    requires i < |ws|
    ensures Word(EncodeWords(ws), 4 * i) == ws[i]
  {
    hide Word, EncodeWord;
    var e, t := EncodeWord(ws[0]), EncodeWords(ws[1..]);
    if i == 0 {
      WordCopy(e + t, 0, e, 0);
    } else {
      WordsRoundTrip(ws[1..], i - 1);
      WordCopy(e + t, 4 * i, t, 4 * (i - 1));
    }
  }

  lemma SliceOfSlice(s: seq<byte>, a: nat, n: nat, c: nat, d: nat)
    requires a + n <= |s| && c <= d <= n
    ensures s[a..a + n][c..d] == s[a + c..a + d]
  {
    var t, u := s[a..a + n][c..d], s[a + c..a + d];
    assert forall k :: 0 <= k < |t| ==> t[k] == u[k];
  }

  lemma WordCopy(s: seq<byte>, o: nat, t: seq<byte>, o': nat)
    requires o + 4 <= |s| && o' + 4 <= |t|
    requires s[o..o + 4] == t[o'..o' + 4]
    ensures Word(s, o) == Word(t, o')
  {
  }

  lemma HalfCopy(s: seq<byte>, o: nat, t: seq<byte>, o': nat)
    requires o + 2 <= |s| && o' + 2 <= |t|
    requires s[o..o + 2] == t[o'..o' + 2]
    ensures Half(s, o) == Half(t, o')
  {
  }

  lemma WordIsEncoded(s: seq<byte>, o: nat)
    requires o + 4 <= |s|
    ensures EncodeWord(Word(s, o)) == s[o..o + 4]
  {
    ToFromBytes(s[o..o + 4]);
  }

  /** Overwrite |s| bytes of b from offset o: the effect of a `memcpy` into a buffer. */
  function Put(b: seq<byte>, o: nat, s: seq<byte>): (r: seq<byte>)
    requires o + |s| <= |b|
    ensures |r| == |b|
    ensures forall k :: 0 <= k < |b| ==> r[k] == if o <= k < o + |s| then s[k - o] else b[k]
  {
    b[..o] + s + b[o + |s|..]
  }

  lemma PutSame(b: seq<byte>, o: nat, n: nat)
    requires o + n <= |b|
    ensures Put(b, o, b[o..o + n]) == b
  {
  }

  lemma PutGet(b: seq<byte>, o: nat, s: seq<byte>, o': nat, n: nat)
    requires o + |s| <= |b| && o' + n <= |b|
    ensures o' == o && n == |s| ==> Put(b, o, s)[o'..o' + n] == s
    ensures (o' + n <= o || o + |s| <= o') ==> Put(b, o, s)[o'..o' + n] == b[o'..o' + n]
  {
  }

  lemma PutField(b: seq<byte>, o: nat, s: seq<byte>, c: nat, n: nat)
    requires o + |s| <= |b| && c + n <= |s|
    ensures Put(b, o, s)[o + c..o + c + n] == s[c..c + n]
  {
    PutGet(b, o, s, o, |s|);
    SliceOfSlice(Put(b, o, s), o, |s|, c, c + n);
  }

  lemma PutWordField(b: seq<byte>, o: nat, s: seq<byte>, c: nat, k: nat)
    requires o + |s| <= |b| && c + 4 <= |s| && k == o + c
    ensures Word(Put(b, o, s), k) == Word(s, c)
  {
    PutField(b, o, s, c, 4);
  }

  // ----- a block as 128 block pointers -----

  const NPTRS_PER_BLOCK: nat := 128

  function GetPtr(b: Block, i: nat): u32
    requires i < NPTRS_PER_BLOCK
  {
    Word(b, 4 * i)
  }

  function SetPtr(b: Block, i: nat, p: u32): Block
    requires i < NPTRS_PER_BLOCK
  {
    Put(b, 4 * i, EncodeWord(p))
  }

  lemma PtrGetSet(b: Block, i: nat, p: u32, j: nat)
    requires i < NPTRS_PER_BLOCK && j < NPTRS_PER_BLOCK
    ensures GetPtr(SetPtr(b, i, p), j) == if i == j then p else GetPtr(b, j)
  {
    var e := EncodeWord(p);
    PutGet(b, 4 * i, e, 4 * j, 4);
    if i == j {
      WordCopy(SetPtr(b, i, p), 4 * i, e, 0);
    } else {
      WordCopy(SetPtr(b, i, p), 4 * j, b, 4 * j);
    }
  }

  lemma PtrSetSame(b: Block, i: nat)
    requires i < NPTRS_PER_BLOCK
    ensures SetPtr(b, i, GetPtr(b, i)) == b
  {
    WordIsEncoded(b, 4 * i);
    PutSame(b, 4 * i, 4);
  }

  lemma PtrZero(i: nat)
    requires i < NPTRS_PER_BLOCK
    ensures GetPtr(ZERO_BLOCK, i) == 0
  {
    assert ZERO_BLOCK[4 * i..4 * i + 4] == Zeros(4);
    FromZeros(4);
  }

  // ----- a block as 4096 bits -----

  /** (x >> k) & 1 */
  predicate Bit(x: nat, k: nat)
  {
    if k == 0 then x % 2 == 1 else Bit(x / 2, k - 1)
  }

  /** x | 1 << k */
  function OrBit(x: nat, k: nat): nat
  {
    if k == 0 then x / 2 * 2 + 1 else 2 * OrBit(x / 2, k - 1) + x % 2
  }

  lemma {:induction false} OrBitBits(x: nat, k: nat, j: nat)
    ensures Bit(OrBit(x, k), j) == (j == k || Bit(x, j))
  {
    if k > 0 && j > 0 {
      OrBitBits(x / 2, k - 1, j - 1);
      assert OrBit(x, k) / 2 == OrBit(x / 2, k - 1);
    } else if j > 0 {
      assert OrBit(x, k) / 2 == x / 2;
    }
  }

  function Pow2(n: nat): (r: nat)
    ensures r > 0
  {
    if n == 0 then 1 else 2 * Pow2(n - 1)
  }

  lemma {:induction false} OrBitBound(x: nat, k: nat, n: nat)
    requires x < Pow2(n) && k < n
    ensures OrBit(x, k) < Pow2(n)
  {
    if k > 0 {
      OrBitBound(x / 2, k - 1, n - 1);
    }
  }

  lemma {:induction false} AllOnes(n: nat, k: nat)
    requires k < n
    ensures Bit(Pow2(n) - 1, k)
  {
    if k > 0 {
      AllOnes(n - 1, k - 1);
      assert (Pow2(n) - 1) / 2 == Pow2(n - 1) - 1;
    }
  }

  lemma {:induction false} SomeZero(x: nat, n: nat) returns (k: nat)
    requires x < Pow2(n) - 1
    ensures k < n && !Bit(x, k)
  {
    if x % 2 == 0 {
      k := 0;
    } else {
      k := SomeZero(x / 2, n - 1);
      k := k + 1;
    }
  }

  lemma BytePow()
    ensures Pow2(8) == 0x100
  {
    assert Pow2(4) == 16;
  }

  function OrByte(x: byte, k: nat): byte
    requires k < 8
  {
    BytePow();
    OrBitBound(x, k, 8);
    OrBit(x, k)
  }

  lemma FullByte(x: byte)
    ensures x == 0xff ==> forall k :: 0 <= k < 8 ==> Bit(x, k)
    ensures x != 0xff ==> exists k :: 0 <= k < 8 && !Bit(x, k)
  {
    BytePow();
    if x == 0xff {
      forall k | 0 <= k < 8 ensures Bit(x, k) { AllOnes(8, k); }
    } else {
      var k := SomeZero(x, 8);
    }
  }

  predicate BitAt(b: Block, k: nat)
    requires k < 8 * BLOCKSIZE
  {
    Bit(b[k / 8], k % 8)
  }

  function SetBitAt(b: Block, k: nat): Block
    requires k < 8 * BLOCKSIZE
  {
    b[k / 8 := OrByte(b[k / 8], k % 8)]
  }

  lemma BitGetSet(b: Block, k: nat, j: nat)
    requires k < 8 * BLOCKSIZE && j < 8 * BLOCKSIZE
    ensures BitAt(SetBitAt(b, k), j) == (j == k || BitAt(b, j))
  {
    if k / 8 == j / 8 {
      OrBitBits(b[k / 8], k % 8, j % 8);
    }
  }

  /** Bit k of a block: bit k % 8, counted from the least significant, of byte k / 8. */
  predicate BitSet(b: Block, k: nat)
    requires k / 8 < 512
  {
    b[k / 8] / Pow2(k % 8) % 2 == 1
  }

  lemma {:induction false} BitIs(x: nat, k: nat)
    ensures Bit(x, k) <==> x / Pow2(k) % 2 == 1
  {
    if k > 0 {
      BitIs(x / 2, k - 1);
      DivTwice(x, Pow2(k - 1));
    }
  }

  lemma DivTwice(x: nat, p: nat)
    requires p > 0
    ensures x / 2 / p == x / (2 * p)
  {
    var q := x / (2 * p);
    var r := x % (2 * p);
    assert x == q * (2 * p) + r;
    assert x == 2 * (q * p) + r;
    assert x / 2 == q * p + r / 2;
    assert r / 2 < p;
    QuotientIs(x / 2, p, q, r / 2);
  }

  lemma QuotientIs(x: nat, p: nat, q: nat, r: nat)
    requires x == q * p + r && r < p
    ensures x / p == q
  {
    assert x == (x / p) * p + x % p;
    assert (x / p - q) * p == r - x % p;
    AtLeastOnce(x / p - q, p);
  }

  lemma AtLeastOnce(t: int, p: int)
    requires p > 0
    ensures t >= 1 ==> t * p >= p
    ensures t <= -1 ==> t * p <= -p
  {
    if t >= 1 {
      assert t * p == p + (t - 1) * p;
    } else if t <= -1 {
      assert t * p == -p + (t + 1) * p;
    }
  }

  lemma BitSetIs(b: Block, k: nat)
    requires k / 8 < 512
    ensures BitAt(b, k) <==> BitSet(b, k)
  {
    hide Bit, Pow2;
    BitIs(b[k / 8], k % 8);
  }

  // ----- the bytes of numbers -----

  /** A 32-bit number at offset o, least significant byte first. */
  predicate LittleWord(s: seq<byte>, o: nat, x: int)
    requires o + 4 <= |s|
  {
    x == (s[o] as int) + 0x100 * (s[o + 1] as int) + 0x1_0000 * (s[o + 2] as int) + 0x100_0000 * (s[o + 3] as int)
  }

  predicate LittleHalf(s: seq<byte>, o: nat, x: int)
    requires o + 2 <= |s|
  {
    x == (s[o] as int) + 0x100 * (s[o + 1] as int)
  }

  lemma WordBytes(s: seq<byte>, o: nat)
    requires o + 4 <= |s|
    ensures LittleWord(s, o, Word(s, o))
  {
    var t := s[o..o + 4];
    var t1, t2, t3 := t[1..], t[1..][1..], t[1..][1..][1..];
    assert t3 == [s[o + 3]] && t3[1..] == [];
    assert FromBytes(t3) == s[o + 3];
    assert FromBytes(t2) == s[o + 2] + 0x100 * FromBytes(t3);
    assert FromBytes(t1) == s[o + 1] + 0x100 * FromBytes(t2);
  }

  lemma HalfBytes(s: seq<byte>, o: nat)
    requires o + 2 <= |s|
    ensures LittleHalf(s, o, Half(s, o))
  {
    var t := s[o..o + 2];
    assert t[1..] == [s[o + 1]] && t[1..][1..] == [];
    assert FromBytes(t[1..]) == s[o + 1];
  }

  /** Entry i of an index block. */
  lemma PointerBytes(b: Block, i: nat)
    requires i < 128
    ensures LittleWord(b, 4 * i, GetPtr(b, i))
  {
    WordBytes(b, 4 * i);
  }
}

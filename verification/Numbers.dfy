/** Printing and parsing unsigned numbers: `_int` of the printer and `str2uint`. */
module Numbers {
  import opened Bytes
  import opened Directory
  import opened Memory

  /** The character of a digit in bases up to 16: "0123456789abcdef". */
  function DigitChar(d: nat): byte
    requires d < 16
  {
    if d < 10 then 48 + d else 97 + (d - 10)
  }

  function CharDigit(c: byte): nat
  {
    if 97 <= c < 103 then c - 97 + 10 else if 48 <= c < 58 then c - 48 else 0
  }

  predicate IsDigit(c: byte)
  {
    48 <= c < 58
  }

  /** The number a string of digits stands for. */
  function Number(s: seq<byte>, base: nat): nat
  {
    if s == [] then 0 else base * Number(s[..|s| - 1], base) + CharDigit(s[|s| - 1])
  }

  /** The two bases `_int` is called with. */
  predicate Base(base: nat)
  {
    base == 10 || base == 16
  }

  /** The digits of a, most significant first, without leading zeros; none for 0. */
  function Digits(a: nat, base: nat): (s: seq<byte>)
    requires Base(base)
  {
    if a == 0 then [] else Digits(a / base, base) + [DigitChar(a % base)]
  }

  lemma {:induction false} DigitsNumber(a: nat, base: nat)
    requires Base(base)
    ensures Number(Digits(a, base), base) == a
  {
    if a > 0 {
      DigitsNumber(a / base, base);
      NumberAppend(Digits(a / base, base), DigitChar(a % base), base);
      Recompose(a, base);
    }
  }

  lemma Recompose(a: nat, base: nat)
    requires Base(base)
    ensures base * (a / base) + a % base == a && a % base < base
  {
  }

  lemma NumberAppend(s: seq<byte>, c: byte, base: nat)
    ensures Number(s + [c], base) == base * Number(s, base) + CharDigit(c)
  {
    assert (s + [c])[..|s|] == s;
  }

  /** The magnitude `_int` prints: a signed argument may be read as unsigned. */
  function Magnitude(x: int, sign: bool): u32
    requires -0x8000_0000 <= x < 0x8000_0000
  {
    if !sign then x % WORD else if x < 0 then -x else x
  }

  /** What `_int` prints. */
  function Printed(x: int, sign: bool, base: nat): seq<byte>
    requires -0x8000_0000 <= x < 0x8000_0000 && Base(base)
  {
    if x == 0 then [48]
    else (if sign && x < 0 then [45] else []) + Digits(Magnitude(x, sign), base)
  }

  function Pow(b: nat, n: nat): nat
  {
    if n == 0 then 1 else b * Pow(b, n - 1)
  }

  lemma {:induction false} DigitsLength(a: nat, base: nat, n: nat)
    requires Base(base) && a < Pow(base, n)
    ensures |Digits(a, base)| <= n
  {
    if a > 0 {
      DigitsLength(a / base, base, n - 1);
    }
  }

  lemma PowTen()
    ensures Pow(10, 9) == 1_000_000_000 && Pow(10, 10) == 10_000_000_000 && Pow(16, 8) == WORD
  {
    assert Pow(10, 5) == 100_000;
    assert Pow(16, 4) == 0x1_0000;
  }

  lemma AtMostTen(a: u32, base: nat)
    requires Base(base)
    ensures |Digits(a, base)| <= 10
  {
    PowTen();
    DigitsLength(a, base, if base == 10 then 10 else 8);
  }

  /** The buffer holds the string backwards. */
  ghost predicate Backwards(xx: array<byte>, all: seq<byte>, n: nat)
    reads xx
  {
    n <= |all| <= xx.Length && forall k :: 0 <= k < n ==> xx[k] == all[|all| - 1 - k]
  }

  /** The first loop of `_int`: the digits, least significant first. */
  method FillDigits(abs0: u32, base: nat, xx: array<byte>) returns (i: nat)
    requires Base(base) && xx.Length == 11
    modifies xx
    ensures i == |Digits(abs0, base)| && Backwards(xx, Digits(abs0, base), i)
  {
    ghost var all := Digits(abs0, base);
    AtMostTen(abs0, base);
    var abs: nat := abs0;
    i := 0;
    while abs > 0
      invariant Backwards(xx, all, i) && |all| <= 10
      invariant all == Digits(abs, base) + all[|all| - i..]
      decreases abs
    {
      ghost var rest, c := Digits(abs / base, base), DigitChar(abs % base);
      LastDigit(all, rest, c, i);
      xx[i] := DigitChar(abs % base);
      i := i + 1;
      abs := abs / base;
    }
  }

  /** The second loop of `_int`: the digits the other way round. */
  method DrainDigits(xx: array<byte>, n: nat, ghost all: seq<byte>) returns (out: seq<byte>)
    requires n == |all| && Backwards(xx, all, n)
    ensures out == all
  {
    out := [];
    var i := n;
    while i > 0
      invariant 0 <= i <= n && out == all[..n - i]
    {
      TakeMore(all, n - i);
      i := i - 1;
      out := out + [xx[i]];
    }
    assert all[..n] == all;
  }

  /** The digits of an unsigned number in base 10 or 16: at least one, no leading zero, and the value. */
  predicate Denotes(s: seq<byte>, base: nat, value: int)
  {
    && s != [] && (|s| > 1 ==> s[0] != 48)
    && (forall i :: 0 <= i < |s| ==> 48 <= s[i] <= 57 || (base == 16 && 97 <= s[i] <= 102))
    && Number(s, base) == value
  }

  /** The character of digit d, and its value. */
  lemma DigitTable(d: nat)
    requires d < 16
    ensures DigitChar(d) == "0123456789abcdef"[d] as int && CharDigit(DigitChar(d)) == d
  {
  }

  lemma {:induction false} DigitsProper(a: nat, base: nat)
    requires Base(base) && a > 0
    ensures var s := Digits(a, base);
      && s != [] && s[0] != 48
      && forall i :: 0 <= i < |s| ==> 48 <= s[i] <= 57 || (base == 16 && 97 <= s[i] <= 102)
    decreases a
  {
    var r := Digits(a / base, base);
    assert Digits(a, base) == r + [DigitChar(a % base)];
    if a >= base {
      DigitsProper(a / base, base);
    } else {
      assert a / base == 0 && r == [];
    }
  }

  lemma DigitsDenote(a: nat, base: nat)
    requires Base(base) && a > 0
    ensures Denotes(Digits(a, base), base, a)
  {
    hide Digits, Number;
    DigitsNumber(a, base);
    DigitsProper(a, base);
  }

  lemma ZeroDenotes(base: nat)
    ensures Denotes([48], base, 0)
  {
    NumberAppend([], 48, base);
    assert [] + [48 as byte] == [48];
  }

  /** What is printed: a signed number is its sign and the digits of its magnitude, an unsigned one the
      digits of its value modulo 2^32, in both bases. */
  lemma PrintedMeans(x: int, sign: bool, base: nat)
    requires -0x8000_0000 <= x < 0x8000_0000 && Base(base)
    ensures var s := Printed(x, sign, base);
      if !sign then Denotes(s, base, x % 0x1_0000_0000)
      else if x < 0 then s != [] && s[0] == 45 && Denotes(s[1..], base, -x)
      else Denotes(s, base, x)
  {
    if x == 0 {
      ZeroDenotes(base);
    } else {
      DigitsDenote(Magnitude(x, sign), base);
      assert [] + Digits(Magnitude(x, sign), base) == Digits(Magnitude(x, sign), base);
      assert ([45] + Digits(Magnitude(x, sign), base))[1..] == Digits(Magnitude(x, sign), base);
    }
  }

  /** `_int`: the characters put on the screen and the count it returns, which leaves out the sign. */
  method PrintInt(x: int, sign: bool, base: nat) returns (out: seq<byte>, n: nat)
    requires -0x8000_0000 <= x < 0x8000_0000 && Base(base)
    ensures out == Printed(x, sign, base)
    ensures !sign ==> Denotes(out, base, x % 0x1_0000_0000)
    ensures sign && x >= 0 ==> Denotes(out, base, x)
    ensures sign && x < 0 ==> out != [] && out[0] == 45 && Denotes(out[1..], base, -x)
    ensures n == if sign && x < 0 then |out| - 1 else |out|
  {
    PrintedMeans(x, sign, base);
    hide Denotes;
    if x == 0 {
      return [48], 1;
    }
    var abs := if !sign then x % WORD else if x == -0x8000_0000 then 0x8000_0000 else if x > 0 then x else -x;
    var xx := new byte[11];
    n := FillDigits(abs, base, xx);
    var digits := DrainDigits(xx, n, Digits(abs, base));
    out := (if sign && x < 0 then [45] else []) + digits;
  }

  lemma TakeMore(all: seq<byte>, j: nat)
    requires j < |all|
    ensures all[..j] + [all[j]] == all[..j + 1]
  {
  }

  lemma LastDigit(all: seq<byte>, rest: seq<byte>, c: byte, i: nat)
    requires i <= |all| && all == rest + [c] + all[|all| - i..]
    ensures i < |all| && all[|all| - 1 - i] == c && all == rest + all[|all| - (i + 1)..]
  {
    assert |rest| + 1 + i == |all|;
    assert all[|rest|] == (rest + [c])[|rest|];
    assert all[|rest|..] == [c] + all[|rest| + 1..];
  }

  // ----- parsing -----

  predicate AllDigits(s: seq<byte>)
  {
    forall i :: 0 <= i < |s| ==> IsDigit(s[i])
  }

  /** "4294967295" */
  function MaxUint(): (s: seq<byte>)
    ensures |s| == 10
  {
    [52, 50, 57, 52, 57, 54, 55, 50, 57, 53]
  }

  /** The first n characters of a string, or all of it. */
  function Prefix(s: seq<byte>, n: nat): seq<byte>
  {
    s[..Min(n, |s|)]
  }

  /** `strncmp` as it is written: its loop never advances the counter, so for a positive n it
      compares the whole strings. That is the comparison of their first n characters exactly if
      those differ or the strings are equal. */
  method Strncmp(s1: array<byte>, s2: array<byte>, n: nat) returns (r: int)
    requires Terminated(s1[..]) && Terminated(s2[..])
    ensures n > 0 ==> r == Compare(CStr(s1[..]), CStr(s2[..]))
    ensures n == 0 ==> r == 0
    ensures var a, b := CStr(s1[..]), CStr(s2[..]);
      n > 0 ==> (r == Compare(Prefix(a, n), Prefix(b, n)) <==> Prefix(a, n) != Prefix(b, n) || a == b)
  {
    ghost var a, b := CStr(s1[..]), CStr(s2[..]);
    ComparePrefix(a, b, n);
    CStrAll(s1[..]);
    CStrAll(s2[..]);
    hide CStr, Prefix;
    var i := 0;
    var p := 0;
    while i < n && s1[p] != 0 && s2[p] != 0
      invariant i == 0 && p <= |a| && p <= |b|
      invariant n > 0 ==> Compare(a, b) == Compare(a[p..], b[p..])
      decreases |a| - p
    {
      if Char(s1[p]) < Char(s2[p]) {
        return -1;
      } else if Char(s1[p]) > Char(s2[p]) {
        return 1;
      }
      assert a[p..][1..] == a[p + 1..] && b[p..][1..] == b[p + 1..];
      p := p + 1;
    }
    if i == n {
      return 0;
    }
    if s1[p] == s2[p] {
      r := 0;
    } else if s1[p] != 0 {
      r := 1;
    } else {
      r := -1;
    }
  }

  /** Comparing whole strings is comparing their first n characters exactly if those differ or the
      strings are equal. */
  lemma ComparePrefix(a: seq<byte>, b: seq<byte>, n: nat)
    ensures Compare(a, b) == Compare(Prefix(a, n), Prefix(b, n)) <==> Prefix(a, n) != Prefix(b, n) || a == b
  {
    CompareZero(a, b);
    CompareZero(Prefix(a, n), Prefix(b, n));
    if Prefix(a, n) != Prefix(b, n) {
      PrefixDecides(a, b, n);
    }
  }

  lemma {:induction false} PrefixDecides(a: seq<byte>, b: seq<byte>, n: nat)
    requires Prefix(a, n) != Prefix(b, n)
    ensures Compare(a, b) == Compare(Prefix(a, n), Prefix(b, n))
    decreases n
  {
    if a != [] && b != [] && a[0] == b[0] && n > 0 {
      assert Prefix(a, n)[1..] == Prefix(a[1..], n - 1) && Prefix(b, n)[1..] == Prefix(b[1..], n - 1);
      assert Prefix(a, n) == [a[0]] + Prefix(a[1..], n - 1) && Prefix(b, n) == [b[0]] + Prefix(b[1..], n - 1);
      PrefixDecides(a[1..], b[1..], n - 1);
    }
  }

  /** The sum `str2uint` computes over any characters: a digit counts as such, and what is not a digit
      as its distance from '0'. */
  function Reading(s: seq<byte>): int
  {
    if s == [] then 0 else 10 * Reading(s[..|s| - 1]) + (Char(s[|s| - 1]) - 48)
  }

  lemma {:induction false} DigitsReading(s: seq<byte>)
    requires AllDigits(s)
    ensures Reading(s) == Number(s, 10)
  {
    if s != [] {
      DigitsReading(s[..|s| - 1]);
    }
  }

  /** What `str2uint` returns for a string that is not empty; it panics for a string of ten or more
      characters that compares above "4294967295". Only ten digits are read. */
  datatype Parsed = Panic | Value(x: u32)

  function Parse(s: seq<byte>): Parsed
  {
    if |s| >= 10 && Compare(MaxUint(), s) < 0 then Panic
    else Value(Reading(s[..Min(|s|, 10)]) % WORD)
  }

  /** A product of C ints with wrap-around. */
  function Wrap(x: int): int
  {
    (x + 0x8000_0000) % WORD - 0x8000_0000
  }

  lemma WrapSum(x: u32, y: int)
    ensures (x + Wrap(y)) % WORD == (x + y) % WORD
  {
    var z := y + 0x8000_0000;
    var k := z / WORD;
    assert Wrap(y) == y - WORD * k;
    ModShift(x + y, -k);
  }

  lemma ModShift(a: int, k: int)
    ensures (a + WORD * k) % WORD == a % WORD
  {
  }

  /** The weight of the characters before position i of an m-digit number, and of one more. */
  lemma Weigh(s: seq<byte>, m: nat, i: nat, x: u32)
    requires i < m <= |s|
    requires x == Reading(s[..i]) * Pow(10, m - i) % WORD
    ensures (x + Wrap((Char(s[i]) - 48) * Pow(10, m - 1 - i))) % WORD == Reading(s[..i + 1]) * Pow(10, m - 1 - i) % WORD
  {
    var n, p := Reading(s[..i]), Pow(10, m - 1 - i);
    var d: int := Char(s[i]) - 48;
    assert Pow(10, m - i) == 10 * p;
    assert s[..i + 1][..i] == s[..i];
    assert Reading(s[..i + 1]) == 10 * n + d;
    hide Reading, Pow, Wrap;
    Distribute(n, d, p);
    WrapSum(x, d * p);
    ModAdd(x, n * (10 * p), d * p);
  }

  lemma Distribute(n: int, d: int, p: nat)
    ensures (10 * n + d) * p == n * (10 * p) + d * p
  {
  }

  lemma ModAdd(x: u32, y: int, z: int)
    requires x == y % WORD
    ensures (x + z) % WORD == (y + z) % WORD
  {
    ModShift(x + z, y / WORD);
    assert x + WORD * (y / WORD) == y;
  }

  lemma {:induction false} PowBound(n: nat)
    requires n < 10
    ensures 1 <= Pow(10, n) <= 1_000_000_000
    decreases 10 - n
  {
    PowTen();
    if n < 9 {
      PowBound(n + 1);
      assert Pow(10, n + 1) == 10 * Pow(10, n);
      PowPositive(n);
    }
  }

  lemma {:induction false} PowPositive(n: nat)
    ensures Pow(10, n) >= 1
  {
    if n > 0 {
      PowPositive(n - 1);
    }
  }

  /** The first loop of `str2uint`: the number of digits after the first, at most nine, and the weight of the first. */
  method CountDigits(s: array<byte>) returns (ndigits: nat, base: int)
    requires Terminated(s[..]) && CStr(s[..]) != []
    ensures ndigits + 1 == Min(|CStr(s[..])|, 10) && base == Pow(10, ndigits)
  {
    CStrAll(s[..]);
    hide CStr;
    base := 1;
    ndigits := 0;
    var i := 1;
    while i < 10 && s[i] != 0
      invariant 1 <= i <= Min(|CStr(s[..])|, 10) && ndigits == i - 1 && base == Pow(10, ndigits)
      decreases 10 - i
    {
      base := base * 10;
      i := i + 1;
      ndigits := ndigits + 1;
    }
  }

  /** `str2uint`. `ok` is false where the source panics. */
  method Str2uint(s: array<byte>) returns (x: u32, ok: bool)
    requires Terminated(s[..]) && CStr(s[..]) != []
    ensures Parse(CStr(s[..])) == if ok then Value(x) else Panic
  {
    ghost var t := CStr(s[..]);
    CStrAll(s[..]);
    hide CStr, Wrap, Compare;
    var ndigits, base := CountDigits(s);
    ghost var m := ndigits + 1;
    assert ndigits <= 10;
    x := 0;
    ok := false;
    ndigits := ndigits + 1;
    if ndigits == 10 {
      var limit := new byte[11](k requires 0 <= k < 11 => if k < 10 then MaxUint()[k] else 0);
      assert limit[..][..10] == MaxUint() && limit[10] == 0;
      CStrIs(limit[..], 10);
      var c := Strncmp(limit, s, 10);
      if c < 0 {
        return;
      }
    }
    x := SumDigits(s, ndigits, base);
    ok := true;
  }

  /** The last loop of `str2uint`: the characters with their weights, added with wrap-around. */
  method SumDigits(s: array<byte>, m: nat, weight: int) returns (x: u32)
    requires Terminated(s[..]) && 1 <= m <= |CStr(s[..])| && weight == Pow(10, m - 1)
    ensures x == Reading(CStr(s[..])[..m]) % WORD
  {
    ghost var t := CStr(s[..]);
    CStrAll(s[..]);
    hide CStr, Wrap, Reading, Pow;
    x := 0;
    var base: int := weight;
    ReadingNone(t, Pow(10, m));
    var i := 0;
    while i < m
      invariant 0 <= i <= m
      invariant base == if i < m then Pow(10, m - 1 - i) else 0
      invariant x == Reading(t[..i]) * Pow(10, m - i) % WORD
    {
      Weigh(t, m, i, x);
      NextWeight(m, i);
      var d: int := Char(s[i]) - 48;
      x := (x + Wrap(d * base)) % WORD;
      base := base / 10;
      i := i + 1;
    }
    PowZero();
  }

  lemma ReadingNone(t: seq<byte>, p: nat)
    ensures Reading(t[..0]) * p == 0
  {
    assert t[..0] == [];
  }

  lemma NextWeight(m: nat, i: nat)
    requires i < m
    ensures Pow(10, m - 1 - i) / 10 == if i + 1 < m then Pow(10, m - 1 - (i + 1)) else 0
  {
    if i + 1 < m {
      assert Pow(10, m - 1 - i) == 10 * Pow(10, m - 1 - (i + 1));
    }
  }

  lemma PowZero()
    ensures Pow(10, 0) == 1
  {
  }

  // ----- string order is numeric order at equal length -----

  lemma {:induction false} NumberFront(s: seq<byte>)
    requires s != [] && AllDigits(s)
    ensures Number(s, 10) == CharDigit(s[0]) * Pow(10, |s| - 1) + Number(s[1..], 10)
    ensures Number(s[1..], 10) < Pow(10, |s| - 1)
    decreases |s|
  {
    if |s| > 1 {
      var f, l := s[..|s| - 1], CharDigit(s[|s| - 1]);
      NumberFront(f);
      assert f[1..] == s[1..][..|s| - 2];
      assert Number(s[1..], 10) == 10 * Number(f[1..], 10) + l;
      hide Number;
      TenTimes(CharDigit(s[0]), Number(f[1..], 10), l, Pow(10, |f| - 1));
    }
  }

  lemma TenTimes(a: nat, r: nat, l: nat, p: nat)
    requires l < 10
    ensures 10 * (a * p + r) + l == a * (10 * p) + (10 * r + l)
    ensures r < p ==> 10 * r + l < 10 * p
  {
  }

  lemma {:induction false} CompareNumber(s: seq<byte>, t: seq<byte>)
    requires AllDigits(s) && AllDigits(t) && |s| == |t|
    ensures Compare(s, t) < 0 <==> Number(s, 10) < Number(t, 10)
    decreases |s|
  {
    if s != [] {
      NumberFront(s);
      NumberFront(t);
      CompareNumber(s[1..], t[1..]);
      hide Pow, Number;
      LeadingDigit(CharDigit(s[0]), Number(s[1..], 10), CharDigit(t[0]), Number(t[1..], 10), Pow(10, |s| - 1));
    }
  }

  lemma LeadingDigit(a: nat, r: nat, b: nat, u: nat, p: nat)
    requires r < p && u < p
    ensures a < b ==> a * p + r < b * p + u
    ensures b < a ==> b * p + u < a * p + r
  {
    if a < b {
      MulStep(a, b, p);
    } else if b < a {
      MulStep(b, a, p);
    }
  }

  lemma {:induction false} MulStep(a: nat, b: nat, p: nat)
    requires a < b
    ensures a * p + p <= b * p
    decreases b - a
  {
    assert b * p == (b - 1) * p + p;
    if a < b - 1 {
      MulStep(a, b - 1, p);
    }
  }

  lemma {:induction false} DigitsAreDigits(a: nat)
    ensures AllDigits(Digits(a, 10))
  {
    if a > 0 {
      DigitsAreDigits(a / 10);
    }
  }

  /** "42949" */
  function MaxFront(): (s: seq<byte>)
    ensures |s| == 5
  {
    [52, 50, 57, 52, 57]
  }

  lemma MaxFrontNumber()
    ensures Number(MaxFront(), 10) == 42949
  {
    var s0: seq<byte> := [];
    assert Number(s0, 10) == 0;
    hide Number;
    MaxDigit(s0, 52);
    MaxDigit(s0 + [52], 50);
    MaxDigit(s0 + [52] + [50], 57);
    MaxDigit(s0 + [52] + [50] + [57], 52);
    MaxDigit(s0 + [52] + [50] + [57] + [52], 57);
    assert s0 + [52] + [50] + [57] + [52] + [57] == MaxFront();
  }

  lemma MaxNumber()
    ensures Number(MaxUint(), 10) == 4294967295 && AllDigits(MaxUint()) && |MaxUint()| == 10
  {
    hide Number;
    MaxFrontNumber();
    var s5 := MaxFront();
    MaxDigit(s5, 54);
    MaxDigit(s5 + [54], 55);
    MaxDigit(s5 + [54] + [55], 50);
    MaxDigit(s5 + [54] + [55] + [50], 57);
    MaxDigit(s5 + [54] + [55] + [50] + [57], 53);
    assert s5 + [54] + [55] + [50] + [57] + [53] == MaxUint();
  }

  lemma MaxDigit(s: seq<byte>, c: byte)
    ensures Number(s + [c], 10) == 10 * Number(s, 10) + CharDigit(c)
  {
    NumberAppend(s, c, 10);
  }

  /** Parsing what was printed gives back every 32-bit number, read as unsigned. */
  lemma ParsePrinted(x: int)
    requires -0x8000_0000 <= x < 0x8000_0000
    ensures AllDigits(Printed(x, false, 10)) && Printed(x, false, 10) != []
    ensures Parse(Printed(x, false, 10)) == Value(x % WORD)
  {
    var a, s := x % WORD, Printed(x, false, 10);
    if x == 0 {
      NumberAppend([], 48, 10);
      assert [] + [48 as byte] == s;
      ParseExactly(s);
    } else {
      DigitsNumber(a, 10);
      PowTen();
      DigitsLength(a, 10, 10);
      DigitsAreDigits(a);
      assert a != 0;
      assert s == Digits(a, 10) by {
        assert [] + Digits(a, 10) == Digits(a, 10);
      }
      hide Number, Parse, Printed;
      ParseExactly(s);
    }
  }

  /** The number a string of one to ten digits stands for is parsed exactly when it fits in 32 bits. */
  lemma ParseExactly(s: seq<byte>)
    requires AllDigits(s) && 1 <= |s| <= 10
    ensures Parse(s) == if Number(s, 10) < WORD then Value(Number(s, 10)) else Panic
  {
    hide Number, Reading, Compare, Pow, MaxUint, AllDigits;
    assert s[..|s|] == s;
    DigitsReading(s);
    if |s| == 10 {
      MaxNumber();
      CompareNumber(MaxUint(), s);
    } else {
      NumberBound(s);
    }
  }

  /** Of a longer string of digits the first ten are read, if they stand for less than 4294967295;
      otherwise the source panics. */
  lemma ParseLong(s: seq<byte>)
    requires AllDigits(s) && |s| > 10
    ensures Parse(s) ==
      if Number(s[..10], 10) < 4294967295 then Value(Number(s[..10], 10)) else Panic
  {
    var t := s[..10];
    assert AllDigits(t);
    DigitsReading(t);
    MaxNumber();
    CompareNumber(MaxUint(), t);
    CompareNumber(t, MaxUint());
    CompareZero(MaxUint(), t);
    hide Number, Reading, AllDigits, Compare;
    LongCompare(MaxUint(), s);
  }

  /** A string against a longer one: the beginnings decide, or else the longer one is greater. */
  lemma LongCompare(a: seq<byte>, b: seq<byte>)
    requires |a| < |b|
    ensures Compare(a, b) == if a == b[..|a|] then -1 else Compare(a, b[..|a|])
  {
    hide Compare;
    if a != b[..|a|] {
      assert Prefix(a, |a|) == a && Prefix(b, |a|) == b[..|a|];
      hide Prefix;
      PrefixDecides(a, b, |a|);
    } else {
      assert b == a + b[|a|..];
      ProperPrefix(a, b[|a|..]);
    }
  }

  lemma {:induction false} ProperPrefix(a: seq<byte>, z: seq<byte>)
    requires z != []
    ensures Compare(a, a + z) == -1
  {
    if a == [] {
      assert a + z == z;
    } else {
      assert (a + z)[1..] == a[1..] + z;
      ProperPrefix(a[1..], z);
    }
  }

  /** Each character counts with its power of ten. */
  lemma {:induction false} ReadingFront(c: byte, t: seq<byte>)
    ensures Reading([c] + t) == (Char(c) - 48) * Pow(10, |t|) + Reading(t)
    decreases |t|
  {
    if t == [] {
      assert [c] + t == [c] && [c][..0] == [];
    } else {
      var f := t[..|t| - 1];
      ReadingFront(c, f);
      assert ([c] + t)[..|t|] == [c] + f;
      hide Reading;
      TenMore(Char(c) - 48, Pow(10, |f|));
    }
  }

  lemma TenMore(d: int, p: nat)
    ensures 10 * (d * p) == d * (10 * p)
  {
  }

  lemma NumberBound(s: seq<byte>)
    requires AllDigits(s) && 1 <= |s| < 10
    ensures Number(s, 10) < WORD
  {
    var z: seq<byte> := [48] + s;
    assert z[1..] == s;
    NumberFront(z);
    PowBound(|s|);
  }
}

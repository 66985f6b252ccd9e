/** The memory and string routines of the kernel's utility file, on arrays. */
module Memory {
  import opened Bytes
  import opened Path
  import opened Directory

  /** `memset(buf + o, 0, n)` */
  method Memset(buf: array<byte>, o: nat, c: byte, n: nat)
    requires o + n <= buf.Length
    modifies buf
    ensures buf[..] == Put(old(buf[..]), o, seq(n, _ => c))
  {
    for i := 0 to n
      invariant forall k :: 0 <= k < buf.Length ==> buf[k] == if o <= k < o + i then c else old(buf[k])
    {
      buf[o + i] := c;
    }
  }

  /** `memcpy(dest + o, src + p, n)` between two buffers */
  method Memcpy(dest: array<byte>, o: nat, src: array<byte>, p: nat, n: nat)
    requires o + n <= dest.Length && p + n <= src.Length && dest != src
    modifies dest
    ensures dest[..] == Put(old(dest[..]), o, src[p..p + n])
  {
    for i := 0 to n
      invariant forall k :: 0 <= k < dest.Length ==> dest[k] == if o <= k < o + i then src[p + k - o] else old(dest[k])
    {
      dest[o + i] := src[p + i];
    }
  }

  /** Copy a block of the disk into memory. */
  method Load(b: Block) returns (a: array<byte>)
    ensures fresh(a) && a.Length == BLOCKSIZE && a[..] == b
  {
    a := new byte[BLOCKSIZE](i requires 0 <= i < BLOCKSIZE => b[i]);
  }

  /** A buffer that holds a terminated string. */
  predicate Terminated(s: seq<byte>)
  {
    |CStr(s)| < |s|
  }

  lemma {:induction false} CStrAt(s: seq<byte>, i: nat)
    requires i <= |CStr(s)|
    ensures CStr(s)[i..] == CStr(s[i..])
    ensures i < |CStr(s)| ==> s[i] == CStr(s)[i] != 0
    ensures i == |CStr(s)| < |s| ==> s[i] == 0
  {
    if i > 0 {
      CStrAt(s[1..], i - 1);
      assert s[1..][i - 1..] == s[i..];
      assert CStr(s)[i..] == CStr(s[1..])[i - 1..];
    }
  }

  /** A `char` of the target is signed. */
  function Char(b: byte): int
  {
    if b < 128 then b else b - 256
  }

  /** The order of `strcmp`: by the first difference, a proper prefix first. */
  function Compare(a: seq<byte>, b: seq<byte>): int
  {
    if a == [] && b == [] then 0
    else if a == [] then -1
    else if b == [] then 1
    else if Char(a[0]) < Char(b[0]) then -1
    else if Char(a[0]) > Char(b[0]) then 1
    else Compare(a[1..], b[1..])
  }

  lemma {:induction false} CompareZero(a: seq<byte>, b: seq<byte>)
    ensures Compare(a, b) == 0 <==> a == b
    ensures Compare(a, b) == -Compare(b, a)
  {
    if a != [] && b != [] {
      CompareZero(a[1..], b[1..]);
      assert a == [a[0]] + a[1..] && b == [b[0]] + b[1..];
    }
  }

  /** The strings agree on k characters, and then a ends, or has the smaller character when bytes from
      128 on come before those below. */
  predicate BeforeAt(a: seq<byte>, b: seq<byte>, k: nat)
  {
    && k <= |a| && k < |b| && a[..k] == b[..k]
    && (k < |a| ==> (a[k] + 128 as int) % 256 < (b[k] + 128 as int) % 256)
  }

  ghost predicate Before(a: seq<byte>, b: seq<byte>)
  {
    exists k: nat :: BeforeAt(a, b, k)
  }

  lemma BeforeLater(a: seq<byte>, b: seq<byte>, k: nat)
    requires a != [] && b != [] && a[0] == b[0] && k > 0
    ensures BeforeAt(a, b, k) <==> BeforeAt(a[1..], b[1..], k - 1)
  {
    if k <= |a| && k < |b| {
      assert a[..k] == [a[0]] + a[1..][..k - 1] && b[..k] == [b[0]] + b[1..][..k - 1];
      assert a[..k][1..] == a[1..][..k - 1] && b[..k][1..] == b[1..][..k - 1];
    }
  }

  /** `strcmp` is negative exactly if the first string comes before the second. */
  lemma {:induction false} CompareMeans(a: seq<byte>, b: seq<byte>)
    ensures -1 <= Compare(a, b) <= 1
    ensures Compare(a, b) < 0 <==> Before(a, b)
    decreases |a|
  {
    hide BeforeAt;
    if a != [] && b != [] && a[0] == b[0] {
      CompareMeans(a[1..], b[1..]);
      NotAtOnce(a, b);
      forall k: nat | k > 0 ensures BeforeAt(a, b, k) <==> BeforeAt(a[1..], b[1..], k - 1) {
        BeforeLater(a, b, k);
      }
      if k: nat :| BeforeAt(a[1..], b[1..], k) {
        assert BeforeAt(a, b, k + 1);
      }
    } else {
      DecidedAtOnce(a, b);
    }
  }

  lemma NotAtOnce(a: seq<byte>, b: seq<byte>)
    requires a != [] && b != [] && a[0] == b[0]
    ensures !BeforeAt(a, b, 0)
  {
  }

  lemma DecidedAtOnce(a: seq<byte>, b: seq<byte>)
    requires !(a != [] && b != [] && a[0] == b[0])
    ensures -1 <= Compare(a, b) <= 1 && (Compare(a, b) < 0 <==> Before(a, b))
  {
    assert Compare(a, b) < 0 ==> BeforeAt(a, b, 0);
    forall k: nat | k > 0 ensures !BeforeAt(a, b, k) {
      assert k <= |a| && k < |b| ==> a[..k][0] == a[0] && b[..k][0] == b[0];
    }
  }

  /** `strcmp` on two terminated buffers */
  method Strcmp(s1: array<byte>, o1: nat, s2: array<byte>, o2: nat) returns (r: int)
    requires o1 <= s1.Length && o2 <= s2.Length && Terminated(s1[o1..]) && Terminated(s2[o2..])
    ensures r == Compare(CStr(s1[o1..]), CStr(s2[o2..]))
    ensures r == 0 <==> CStr(s1[o1..]) == CStr(s2[o2..])
  {
    ghost var a, b := CStr(s1[o1..]), CStr(s2[o2..]);
    CompareZero(a, b);
    var i := 0;
    CStrAt(s1[o1..], 0);
    CStrAt(s2[o2..], 0);
    while s1[o1 + i] != 0 && s2[o2 + i] != 0
      invariant i <= |a| && i <= |b|
      invariant s1[o1 + i] == s1[o1..][i] && s2[o2 + i] == s2[o2..][i]
      invariant i < |a| ==> s1[o1..][i] == a[i] != 0
      invariant i < |b| ==> s2[o2..][i] == b[i] != 0
      invariant i == |a| ==> s1[o1..][i] == 0
      invariant i == |b| ==> s2[o2..][i] == 0
      invariant Compare(a, b) == Compare(a[i..], b[i..])
      decreases |a| - i
    {
      if Char(s1[o1 + i]) < Char(s2[o2 + i]) {
        return -1;
      } else if Char(s1[o1 + i]) > Char(s2[o2 + i]) {
        return 1;
      }
      assert a[i..][1..] == a[i + 1..] && b[i..][1..] == b[i + 1..];
      i := i + 1;
      CStrAt(s1[o1..], i);
      CStrAt(s2[o2..], i);
    }
    if s1[o1 + i] == s2[o2 + i] {
      r := 0;
    } else if s1[o1 + i] != 0 {
      r := 1;
    } else {
      r := -1;
    }
  }

  /** `strncpy`: copies n bytes, and pads with zeros once the source string ended. */
  method Strncpy(dest: array<byte>, o: nat, src: seq<byte>, n: nat)
    requires o + n <= dest.Length && CString(src)
    modifies dest
    ensures dest[..] == Put(old(dest[..]), o, if n <= |src| then src[..n] else src + Zeros(n - |src|))
  {
    var p := 0;
    for i := 0 to n
      invariant p == Min(i, |src|)
      invariant forall k :: 0 <= k < dest.Length ==>
        dest[k] == if o <= k < o + i then (if k - o < |src| then src[k - o] else 0) else old(dest[k])
    {
      dest[o + i] := if p < |src| then src[p] else 0;
      if p < |src| {
        p := p + 1;
      }
    }
  }

  /** A terminated buffer character by character. */
  lemma CStrAll(s: seq<byte>)
    ensures forall k :: 0 <= k < |CStr(s)| ==> s[k] == CStr(s)[k] && s[k] != 0
    ensures |CStr(s)| < |s| ==> s[|CStr(s)|] == 0
  {
    forall k | 0 <= k < |CStr(s)| ensures s[k] == CStr(s)[k] && s[k] != 0 {
      CStrAt(s, k);
    }
    CStrAt(s, |CStr(s)|);
  }

  /** What a buffer holds once n characters and a zero were stored at its front. */
  lemma {:induction false} CStrIs(s: seq<byte>, n: nat)
    requires n < |s| && CString(s[..n]) && s[n] == 0
    ensures CStr(s) == s[..n]
  {
    if n > 0 {
      assert s[0] == s[..n][0];
      assert s[1..][..n - 1] == s[..n][1..];
      CStrIs(s[1..], n - 1);
      assert s[..n] == [s[0]] + s[1..][..n - 1];
    }
  }

  /** `strnlen` */
  method Strnlen(s: array<byte>, n: nat) returns (l: nat)
    requires Terminated(s[..])
    ensures l == Min(n, |CStr(s[..])|)
  {
    CStrAll(s[..]);
    for i := 0 to n
      invariant i <= |CStr(s[..])|
    {
      if s[i] == 0 {
        return i;
      }
    }
    return n;
  }

  /** `strlen` */
  method Strlen(s: array<byte>) returns (l: nat)
    requires Terminated(s[..])
    ensures l == |CStr(s[..])|
  {
    CStrAll(s[..]);
    l := 0;
    while s[l] != 0
      invariant l <= |CStr(s[..])|
      decreases |CStr(s[..])| - l
    {
      l := l + 1;
    }
  }

  lemma {:induction false} NameLenIs(p: seq<byte>, l: nat)
    requires l <= |p| && NoSlash(p[..l]) && (l < |p| ==> p[l] == SLASH)
    ensures NameLen(p) == l
  {
    if l > 0 {
      assert p[0] == p[..l][0];
      assert p[1..][..l - 1] == p[..l][1..];
      NameLenIs(p[1..], l - 1);
    }
  }

  lemma {:induction false} NameLenAtLeast(p: seq<byte>, l: nat)
    requires l <= |p| && NoSlash(p[..l])
    ensures NameLen(p) >= l
  {
    if l > 0 {
      assert p[0] == p[..l][0];
      assert p[1..][..l - 1] == p[..l][1..];
      NameLenAtLeast(p[1..], l - 1);
    }
  }

  lemma {:induction false} SlashLenIs(p: seq<byte>, l: nat)
    requires l <= |p| && AllSlashes(p[..l]) && (l < |p| ==> p[l] != SLASH)
    ensures SlashLen(p) == l
  {
    if l > 0 {
      assert p[0] == p[..l][0];
      assert p[1..][..l - 1] == p[..l][1..];
      SlashLenIs(p[1..], l - 1);
    }
  }

  /** The two backward scans of `getname`: [p, pp] is the last name of the path. */
  method ScanName(path: array<byte>, len: nat) returns (ok: bool, p: nat, pp: nat)
    requires Terminated(path[..]) && len == |CStr(path[..])| > 0
    ensures pp == LastNonSlash(CStr(path[..]), len - 1) && (ok <==> !(pp == 0 && len != 1))
    ensures ok ==> p == NameStart(CStr(path[..]), pp)
  {
    ghost var s := CStr(path[..]);
    CStrAll(path[..]);
    hide CStr;
    p := len - 1;
    while p != 0 && path[p] == SLASH
      invariant p < len
      invariant LastNonSlash(s, len - 1) == LastNonSlash(s, p)
    {
      p := p - 1;
    }
    pp := p;
    if p == 0 && len != 1 {
      return false, p, pp;
    }
    while p != 0 && path[p] != SLASH
      invariant p <= pp
      invariant NameStart(s, pp) == NameStart(s, p)
    {
      p := p - 1;
    }
    if path[p] == SLASH {
      p := p + 1;
    }
    ok := true;
  }

  /** `getname`: the last name of the path and everything before it. */
  method Getname(path: array<byte>, name: array<byte>, parent: array<byte>) returns (ok: bool)
    requires Terminated(path[..]) && |CStr(path[..])| < MAXPATH
    requires name.Length == MAXNAME && parent.Length == MAXPATH && name != parent && path != name && path != parent
    modifies name, parent
    ensures ok <==> GetName(CStr(path[..])).Split?
    ensures ok ==> Terminated(name[..]) && Terminated(parent[..])
    ensures ok ==> Split(CStr(parent[..]), CStr(name[..])) == GetName(CStr(path[..]))
  {
    hide CStr, LastNonSlash, NameStart, GetName;
    ghost var a := path[..];
    var len := Strlen(path);
    if len == 0 {
      NoNameEmpty(CStr(a));
      return false;
    }
    var p, pp;
    ok, p, pp := ScanName(path, len);
    SplitIs(a, p, pp);
    if !ok {
      return;
    }
    if pp + 1 - p > MAXNAME - 1 {
      return false;
    }
    CopyOut(name, path, p, pp + 1 - p);
    assert path[..] == a;
    CopyOut(parent, path, 0, p);
  }

  lemma NoNameEmpty(s: seq<byte>)
    requires s == []
    ensures GetName(s).NoName?
  {
  }

  /** What `getname` finds in buffer a, by the bounds of its scans. */
  lemma SplitIs(a: seq<byte>, p: nat, pp: nat)
    requires Terminated(a) && CStr(a) != [] && pp == LastNonSlash(CStr(a), |CStr(a)| - 1)
    requires !(pp == 0 && |CStr(a)| != 1) ==> p == NameStart(CStr(a), pp)
    ensures pp < |a|
    ensures pp == 0 && |CStr(a)| != 1 ==> GetName(CStr(a)).NoName?
    ensures !(pp == 0 && |CStr(a)| != 1) ==> (
      && p <= pp + 1 && CString(a[p..pp + 1]) && CString(a[0..p])
      && GetName(CStr(a)) == if pp + 1 - p > MAXNAME - 1 then NoName else Split(a[0..p], a[p..pp + 1]))
  {
    CStrAll(a);
    hide CStr, LastNonSlash, NameStart;
    var s := CStr(a);
    if !(pp == 0 && |s| != 1) {
      assert s[p..pp + 1] == a[p..pp + 1] && s[..p] == a[0..p];
    }
  }

  /** `strncpy` of n characters from src + p into a buffer, and a zero behind them. */
  method CopyOut(dest: array<byte>, src: array<byte>, p: nat, n: nat)
    requires n < dest.Length && dest != src && p + n <= src.Length && CString(src[p..p + n])
    modifies dest
    ensures Terminated(dest[..]) && CStr(dest[..]) == src[p..p + n]
  {
    ghost var t := src[p..p + n];
    for i := 0 to n
      invariant dest[..i] == src[p..p + i]
    {
      assert src[p + i] == t[i] != 0;
      dest[i] := src[p + i];
    }
    dest[n] := 0;
    assert dest[..][..n] == t;
    CStrIs(dest[..], n);
  }

  /** Copy the name at p0 out of a path, as `fs_lookup` does into its 14-byte buffer.
      A longer name does not fit; a name of exactly 14 bytes would leave no room for the zero. */
  method CopyName(path: array<byte>, p0: nat) returns (name: array<byte>, l: nat, fits: bool)
    requires Terminated(path[..]) && p0 <= |CStr(path[..])| && NameLen(CStr(path[..])[p0..]) != MAXNAME
    ensures fresh(name)
    ensures fits ==> l == NameLen(CStr(path[..])[p0..])
    ensures fits ==> Terminated(name[..]) && CStr(name[..]) == Head(CStr(path[..])[p0..])
    ensures !fits ==> NameLen(CStr(path[..])[p0..]) > MAXNAME
  {
    ghost var s := CStr(path[..]);
    ghost var t := s[p0..];
    CStrAll(path[..]);
    hide CStr;
    name := new byte[MAXNAME];
    l := 0;
    while path[p0 + l] != 0 && path[p0 + l] != SLASH
      invariant l <= |t| && l <= MAXNAME
      invariant name[..l] == t[..l] && NoSlash(t[..l]) && CString(t[..l])
      invariant path[p0 + l] == if l < |t| then t[l] else 0
      decreases |t| - l
    {
      if l >= MAXNAME {
        NameLenAtLeast(t, l);
        return name, l, false;
      }
      name[l] := path[p0 + l];
      l := l + 1;
    }
    NameLenIs(t, l);
    name[l] := 0;
    assert name[..][..l] == t[..l];
    CStrIs(name[..], l);
    fits := true;
  }

  /** Take the next name out of a path and step over the slashes behind it. */
  method NextName(path: array<byte>, p0: nat) returns (name: array<byte>, p: nat, fits: bool)
    requires Terminated(path[..]) && p0 < |CStr(path[..])| && |Head(CStr(path[..])[p0..])| != MAXNAME
    ensures fresh(name)
    ensures fits ==> p0 < p <= |CStr(path[..])| && Rest(CStr(path[..])[p0..]) == CStr(path[..])[p..]
    ensures fits ==> Terminated(name[..]) && CStr(name[..]) == Head(CStr(path[..])[p0..])
    ensures !fits ==> |Head(CStr(path[..])[p0..])| > MAXNAME
  {
    hide CStr, NameLen, SlashLen, Terminated, NoSlash, AllSlashes;
    var l;
    name, l, fits := CopyName(path, p0);
    p := p0 + l;
    if !fits {
      return;
    }
    HeadIs(CStr(path[..])[p0..], l);
    p := SkipSlashes(path, p0 + l);
    RestIs(CStr(path[..])[p0..], l, p - p0);
    assert CStr(path[..])[p0..][p - p0..] == CStr(path[..])[p..];
  }

  lemma HeadIs(t: seq<byte>, l: nat)
    requires l == NameLen(t)
    ensures l <= |t| && NoSlash(t[..l]) && (l < |t| ==> t[l] == SLASH)
  {
  }

  /** Step over slashes. */
  method SkipSlashes(path: array<byte>, p1: nat) returns (p: nat)
    requires Terminated(path[..]) && p1 <= |CStr(path[..])|
    ensures p1 <= p <= |CStr(path[..])|
    ensures forall p0 | 0 <= p0 <= p1 :: AllSlashes(CStr(path[..])[p0..][p1 - p0..p - p0])
    ensures p < |CStr(path[..])| ==> CStr(path[..])[p] != SLASH
  {
    ghost var s := CStr(path[..]);
    CStrAll(path[..]);
    hide CStr;
    p := p1;
    while path[p] != 0 && path[p] == SLASH
      invariant p1 <= p <= |s|
      invariant forall k :: p1 <= k < p ==> s[k] == SLASH
      decreases |s| - p
    {
      p := p + 1;
    }
  }

  /** The rest of a path, by the lengths the loops of `fs_lookup` find. */
  lemma RestIs(p: seq<byte>, l: nat, k: nat)
    requires l <= k <= |p| && NoSlash(p[..l]) && (l < |p| ==> p[l] == SLASH)
    requires AllSlashes(p[l..k]) && (k < |p| ==> p[k] != SLASH)
    ensures Head(p) == p[..l] && Rest(p) == p[k..]
  {
    NameLenIs(p, l);
    var q := p[l..];
    assert q[..k - l] == p[l..k];
    SlashLenIs(q, k - l);
    assert q[k - l..] == p[k..];
  }

  /** Fill in a directory record. */
  method NewDirent(m: u16, name: Name) returns (de: array<byte>)
    requires |name| < MAXNAME && CString(name)
    ensures fresh(de) && de.Length == DIRENT && de[..] == EncodeDirent(m, name)
  {
    hide EncodeHalf;
    de := new byte[DIRENT];
    var h := EncodeHalf(m);
    de[0], de[1] := h[0], h[1];
    assert de[..2] == h;
    Strncpy(de, 2, name, MAXNAME);
    assert de[..2] == h;
    assert de[..] == h + (name + Zeros(MAXNAME - |name|));
  }
}

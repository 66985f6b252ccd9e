/** Paths: how `fs_lookup` cuts a path into names, how `getname` splits off the last
    one, and that the two agree. Paths and names are byte strings without the terminator. */
module Path {
  import opened Bytes

  const SLASH: byte := 47
  const MAXPATH: nat := 64
  const MAXNAME: nat := 14

  type Name = seq<byte>

  /** A C string holds no zero byte. */
  predicate CString(s: seq<byte>)
  {
    forall i :: 0 <= i < |s| ==> s[i] != 0
  }

  predicate NoSlash(s: seq<byte>)
  {
    forall i :: 0 <= i < |s| ==> s[i] != SLASH
  }

  predicate AllSlashes(s: seq<byte>)
  {
    forall i :: 0 <= i < |s| ==> s[i] == SLASH
  }

  // ----- walking -----

  /** The length of the name at the front of p. */
  function NameLen(p: seq<byte>): (n: nat)
    ensures n <= |p| && NoSlash(p[..n])
    ensures n < |p| ==> p[n] == SLASH
  {
    if p == [] || p[0] == SLASH then 0 else
      var n := 1 + NameLen(p[1..]);
      assert forall i :: 1 <= i < n ==> p[i] == p[1..][i - 1];
      n
  }

  /** The number of slashes at the front of p. */
  function SlashLen(p: seq<byte>): (n: nat)
    ensures n <= |p| && AllSlashes(p[..n])
    ensures n < |p| ==> p[n] != SLASH
  {
    if p == [] || p[0] != SLASH then 0 else
      var n := 1 + SlashLen(p[1..]);
      assert forall i :: 1 <= i < n ==> p[i] == p[1..][i - 1];
      n
  }

  function Head(p: seq<byte>): Name
  {
    p[..NameLen(p)]
  }

  /** What is left of p after its first name and the slashes behind it. */
  function Rest(p: seq<byte>): (r: seq<byte>)
    ensures p != [] ==> |r| < |p|
  {
    var q := p[NameLen(p)..];
    q[SlashLen(q)..]
  }

  /** The names `fs_lookup` looks up, after the leading slash of the path was skipped. */
  function Names(p: seq<byte>): seq<Name>
    decreases |p|
  {
    if p == [] then [] else [Head(p)] + Names(Rest(p))
  }

  // ----- splitting -----

  /** Walk back from index i over slashes, but not past index 0. */
  function LastNonSlash(p: seq<byte>, i: nat): (r: nat)
    requires i < |p|
    ensures r <= i && forall k :: r < k <= i ==> p[k] == SLASH
    ensures r != 0 ==> p[r] != SLASH
    decreases i
  {
    if i != 0 && p[i] == SLASH then LastNonSlash(p, i - 1) else i
  }

  /** Walk back from index i to the start of the name that ends there. */
  function NameStart(p: seq<byte>, i: nat): (r: nat)
    requires i < |p|
    ensures r <= i + 1 && forall k :: r <= k <= i ==> p[k] != SLASH
    ensures r == 0 || p[r - 1] == SLASH
    decreases i
  {
    if p[i] == SLASH then i + 1 else if i == 0 then 0 else NameStart(p, i - 1)
  }

  datatype Split = NoName | Split(parent: seq<byte>, name: Name)

  /** `getname` */
  function GetName(p: seq<byte>): (r: Split)
    ensures r.Split? ==> |r.name| < MAXNAME && r.parent <= p
  {
    if p == [] then NoName
    else
      var e := LastNonSlash(p, |p| - 1);
      if e == 0 && |p| != 1 then NoName
      else
        var s := NameStart(p, e);
        if e + 1 - s > MAXNAME - 1 then NoName
        else Split(p[..s], p[s..e + 1])
  }

  /** `getname` cuts the path: what it returns as parent, then the name, then nothing but slashes. The
      name has no slash, and the parent ends in one unless it is empty. */
  lemma SplitIsCut(p: seq<byte>)
    requires GetName(p).Split?
    ensures var s := GetName(p); var k := |s.parent| + |s.name|;
      && k <= |p| && s.parent + s.name == p[..k] && AllSlashes(p[k..]) && NoSlash(s.name)
      && (s.parent != [] ==> s.parent[|s.parent| - 1] == '/' as int)
  {
    var e := LastNonSlash(p, |p| - 1);
    var b := NameStart(p, e);
    assert p[..b] + p[b..e + 1] == p[..e + 1];
  }

  // ----- splitting agrees with walking -----

  lemma {:induction false} NameLenPrefix(a: seq<byte>, b: seq<byte>)
    requires !NoSlash(a)
    ensures NameLen(a + b) == NameLen(a) < |a|
  {
    var i :| 0 <= i < |a| && a[i] == SLASH;
    if a[0] != SLASH {
      assert a[1..][i - 1] == SLASH;
      assert (a + b)[1..] == a[1..] + b;
      NameLenPrefix(a[1..], b);
    }
  }

  lemma {:induction false} NameLenWhole(a: seq<byte>, b: seq<byte>)
    requires NoSlash(a) && (b == [] || b[0] == SLASH)
    ensures NameLen(a + b) == |a|
  {
    if a == [] {
      assert a + b == b;
    } else {
      assert (a + b)[1..] == a[1..] + b;
      NameLenWhole(a[1..], b);
    }
  }

  lemma {:induction false} SlashLenAll(a: seq<byte>, b: seq<byte>)
    requires AllSlashes(a) && (b == [] || b[0] != SLASH)
    ensures SlashLen(a + b) == |a|
  {
    if a == [] {
      assert a + b == b;
    } else {
      assert (a + b)[1..] == a[1..] + b;
      SlashLenAll(a[1..], b);
    }
  }

  lemma {:induction false} SlashLenPrefix(a: seq<byte>, b: seq<byte>)
    requires !AllSlashes(a)
    ensures SlashLen(a + b) == SlashLen(a) < |a|
  {
    var i :| 0 <= i < |a| && a[i] != SLASH;
    if a[0] == SLASH {
      assert a[1..][i - 1] != SLASH;
      assert (a + b)[1..] == a[1..] + b;
      SlashLenPrefix(a[1..], b);
    }
  }

  predicate EndsInSlash(a: seq<byte>)
  {
    a == [] || a[|a| - 1] == SLASH
  }

  /** The rest of a path that continues behind a. */
  lemma RestPrefix(a: seq<byte>, w: seq<byte>)
    requires a != [] && EndsInSlash(a) && w != [] && w[0] != SLASH
    ensures Head(a + w) == Head(a) && Rest(a + w) == Rest(a) + w && EndsInSlash(Rest(a))
  {
    hide NameLen, SlashLen;
    assert a[|a| - 1] == SLASH;
    NameLenPrefix(a, w);
    var k := NameLen(a);
    DropSlashes(a[k..], w);
    CutAt(a, w, k);
  }

  lemma CutAt(a: seq<byte>, w: seq<byte>, k: nat)
    requires k <= |a|
    ensures (a + w)[k..] == a[k..] + w && (a + w)[..k] == a[..k]
  {
  }

  lemma DropSlashes(q: seq<byte>, w: seq<byte>)
    requires q != [] && q[|q| - 1] == SLASH && w != [] && w[0] != SLASH
    ensures (q + w)[SlashLen(q + w)..] == q[SlashLen(q)..] + w && EndsInSlash(q[SlashLen(q)..])
  {
    if AllSlashes(q) {
      SlashLenAll(q, w);
      SlashLenAll(q, []);
      assert q + [] == q;
      assert (q + w)[|q|..] == w == q[|q|..] + w;
    } else {
      SlashLenPrefix(q, w);
      assert (q + w)[SlashLen(q)..] == q[SlashLen(q)..] + w;
      assert q[|q| - 1] == SLASH;
    }
  }

  /** A trailing name, with any run of slashes behind it, is the last name walked. */
  lemma {:induction false} NamesAppend(a: seq<byte>, n: Name, z: seq<byte>)
    requires EndsInSlash(a) && n != [] && NoSlash(n) && AllSlashes(z)
    ensures Names(a + n + z) == Names(a) + [n]
    decreases |a|
  {
    var p := a + n + z;
    hide Head, Rest, NameLen, SlashLen;
    if a == [] {
      LastName(n, z);
      assert p == n + z;
      assert Names(p) == [n] + Names([]);
    } else {
      assert p == a + (n + z) && Rest(a) + (n + z) == Rest(a) + n + z;
      RestPrefix(a, n + z);
      NamesAppend(Rest(a), n, z);
      assert [Head(a)] + (Names(Rest(a)) + [n]) == ([Head(a)] + Names(Rest(a))) + [n];
    }
  }

  lemma LastName(n: Name, z: seq<byte>)
    requires n != [] && NoSlash(n) && AllSlashes(z)
    ensures Head(n + z) == n && Rest(n + z) == []
  {
    NameLenWhole(n, z);
    assert (n + z)[|n|..] == z;
    SlashLenAll(z, []);
    assert z + [] == z;
  }

  /** The name between the two bounds that `getname` finds is the last one a walk looks up. */
  lemma WalkedLast(p: seq<byte>)
    requires p != [] && p[0] == SLASH && LastNonSlash(p, |p| - 1) != 0
    ensures var e := LastNonSlash(p, |p| - 1); var b := NameStart(p, e);
      && 1 <= b <= e && NoSlash(p[b..e + 1])
      && Names(p[1..]) == Names(p[1..b]) + [p[b..e + 1]]
  {
    hide Names, LastNonSlash, NameStart;
    var e := LastNonSlash(p, |p| - 1);
    var b := NameStart(p, e);
    assert b <= e && b != 0;
    SplitPieces(p, b, e);
    NamesAppend(p[1..b], p[b..e + 1], p[e + 1..]);
  }

  /** Whenever `getname` splits an absolute path other than "/", walking the path looks up
      the names of the parent and then the name. */
  lemma SplitAgreesWithWalk(p: seq<byte>)
    requires p != [] && p[0] == SLASH && p != [SLASH] && GetName(p).Split?
    ensures var s := GetName(p);
      && s.name != [] && NoSlash(s.name) && |s.name| < MAXNAME
      && s.parent != [] && s.parent[0] == SLASH
      && Names(p[1..]) == Names(s.parent[1..]) + [s.name]
  {
    hide Names, LastNonSlash, NameStart;
    assert LastNonSlash(p, |p| - 1) != 0;
    WalkedLast(p);
    var b := NameStart(p, LastNonSlash(p, |p| - 1));
    assert p[..b][1..] == p[1..b];
  }

  lemma SplitPieces(p: seq<byte>, b: nat, e: nat)
    requires 1 <= b <= e < |p| && p[b - 1] == SLASH
    requires forall k :: e < k < |p| ==> p[k] == SLASH
    requires forall k :: b <= k <= e ==> p[k] != SLASH
    ensures p[1..] == p[1..b] + p[b..e + 1] + p[e + 1..]
    ensures EndsInSlash(p[1..b]) && NoSlash(p[b..e + 1]) && AllSlashes(p[e + 1..])
  {
  }
}

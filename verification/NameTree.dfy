/** The tree of names that the directories hold, apart from any disk. */
module NameTree {
  import opened Layout
  import opened Path

  datatype Entry = Entry(inum: nat, name: Name)

  /** An inode as far as names go: a type, a link count, and the records of a directory. */
  datatype Node = Node(typ: nat, links: nat, list: seq<Entry>)

  type Space = s: seq<Node> | |s| == NINODES
    witness seq(NINODES, _ => Node(0, 0, []))

  /** Where the record that names an inode is. */
  datatype Place = Place(dir: nat, idx: nat)

  type Places = map<nat, Place>
  type Depths = map<nat, nat>

  /** A name fits a record. It may be empty: that is the name `fs_mknod` records for "/". */
  predicate GoodName(name: Name)
  {
    |name| < MAXNAME && CString(name) && NoSlash(name)
  }

  predicate IsDir(s: Space, n: nat)
  {
    n < NINODES && s[n].typ == T_DIR
  }

  predicate Live(s: Space, n: nat)
  {
    n < NINODES && s[n].typ != 0
  }

  predicate At(s: Space, p: Place, m: nat)
  {
    IsDir(s, p.dir) && p.idx < |s[p.dir].list| && s[p.dir].list[p.idx].inum == m
  }

  /** Inode 0 is an empty directory that stands for no inode, inode 1 is the root. */
  ghost predicate Reserved(s: Space, dep: Depths)
  {
    && s[0] == Node(T_DIR, 0, [])
    && IsDir(s, ROOTINUM)
    && ROOTINUM in dep && dep[ROOTINUM] == 0
    && forall n | 0 <= n < NINODES && s[n].typ != T_DIR :: s[n].list == []
  }

  /** Every record names a live inode, and is the one place that does. */
  ghost predicate RecordsSound(s: Space, par: Places)
  {
    forall n, i {:trigger s[n].list[i]} | 0 <= n < NINODES && 0 <= i < |s[n].list| ::
      var e := s[n].list[i];
      GoodName(e.name) && 2 <= e.inum && Live(s, e.inum) && e.inum in par && par[e.inum] == Place(n, i)
  }

  /** Every live inode other than 0 and 1 has a record, link count 1, and is one level below its directory. */
  ghost predicate LiveNamed(s: Space, par: Places, dep: Depths)
  {
    forall m | 2 <= m < NINODES && Live(s, m) ::
      && m in par && At(s, par[m], m) && s[m].links == 1
      && m in dep && par[m].dir in dep && dep[m] == dep[par[m].dir] + 1
  }

  ghost predicate NamesDistinct(s: Space)
  {
    forall n, i, j {:trigger s[n].list[i], s[n].list[j]} |
      0 <= n < NINODES && 0 <= i < j < |s[n].list| :: s[n].list[i].name != s[n].list[j].name
  }

  ghost predicate WellNamed(s: Space, par: Places, dep: Depths)
  {
    Reserved(s, dep) && RecordsSound(s, par) && LiveNamed(s, par, dep) && NamesDistinct(s)
  }

  // ----- looking names up -----

  function Find(list: seq<Entry>, name: Name, i: nat): (r: nat)
    requires i <= |list|
    ensures i <= r <= |list|
    ensures r < |list| ==> list[r].name == name
    ensures forall j :: i <= j < r ==> list[j].name != name
    decreases |list| - i
  {
    if i == |list| || list[i].name == name then i else Find(list, name, i + 1)
  }

  function Lookup(s: Space, n: nat, name: Name): nat
  {
    if !IsDir(s, n) then NULLINUM
    else
      var r := Find(s[n].list, name, 0);
      if r < |s[n].list| then s[n].list[r].inum else NULLINUM
  }

  function Walk(s: Space, n: nat, names: seq<Name>): nat
    decreases |names|
  {
    if names == [] then n
    else
      var m := Lookup(s, n, names[0]);
      if m == NULLINUM then NULLINUM else Walk(s, m, names[1..])
  }

  // ----- every live inode is found, at one path -----

  lemma LookupPlace(s: Space, par: Places, dep: Depths, n: nat, name: Name)
    requires WellNamed(s, par, dep) && Lookup(s, n, name) != 0
    ensures var m := Lookup(s, n, name);
      && 2 <= m < NINODES && Live(s, m) && m in par && par[m].dir == n && n != 0
      && At(s, par[m], m) && s[n].list[par[m].idx].name == name
  {
    var r := Find(s[n].list, name, 0);
    assert s[n].list[r].inum == Lookup(s, n, name);
  }

  lemma PlaceLookup(s: Space, par: Places, dep: Depths, m: nat)
    requires WellNamed(s, par, dep) && 2 <= m < NINODES && Live(s, m)
    ensures m in par && At(s, par[m], m) && Lookup(s, par[m].dir, s[par[m].dir].list[par[m].idx].name) == m
  {
    var p := par[m];
    var list := s[p.dir].list;
    var r := Find(list, list[p.idx].name, 0);
    assert r <= p.idx;
    assert list[r].name == list[p.idx].name;
  }

  lemma {:induction false} WalkSplit(s: Space, n: nat, a: seq<Name>, x: Name)
    ensures Walk(s, n, a + [x]) ==
      if Walk(s, n, a) == NULLINUM && a != [] then NULLINUM
      else Lookup(s, Walk(s, n, a), x)
    decreases |a|
  {
    if a == [] {
      assert a + [x] == [x];
      assert Walk(s, n, [x]) == Lookup(s, n, x) by {
        var m := Lookup(s, n, x);
        assert [x][1..] == [];
      }
    } else {
      assert (a + [x])[1..] == a[1..] + [x];
      var m := Lookup(s, n, a[0]);
      if m != NULLINUM {
        WalkSplit(s, m, a[1..], x);
        if a[1..] == [] {
          assert Walk(s, m, a[1..]) == m;
        }
      }
    }
  }

  /** Names lead from the root to every live inode: there are no cycles and no orphans. */
  lemma {:induction false} Reachable(s: Space, par: Places, dep: Depths, m: nat) returns (names: seq<Name>)
    requires WellNamed(s, par, dep) && 1 <= m < NINODES && Live(s, m)
    ensures Walk(s, ROOTINUM, names) == m
    decreases if m in dep then dep[m] else 0
  {
    if m == ROOTINUM {
      names := [];
    } else {
      assert m in par && At(s, par[m], m) && par[m].dir in dep;
      var p := par[m];
      assert s[p.dir].list[p.idx].inum == m;
      names := Reachable(s, par, dep, p.dir);
      PlaceLookup(s, par, dep, m);
      var x := s[p.dir].list[p.idx].name;
      WalkSplit(s, ROOTINUM, names, x);
      names := names + [x];
    }
  }

  lemma {:induction false} WalkLive(s: Space, par: Places, dep: Depths, n: nat, a: seq<Name>)
    requires WellNamed(s, par, dep) && 1 <= n < NINODES && Live(s, n)
    ensures Walk(s, n, a) != NULLINUM ==> 1 <= Walk(s, n, a) < NINODES && Live(s, Walk(s, n, a))
    decreases |a|
  {
    if a != [] && Lookup(s, n, a[0]) != NULLINUM {
      LookupPlace(s, par, dep, n, a[0]);
      WalkLive(s, par, dep, Lookup(s, n, a[0]), a[1..]);
    }
  }

  /** The last step of a walk from the root. */
  lemma WalkLast(s: Space, par: Places, dep: Depths, a: seq<Name>)
    requires WellNamed(s, par, dep) && a != [] && Walk(s, ROOTINUM, a) != NULLINUM
    ensures var m, up := Walk(s, ROOTINUM, a), Walk(s, ROOTINUM, a[..|a| - 1]);
      && 2 <= m < NINODES && Live(s, m) && m in par && At(s, par[m], m)
      && up == par[m].dir != NULLINUM && a[|a| - 1] == s[up].list[par[m].idx].name
  {
    var b, x := a[..|a| - 1], a[|a| - 1];
    assert a == b + [x];
    WalkSplit(s, ROOTINUM, b, x);
    LookupPlace(s, par, dep, Walk(s, ROOTINUM, b), x);
  }

  /** No two lists of names lead to the same inode. */
  lemma {:induction false} WalkUnique(s: Space, par: Places, dep: Depths, a: seq<Name>, b: seq<Name>)
    requires WellNamed(s, par, dep) && Walk(s, ROOTINUM, a) == Walk(s, ROOTINUM, b) != NULLINUM
    ensures a == b
    decreases |a|
  {
    if a == [] && b == [] {
    } else if a == [] {
      WalkLast(s, par, dep, b);
    } else if b == [] {
      WalkLast(s, par, dep, a);
    } else {
      WalkLast(s, par, dep, a);
      WalkLast(s, par, dep, b);
      WalkUnique(s, par, dep, a[..|a| - 1], b[..|b| - 1]);
      assert a == a[..|a| - 1] + [a[|a| - 1]];
      assert b == b[..|b| - 1] + [b[|b| - 1]];
    }
  }

  // ----- adding a name -----

  ghost predicate CanAdd(s: Space, n: nat, name: Name, m: nat, typ: nat)
  {
    && 1 <= n && IsDir(s, n) && GoodName(name) && Lookup(s, n, name) == NULLINUM
    && 2 <= m < NINODES && !Live(s, m) && typ != 0
  }

  /** The space after inode m of the given type was recorded under name in directory n. */
  function Added(s: Space, n: nat, name: Name, m: nat, typ: nat): Space
    requires n < NINODES && m < NINODES
  {
    s[n := Node(s[n].typ, s[n].links, s[n].list + [Entry(m, name)])][m := Node(typ, 1, [])]
  }

  lemma DirPlaced(s: Space, par: Places, dep: Depths, n: nat)
    requires WellNamed(s, par, dep) && 1 <= n < NINODES && Live(s, n)
    ensures n in dep
  {
  }

  lemma FreshName(s: Space, par: Places, n: nat, name: Name)
    requires RecordsSound(s, par) && IsDir(s, n) && Lookup(s, n, name) == NULLINUM
    ensures Find(s[n].list, name, 0) == |s[n].list|
  {
    assert forall i :: 0 <= i < |s[n].list| ==> s[n].list[i].inum >= 2;
  }

  lemma AddedRecords(s: Space, par: Places, dep: Depths, n: nat, name: Name, m: nat, typ: nat)
    requires WellNamed(s, par, dep) && CanAdd(s, n, name, m, typ)
    ensures RecordsSound(Added(s, n, name, m, typ), par[m := Place(n, |s[n].list|)])
    ensures NamesDistinct(Added(s, n, name, m, typ))
  {
    var t, par' := Added(s, n, name, m, typ), par[m := Place(n, |s[n].list|)];
    assert s[m].list == [];
    forall k, i {:trigger t[k].list[i]} | 0 <= k < NINODES && 0 <= i < |t[k].list|
      ensures var e := t[k].list[i];
        GoodName(e.name) && 2 <= e.inum && Live(t, e.inum) && e.inum in par' && par'[e.inum] == Place(k, i)
    {
      if k != n || i < |s[n].list| {
        assert t[k].list[i] == s[k].list[i];
      }
    }
    FreshName(s, par, n, name);
    forall k, i, j {:trigger t[k].list[i], t[k].list[j]} | 0 <= k < NINODES && 0 <= i < j < |t[k].list|
      ensures t[k].list[i].name != t[k].list[j].name
    {
      assert t[k].list[i] == s[k].list[i];
      if k != n || j < |s[n].list| {
        assert t[k].list[j] == s[k].list[j];
      }
    }
  }

  /** Adding a new name for a new inode keeps the tree. */
  lemma AddedWellNamed(s: Space, par: Places, dep: Depths, n: nat, name: Name, m: nat, typ: nat)
    requires WellNamed(s, par, dep) && CanAdd(s, n, name, m, typ)
    ensures n in dep
    ensures WellNamed(Added(s, n, name, m, typ), par[m := Place(n, |s[n].list|)], dep[m := dep[n] + 1])
  {
    DirPlaced(s, par, dep, n);
    AddedRecords(s, par, dep, n, name, m, typ);
    var t, par', dep' := Added(s, n, name, m, typ), par[m := Place(n, |s[n].list|)], dep[m := dep[n] + 1];
    forall k | 2 <= k < NINODES && Live(t, k)
      ensures k in par' && At(t, par'[k], k) && t[k].links == 1
           && k in dep' && par'[k].dir in dep' && dep'[k] == dep'[par'[k].dir] + 1
    {
      if k != m {
        assert Live(s, k);
        assert At(s, par[k], k);
        assert par[k].dir != m;
      }
    }
  }

  lemma {:induction false} FindAppend(list: seq<Entry>, e: Entry, name: Name, i: nat)
    requires i <= |list|
    ensures Find(list + [e], name, i) ==
      if Find(list, name, i) < |list| then Find(list, name, i)
      else if e.name == name then |list| else |list| + 1
    decreases |list| - i
  {
    if i < |list| && list[i].name != name {
      FindAppend(list, e, name, i + 1);
    }
  }

  lemma AddedLookup(s: Space, par: Places, dep: Depths, n: nat, name: Name, m: nat, typ: nat, k: nat, x: Name)
    requires WellNamed(s, par, dep) && CanAdd(s, n, name, m, typ)
    ensures Lookup(Added(s, n, name, m, typ), k, x) == if k == n && x == name then m else Lookup(s, k, x)
  {
    var t := Added(s, n, name, m, typ);
    if k == n {
      FindAppend(s[n].list, Entry(m, name), x, 0);
      FreshName(s, par, n, name);
    }
  }

  lemma {:induction false} AddedWalkKept(s: Space, par: Places, dep: Depths, n: nat, name: Name, m: nat, typ: nat,
                                         k: nat, a: seq<Name>)
    requires WellNamed(s, par, dep) && CanAdd(s, n, name, m, typ) && Walk(s, k, a) != NULLINUM
    ensures Walk(Added(s, n, name, m, typ), k, a) == Walk(s, k, a)
    decreases |a|
  {
    hide WellNamed, Added, Lookup;
    if a != [] {
      AddedLookup(s, par, dep, n, name, m, typ, k, a[0]);
      NotAdded(s, n, name, m, typ, a[0]);
      AddedWalkKept(s, par, dep, n, name, m, typ, Lookup(s, k, a[0]), a[1..]);
    }
  }

  lemma NotAdded(s: Space, n: nat, name: Name, m: nat, typ: nat, x: Name)
    requires CanAdd(s, n, name, m, typ)
    ensures x == name ==> Lookup(s, n, x) == NULLINUM
  {
  }

  lemma AddedFound(s: Space, par: Places, dep: Depths, n: nat, name: Name, m: nat, typ: nat, up: seq<Name>)
    requires WellNamed(s, par, dep) && CanAdd(s, n, name, m, typ) && Walk(s, ROOTINUM, up) == n
    ensures Walk(s, ROOTINUM, up + [name]) == NULLINUM
    ensures Walk(Added(s, n, name, m, typ), ROOTINUM, up + [name]) == m
  {
    assert 1 <= n && m != NULLINUM;
    NotAdded(s, n, name, m, typ, name);
    hide WellNamed, Added, Lookup, CanAdd;
    AddedWalkKept(s, par, dep, n, name, m, typ, ROOTINUM, up);
    WalkSplit(s, ROOTINUM, up, name);
    WalkSplit(Added(s, n, name, m, typ), ROOTINUM, up, name);
    AddedLookup(s, par, dep, n, name, m, typ, n, name);
  }

  /** After the addition exactly one more list of names leads somewhere: the parent's with the new name. */
  lemma AddedWalk(s: Space, par: Places, dep: Depths, n: nat, name: Name, m: nat, typ: nat, up: seq<Name>, a: seq<Name>)
    requires WellNamed(s, par, dep) && CanAdd(s, n, name, m, typ) && Walk(s, ROOTINUM, up) == n
    ensures Walk(Added(s, n, name, m, typ), ROOTINUM, a) ==
      if a == up + [name] then m else Walk(s, ROOTINUM, a)
  {
    AddedWellNamed(s, par, dep, n, name, m, typ);
    assert m != NULLINUM;
    hide WellNamed, Added, Lookup, CanAdd;
    var t, par', dep' := Added(s, n, name, m, typ), par[m := Place(n, |s[n].list|)], dep[m := dep[n] + 1];
    AddedFound(s, par, dep, n, name, m, typ, up);
    if Walk(s, ROOTINUM, a) != NULLINUM {
      AddedWalkKept(s, par, dep, n, name, m, typ, ROOTINUM, a);
    } else if Walk(t, ROOTINUM, a) != NULLINUM {
      NewWalk(s, par, dep, n, name, m, typ, a);
      WalkUnique(t, par', dep', a, up + [name]);
    }
  }

  /** A list of names that leads somewhere only after the addition leads to the new inode. */
  lemma {:induction false} NewWalk(s: Space, par: Places, dep: Depths, n: nat, name: Name, m: nat, typ: nat,
                                   a: seq<Name>)
    requires WellNamed(s, par, dep) && CanAdd(s, n, name, m, typ)
    requires Walk(s, ROOTINUM, a) == NULLINUM != Walk(Added(s, n, name, m, typ), ROOTINUM, a)
    ensures Walk(Added(s, n, name, m, typ), ROOTINUM, a) == m
    decreases |a|
  {
    var t := Added(s, n, name, m, typ);
    var b, x := a[..|a| - 1], a[|a| - 1];
    assert a == b + [x];
    WalkSplit(s, ROOTINUM, b, x);
    WalkSplit(t, ROOTINUM, b, x);
    if Walk(s, ROOTINUM, b) != NULLINUM {
      AddedWalkKept(s, par, dep, n, name, m, typ, ROOTINUM, b);
      AddedLookup(s, par, dep, n, name, m, typ, Walk(s, ROOTINUM, b), x);
    } else {
      assert b != [];
      NewWalk(s, par, dep, n, name, m, typ, b);
      AddedLookup(s, par, dep, n, name, m, typ, m, x);
    }
  }

  // ----- counting -----

  /** The number of records in the directories below k. */
  function Total(s: Space, k: nat): nat
    requires k <= NINODES
  {
    if k == 0 then 0 else Total(s, k - 1) + |s[k - 1].list|
  }

  /** The inodes with a record among the first i of directory k. */
  function Recorded(s: Space, k: nat, i: nat): set<nat>
    requires k < NINODES && i <= |s[k].list|
  {
    set j | 0 <= j < i :: s[k].list[j].inum
  }

  /** The live inodes named by a directory below k. */
  ghost function NamedBelow(s: Space, par: Places, k: nat): set<nat>
  {
    set m | 2 <= m < NINODES && Live(s, m) && m in par && par[m].dir < k
  }

  lemma {:induction false} RecordedSize(s: Space, par: Places, k: nat, i: nat)
    requires RecordsSound(s, par) && k < NINODES && i <= |s[k].list|
    ensures |Recorded(s, k, i)| == i
  {
    if i > 0 {
      RecordedSize(s, par, k, i - 1);
      var m := s[k].list[i - 1].inum;
      assert Recorded(s, k, i) == Recorded(s, k, i - 1) + {m};
      assert m !in Recorded(s, k, i - 1) by {
        assert par[m] == Place(k, i - 1);
      }
    }
  }

  lemma {:induction false} Census(s: Space, par: Places, dep: Depths, k: nat)
    requires WellNamed(s, par, dep) && k <= NINODES
    ensures |NamedBelow(s, par, k)| == Total(s, k)
  {
    hide WellNamed;
    if k == 0 {
      assert NamedBelow(s, par, 0) == {};
    } else {
      hide NamedBelow, Recorded;
      Census(s, par, dep, k - 1);
      Sound(s, par, dep);
      RecordedSize(s, par, k - 1, |s[k - 1].list|);
      CensusStep(s, par, dep, k - 1);
      AddSizes(NamedBelow(s, par, k - 1), Recorded(s, k - 1, |s[k - 1].list|));
    }
  }

  lemma Sound(s: Space, par: Places, dep: Depths)
    requires WellNamed(s, par, dep)
    ensures RecordsSound(s, par)
  {
  }

  lemma AddSizes(a: set<nat>, b: set<nat>)
    requires a !! b
    ensures |a + b| == |a| + |b|
  {
  }

  /** The inodes a directory names are new to those named by the directories before it. */
  lemma CensusStep(s: Space, par: Places, dep: Depths, k: nat)
    requires WellNamed(s, par, dep) && k < NINODES
    ensures NamedBelow(s, par, k + 1) == NamedBelow(s, par, k) + Recorded(s, k, |s[k].list|)
    ensures NamedBelow(s, par, k) !! Recorded(s, k, |s[k].list|)
  {
    hide Reserved, NamesDistinct;
    var a, b, r := NamedBelow(s, par, k), NamedBelow(s, par, k + 1), Recorded(s, k, |s[k].list|);
    forall m | m in r ensures m in b && m !in a {
      RecordedHere(s, par, k, m);
    }
    forall m | m in b && m !in a ensures m in r {
      assert At(s, par[m], m);
      assert s[k].list[par[m].idx].inum == m;
    }
  }

  lemma RecordedHere(s: Space, par: Places, k: nat, m: nat)
    requires RecordsSound(s, par) && k < NINODES && m in Recorded(s, k, |s[k].list|)
    ensures 2 <= m && Live(s, m) && m in par && par[m].dir == k
  {
    var j :| 0 <= j < |s[k].list| && s[k].list[j].inum == m;
  }

  ghost function LiveSet(s: Space): set<nat>
  {
    set m | 0 <= m < NINODES && Live(s, m)
  }

  /** Over all directories there are two records fewer than live inodes. */
  lemma RecordsCount(s: Space, par: Places, dep: Depths)
    requires WellNamed(s, par, dep)
    ensures Total(s, NINODES) == |LiveSet(s)| - 2
  {
    Census(s, par, dep, NINODES);
    LiveOrReserved(s, par, dep);
    hide WellNamed, LiveSet, NamedBelow, Total;
    TwoMore(LiveSet(s), NamedBelow(s, par, NINODES));
  }

  lemma TwoMore(live: set<nat>, named: set<nat>)
    requires forall m: nat :: m in live <==> m in named || m in {0, 1}
    requires forall m: nat :: m in named ==> m !in {0, 1}
    ensures |live| == |named| + 2
  {
    var two: set<nat> := {0, 1};
    assert live == named + two;
    assert named !! two;
    assert |named + two| == |named| + |two|;
  }

  lemma LiveOrReserved(s: Space, par: Places, dep: Depths)
    requires WellNamed(s, par, dep)
    ensures forall m: nat :: m in LiveSet(s) <==> m in NamedBelow(s, par, NINODES) || m in {0, 1}
    ensures forall m: nat :: m in NamedBelow(s, par, NINODES) ==> m !in {0, 1}
  {
    hide RecordsSound, NamesDistinct;
    forall m | m in LiveSet(s) && m >= 2 ensures m in NamedBelow(s, par, NINODES) {
      assert At(s, par[m], m);
    }
  }

  lemma {:induction false} TotalBounds(s: Space, n: nat, k: nat)
    requires n < k <= NINODES
    ensures |s[n].list| <= Total(s, k)
  {
    if n < k - 1 {
      TotalBounds(s, n, k - 1);
    }
  }

  lemma {:induction false} Below(n: nat, a: set<nat>)
    requires forall m | m in a :: m < n
    ensures |a| <= n
  {
    if n == 0 {
      assert a == {};
    } else if n - 1 in a {
      Below(n - 1, a - {n - 1});
    } else {
      Below(n - 1, a);
    }
  }

  /** No directory can hold more records than there are inodes to name. */
  lemma DirectoryBound(s: Space, par: Places, dep: Depths, n: nat)
    requires WellNamed(s, par, dep) && n < NINODES
    ensures |s[n].list| <= NINODES - 2
  {
    RecordsCount(s, par, dep);
    Below(NINODES, LiveSet(s));
    TotalBounds(s, n, NINODES);
  }
}

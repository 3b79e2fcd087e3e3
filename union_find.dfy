/** A disjoint-set forest with path compression, union by rank and a size
    count at each root, kept in three maps. */
module UnionFind {
  /** The parent of a registered element. It is a function of its own so that
      the quantifiers about the forest have a term to hang on. */
  function ParentOf<T>(parent: map<T, T>, x: T): T
    requires x in parent
  {
    parent[x]
  }

  /** `parent` and `rank` are defined on the same elements, every parent is
      itself registered, and the rank strictly increases along every parent
      link that is not a root's link to itself. */
  ghost predicate Forest<T>(parent: map<T, T>, rank: map<T, nat>) {
    && parent.Keys == rank.Keys
    && (forall x {:trigger ParentOf(parent, x)} :: x in parent ==> ParentOf(parent, x) in parent)
    && (forall x {:trigger ParentOf(parent, x)} :: x in parent && ParentOf(parent, x) != x ==> rank[x] < rank[ParentOf(parent, x)])
  }

  /** The elements of higher rank than `x`: this set shrinks at every step
      up a parent link, so it serves as the measure of every walk up. */
  ghost function Above<T>(rank: map<T, nat>, x: T): set<T>
    requires x in rank
  {
    set y | y in rank && rank[x] < rank[y]
  }

  lemma AboveShrinks<T>(rank: map<T, nat>, x: T, p: T)
    requires x in rank && p in rank && rank[x] < rank[p]
    ensures Above(rank, p) < Above(rank, x)
  {
    assert p in Above(rank, x) - Above(rank, p);
  }

  /** The root reached from `x` by following parent links. */
  ghost function Root<T>(parent: map<T, T>, rank: map<T, nat>, x: T): (r: T)
    requires Forest(parent, rank) && x in parent
    ensures r in parent && ParentOf(parent, r) == r
    ensures r == x || rank[x] < rank[r]
    decreases Above(rank, x)
  {
    var p := ParentOf(parent, x);
    if p == x then x
    else
      AboveShrinks(rank, x, p);
      Root(parent, rank, p)
  }

  lemma RootIsSelf<T>(parent: map<T, T>, rank: map<T, nat>, y: T)
    requires Forest(parent, rank) && y in parent
    ensures Root(parent, rank, y) == y <==> ParentOf(parent, y) == y
  {
  }

  /** The parent map after `find(x)`: every element on the way from `x` up
      points straight at the root, in the order the recursion sets them. */
  ghost function Compress<T>(parent: map<T, T>, rank: map<T, nat>, x: T): (c: map<T, T>)
    requires Forest(parent, rank) && x in parent
    ensures c.Keys == parent.Keys
    decreases Above(rank, x)
  {
    var p := ParentOf(parent, x);
    if p == x then parent
    else
      AboveShrinks(rank, x, p);
      Compress(parent, rank, p)[x := Root(parent, rank, x)]
  }

  /** Pointing one element straight at its root keeps a forest ... */
  lemma ShortcutIsForest<T>(m: map<T, T>, rank: map<T, nat>, x: T)
    requires Forest(m, rank) && x in m
    ensures Forest(m[x := Root(m, rank, x)], rank)
  {
    var m' := m[x := Root(m, rank, x)];
    forall y | y in m'
      ensures ParentOf(m', y) in m' && (ParentOf(m', y) != y ==> rank[y] < rank[ParentOf(m', y)])
    {
      if y != x {
        assert ParentOf(m', y) == ParentOf(m, y);
      }
    }
  }

  /** ... and keeps every element's root. */
  lemma {:induction false} ShortcutKeepsRoot<T>(m: map<T, T>, rank: map<T, nat>, x: T, z: T)
    requires Forest(m, rank) && x in m && z in m
    ensures Forest(m[x := Root(m, rank, x)], rank)
    ensures Root(m[x := Root(m, rank, x)], rank, z) == Root(m, rank, z)
    decreases Above(rank, z)
  {
    var r := Root(m, rank, x);
    var m' := m[x := r];
    ShortcutIsForest(m, rank, x);
    var p := ParentOf(m, z);
    if z == x {
      assert ParentOf(m', r) == r;
    } else if p != z {
      assert ParentOf(m', z) == p;
      AboveShrinks(rank, z, p);
      ShortcutKeepsRoot(m, rank, x, p);
    } else {
      assert ParentOf(m', z) == z;
    }
  }

  /** Path compression keeps a forest and moves no element to another set. */
  lemma {:induction false} CompressKeepsRoots<T>(parent: map<T, T>, rank: map<T, nat>, x: T)
    requires Forest(parent, rank) && x in parent
    ensures Forest(Compress(parent, rank, x), rank)
    ensures forall z {:trigger Root(parent, rank, z)} :: z in parent ==> Root(Compress(parent, rank, x), rank, z) == Root(parent, rank, z)
    decreases Above(rank, x)
  {
    var p := ParentOf(parent, x);
    if p != x {
      AboveShrinks(rank, x, p);
      CompressKeepsRoots(parent, rank, p);
      var c := Compress(parent, rank, p);
      assert Root(c, rank, x) == Root(parent, rank, x) by {
        assert Root(c, rank, p) == Root(parent, rank, p);
      }
      ShortcutIsForest(c, rank, x);
      forall z | z in parent
        ensures Root(c[x := Root(c, rank, x)], rank, z) == Root(parent, rank, z)
      {
        ShortcutKeepsRoot(c, rank, x, z);
      }
    }
  }

  /** The elements on the way from `x` up to its root, both included. */
  ghost function Path<T>(parent: map<T, T>, rank: map<T, nat>, x: T): (p: set<T>)
    requires Forest(parent, rank) && x in parent
    ensures x in p && p <= parent.Keys
    decreases Above(rank, x)
  {
    var q := ParentOf(parent, x);
    if q == x then {x}
    else
      AboveShrinks(rank, x, q);
      {x} + Path(parent, rank, q)
  }

  /** After `find(x)`, the elements on `x`'s path point at its root and every
      other element points where it did. */
  lemma {:induction false} CompressShape<T>(parent: map<T, T>, rank: map<T, nat>, x: T)
    requires Forest(parent, rank) && x in parent
    ensures forall y {:trigger Compress(parent, rank, x)[y]} :: y in parent ==>
      Compress(parent, rank, x)[y] == if y in Path(parent, rank, x) then Root(parent, rank, x) else parent[y]
    decreases Above(rank, x)
  {
    var p := ParentOf(parent, x);
    if p != x {
      AboveShrinks(rank, x, p);
      CompressShape(parent, rank, p);
    }
  }

  /** The two finds at the start of `union` keep every root and leave both
      roots pointing at themselves. */
  lemma FindBothKeepsRoots<T>(parent: map<T, T>, rank: map<T, nat>, x: T, y: T)
    requires Forest(parent, rank) && x in parent && y in parent
    ensures Forest(Compress(parent, rank, x), rank)
    ensures Root(Compress(parent, rank, x), rank, y) == Root(parent, rank, y)
    ensures var p2 := Compress(Compress(parent, rank, x), rank, y);
      && Forest(p2, rank)
      && (forall z {:trigger Root(parent, rank, z)} :: z in parent ==> Root(p2, rank, z) == Root(parent, rank, z))
      && ParentOf(p2, Root(parent, rank, x)) == Root(parent, rank, x)
      && ParentOf(p2, Root(parent, rank, y)) == Root(parent, rank, y)
  {
    var p1 := Compress(parent, rank, x);
    CompressKeepsRoots(parent, rank, x);
    CompressKeepsRoots(p1, rank, y);
    var p2 := Compress(p1, rank, y);
    RootIsSelf(p2, rank, Root(parent, rank, x));
    RootIsSelf(p2, rank, Root(parent, rank, y));
  }

  /** The elements of the set rooted at `r`. */
  ghost function Members<T>(parent: map<T, T>, rank: map<T, nat>, r: T): set<T>
    requires Forest(parent, rank)
  {
    set z | z in parent && Root(parent, rank, z) == r
  }

  /** `size` is registered for the same elements, and at every root it holds
      the number of elements in that root's set (0 at any other element, whose
      set of members is empty). */
  ghost predicate Counted<T>(parent: map<T, T>, rank: map<T, nat>, size: map<T, nat>)
    requires Forest(parent, rank)
  {
    && size.Keys == parent.Keys
    && forall r {:trigger size[r]} :: r in size ==> size[r] == |Members(parent, rank, r)|
  }

  /** Registering a new element as a root of rank 0 keeps a forest, keeps
      every root, and starts a set of one. */
  lemma AddIsForest<T>(parent: map<T, T>, rank: map<T, nat>, x: T)
    requires Forest(parent, rank) && x !in parent
    ensures Forest(parent[x := x], rank[x := 0])
  {
    var parent', rank' := parent[x := x], rank[x := 0];
    forall y | y in parent'
      ensures ParentOf(parent', y) in parent' && (ParentOf(parent', y) != y ==> rank'[y] < rank'[ParentOf(parent', y)])
    {
      if y != x {
        assert ParentOf(parent', y) == ParentOf(parent, y);
      }
    }
  }

  lemma {:induction false} AddKeepsRoot<T>(parent: map<T, T>, rank: map<T, nat>, x: T, z: T)
    requires Forest(parent, rank) && x !in parent && z in parent
    ensures Forest(parent[x := x], rank[x := 0])
    ensures Root(parent[x := x], rank[x := 0], z) == Root(parent, rank, z)
    decreases Above(rank, z)
  {
    AddIsForest(parent, rank, x);
    var p := ParentOf(parent, z);
    assert ParentOf(parent[x := x], z) == p;
    if p != z {
      AboveShrinks(rank, z, p);
      AddKeepsRoot(parent, rank, x, p);
    }
  }

  lemma AddKeepsMembers<T>(parent: map<T, T>, rank: map<T, nat>, x: T, r: T)
    requires Forest(parent, rank) && x !in parent
    ensures Forest(parent[x := x], rank[x := 0])
    ensures Members(parent[x := x], rank[x := 0], r) == if r == x then {x} else Members(parent, rank, r)
  {
    var parent', rank' := parent[x := x], rank[x := 0];
    AddIsForest(parent, rank, x);
    assert ParentOf(parent', x) == x;
    var m', m := Members(parent', rank', r), if r == x then {x} else Members(parent, rank, r);
    forall z
      ensures z in m' <==> z in m
    {
      if z in parent {
        AddKeepsRoot(parent, rank, x, z);
      }
    }
    assert m' == m;
  }

  lemma AddKeepsRoots<T>(parent: map<T, T>, rank: map<T, nat>, x: T)
    requires Forest(parent, rank) && x !in parent
    ensures Forest(parent[x := x], rank[x := 0])
    ensures Root(parent[x := x], rank[x := 0], x) == x
    ensures forall z {:trigger Root(parent, rank, z)} :: z in parent ==> Root(parent[x := x], rank[x := 0], z) == Root(parent, rank, z)
  {
    AddIsForest(parent, rank, x);
    assert ParentOf(parent[x := x], x) == x;
    forall z | z in parent
      ensures Root(parent[x := x], rank[x := 0], z) == Root(parent, rank, z)
    {
      AddKeepsRoot(parent, rank, x, z);
    }
  }

  lemma AddKeepsCounted<T>(parent: map<T, T>, rank: map<T, nat>, size: map<T, nat>, x: T)
    requires Forest(parent, rank) && Counted(parent, rank, size) && x !in parent
    ensures Forest(parent[x := x], rank[x := 0])
    ensures Counted(parent[x := x], rank[x := 0], size[x := 1])
  {
    var parent', rank', size' := parent[x := x], rank[x := 0], size[x := 1];
    AddIsForest(parent, rank, x);
    forall r | r in size'
      ensures size'[r] == |Members(parent', rank', r)|
    {
      AddKeepsMembers(parent, rank, x, r);
    }
    assert size'.Keys == parent'.Keys;
  }

  /** `parent1`/`rank1` is a forest over the same elements as `parent0`/`rank0`
      in which the sets rooted at `xr` and `yr` have become one, rooted at
      whichever of the two had the higher rank (`yr` on a tie), and every
      other set is as it was. */
  ghost predicate Merged<T>(parent0: map<T, T>, rank0: map<T, nat>, parent1: map<T, T>, rank1: map<T, nat>, xr: T, yr: T)
    requires Forest(parent0, rank0) && xr in rank0 && yr in rank0
  {
    var w := if rank0[xr] > rank0[yr] then xr else yr;
    && Forest(parent1, rank1)
    && parent1.Keys == parent0.Keys
    && forall z {:trigger Root(parent0, rank0, z)} :: z in parent0 ==>
         Root(parent1, rank1, z) == if Root(parent0, rank0, z) == xr || Root(parent0, rank0, z) == yr then w else Root(parent0, rank0, z)
  }

  /** The parent map after linking roots `xr` and `yr`: the root of lower
      rank goes under the other, `xr` under `yr` on a tie. */
  function LinkParent<T>(parent: map<T, T>, rank: map<T, nat>, xr: T, yr: T): map<T, T>
    requires xr in rank && yr in rank
  {
    if rank[xr] > rank[yr] then parent[yr := xr] else parent[xr := yr]
  }

  /** The ranks after linking: on a tie `yr`'s rank goes up by one. */
  function LinkRank<T>(rank: map<T, nat>, xr: T, yr: T): map<T, nat>
    requires xr in rank && yr in rank
  {
    if rank[xr] == rank[yr] then rank[yr := rank[yr] + 1] else rank
  }

  /** The sizes after linking: the surviving root gets the sum, the other 0. */
  function LinkSize<T>(rank: map<T, nat>, size: map<T, nat>, xr: T, yr: T): map<T, nat>
    requires xr in rank && yr in rank && xr in size && yr in size
  {
    if rank[xr] > rank[yr] then size[xr := size[xr] + size[yr]][yr := 0]
    else size[yr := size[yr] + size[xr]][xr := 0]
  }

  /** Linking two roots (even a root with itself) keeps a forest, and no rank
      goes down. */
  lemma LinkKeepsForest<T>(parent: map<T, T>, rank: map<T, nat>, xr: T, yr: T)
    requires Forest(parent, rank) && xr in parent && yr in parent
    requires ParentOf(parent, xr) == xr && ParentOf(parent, yr) == yr
    ensures Forest(LinkParent(parent, rank, xr, yr), LinkRank(rank, xr, yr))
    ensures forall z :: z in rank ==> rank[z] <= LinkRank(rank, xr, yr)[z]
  {
    var parent', rank' := LinkParent(parent, rank, xr, yr), LinkRank(rank, xr, yr);
    forall y | y in parent'
      ensures ParentOf(parent', y) in parent' && (ParentOf(parent', y) != y ==> rank'[y] < rank'[ParentOf(parent', y)])
    {
      if y != xr && y != yr {
        assert ParentOf(parent', y) == ParentOf(parent, y);
      }
    }
    assert parent'.Keys == rank'.Keys;
  }

  /** Hanging root `l` under root `w` sends `l`'s set to `w` and leaves every
      other element's root alone. */
  lemma {:induction false} AttachKeepsRoot<T>(parent: map<T, T>, rank: map<T, nat>, rank': map<T, nat>, l: T, w: T, z: T)
    requires Forest(parent, rank) && l in parent && w in parent && l != w
    requires ParentOf(parent, l) == l && ParentOf(parent, w) == w
    requires Forest(parent[l := w], rank') && z in parent
    ensures var r := Root(parent, rank, z);
      Root(parent[l := w], rank', z) == if r == l then w else r
    decreases Above(rank, z)
  {
    var parent' := parent[l := w];
    var p := ParentOf(parent, z);
    if z == l {
      assert ParentOf(parent', l) == w && ParentOf(parent', w) == w;
    } else if p != z {
      assert ParentOf(parent', z) == p;
      AboveShrinks(rank, z, p);
      AttachKeepsRoot(parent, rank, rank', l, w, p);
    } else {
      assert ParentOf(parent', z) == z;
    }
  }

  lemma AttachKeepsMembers<T>(parent: map<T, T>, rank: map<T, nat>, rank': map<T, nat>, l: T, w: T, r: T)
    requires Forest(parent, rank) && l in parent && w in parent && l != w
    requires ParentOf(parent, l) == l && ParentOf(parent, w) == w
    requires Forest(parent[l := w], rank')
    ensures Members(parent[l := w], rank', r) ==
      if r == w then Members(parent, rank, w) + Members(parent, rank, l)
      else if r == l then {}
      else Members(parent, rank, r)
  {
    var parent' := parent[l := w];
    var m' := Members(parent', rank', r);
    var m := if r == w then Members(parent, rank, w) + Members(parent, rank, l)
             else if r == l then {} else Members(parent, rank, r);
    forall z
      ensures z in m' <==> z in m
    {
      if z in parent {
        AttachKeepsRoot(parent, rank, rank', l, w, z);
      }
    }
    assert m' == m;
  }

  /** ... so giving `w` both counts and `l` zero keeps the sizes right. */
  lemma AttachKeepsCounted<T>(parent: map<T, T>, rank: map<T, nat>, size: map<T, nat>, rank': map<T, nat>, l: T, w: T)
    requires Forest(parent, rank) && Counted(parent, rank, size)
    requires l in parent && w in parent && l != w
    requires ParentOf(parent, l) == l && ParentOf(parent, w) == w
    requires Forest(parent[l := w], rank')
    ensures Counted(parent[l := w], rank', size[w := size[w] + size[l]][l := 0])
  {
    var parent', size' := parent[l := w], size[w := size[w] + size[l]][l := 0];
    forall r | r in size'
      ensures size'[r] == |Members(parent', rank', r)|
    {
      AttachKeepsMembers(parent, rank, rank', l, w, r);
      if r == w {
        assert Members(parent, rank, w) * Members(parent, rank, l) == {};
      }
    }
    assert size'.Keys == parent'.Keys;
  }

  lemma AttachMerges<T>(parent: map<T, T>, rank: map<T, nat>, rank': map<T, nat>, l: T, w: T)
    requires Forest(parent, rank) && l in parent && w in parent && l != w
    requires ParentOf(parent, l) == l && ParentOf(parent, w) == w
    requires Forest(parent[l := w], rank')
    ensures forall z {:trigger Root(parent, rank, z)} :: z in parent ==>
      Root(parent[l := w], rank', z) == if Root(parent, rank, z) == l then w else Root(parent, rank, z)
  {
    forall z | z in parent
      ensures Root(parent[l := w], rank', z) == if Root(parent, rank, z) == l then w else Root(parent, rank, z)
    {
      AttachKeepsRoot(parent, rank, rank', l, w, z);
    }
  }

  /** Linking two different roots merges exactly their two sets. */
  lemma LinkMerges<T>(parent: map<T, T>, rank: map<T, nat>, xr: T, yr: T)
    requires Forest(parent, rank) && xr in parent && yr in parent && xr != yr
    requires ParentOf(parent, xr) == xr && ParentOf(parent, yr) == yr
    ensures Merged(parent, rank, LinkParent(parent, rank, xr, yr), LinkRank(rank, xr, yr), xr, yr)
  {
    LinkKeepsForest(parent, rank, xr, yr);
    if rank[xr] > rank[yr] {
      AttachMerges(parent, rank, LinkRank(rank, xr, yr), yr, xr);
    } else {
      AttachMerges(parent, rank, LinkRank(rank, xr, yr), xr, yr);
    }
  }

  /** Roots follow the parent links only: under two rankings that both make
      the same parent map a forest, every element has the same root. */
  lemma {:induction false} RootIgnoresRank<T>(parent: map<T, T>, rank: map<T, nat>, rank': map<T, nat>, z: T)
    requires Forest(parent, rank) && Forest(parent, rank') && z in parent
    ensures Root(parent, rank', z) == Root(parent, rank, z)
    decreases Above(rank, z)
  {
    var p := ParentOf(parent, z);
    if p != z {
      AboveShrinks(rank, z, p);
      RootIgnoresRank(parent, rank, rank', p);
    }
  }

  /** Linking a root with itself only raises its rank, so every element keeps
      its root: the set is merged with itself and every other set is kept. */
  lemma SelfLinkMerges<T>(parent: map<T, T>, rank: map<T, nat>, r: T)
    requires Forest(parent, rank) && r in parent && ParentOf(parent, r) == r
    ensures Merged(parent, rank, LinkParent(parent, rank, r, r), LinkRank(rank, r, r), r, r)
  {
    var rank' := LinkRank(rank, r, r);
    LinkKeepsForest(parent, rank, r, r);
    assert LinkParent(parent, rank, r, r) == parent;
    forall z | z in parent
      ensures Root(parent, rank', z) == Root(parent, rank, z)
    {
      RootIgnoresRank(parent, rank, rank', z);
    }
  }

  /** Linking two different roots keeps the sizes right. */
  lemma LinkKeepsCounted<T>(parent: map<T, T>, rank: map<T, nat>, size: map<T, nat>, xr: T, yr: T)
    requires Forest(parent, rank) && Counted(parent, rank, size)
    requires xr in parent && yr in parent && xr != yr
    requires ParentOf(parent, xr) == xr && ParentOf(parent, yr) == yr
    ensures Forest(LinkParent(parent, rank, xr, yr), LinkRank(rank, xr, yr))
    ensures Counted(LinkParent(parent, rank, xr, yr), LinkRank(rank, xr, yr), LinkSize(rank, size, xr, yr))
  {
    LinkKeepsForest(parent, rank, xr, yr);
    if rank[xr] > rank[yr] {
      AttachKeepsCounted(parent, rank, size, LinkRank(rank, xr, yr), yr, xr);
    } else {
      AttachKeepsCounted(parent, rank, size, LinkRank(rank, xr, yr), xr, yr);
    }
  }

  /** Linking a root with itself leaves the parents alone but records 0 for
      a set that has at least the root in it. */
  lemma SelfLinkLosesCount<T>(parent: map<T, T>, rank: map<T, nat>, size: map<T, nat>, r: T)
    requires Forest(parent, rank) && Counted(parent, rank, size) && r in parent && ParentOf(parent, r) == r
    ensures LinkParent(parent, rank, r, r) == parent
    ensures Forest(parent, LinkRank(rank, r, r))
    ensures LinkSize(rank, size, r, r)[r] == 0
    ensures !Counted(parent, LinkRank(rank, r, r), LinkSize(rank, size, r, r))
  {
    var rank' := LinkRank(rank, r, r);
    LinkKeepsForest(parent, rank, r, r);
    assert Root(parent, rank', r) == r;
    assert r in Members(parent, rank', r);
  }

  /** A new forest over the same elements with the same roots has the same
      sets, hence the same right sizes. */
  lemma SameRootsMembers<T>(parent: map<T, T>, parent': map<T, T>, rank: map<T, nat>, r: T)
    requires Forest(parent, rank) && Forest(parent', rank) && parent'.Keys == parent.Keys
    requires forall z {:trigger Root(parent, rank, z)} :: z in parent ==> Root(parent', rank, z) == Root(parent, rank, z)
    ensures Members(parent', rank, r) == Members(parent, rank, r)
  {
    forall z
      ensures z in Members(parent', rank, r) <==> z in Members(parent, rank, r)
    {
      if z in parent {
        assert Root(parent', rank, z) == Root(parent, rank, z);
      }
    }
  }

  lemma SameRootsCounted<T>(parent: map<T, T>, parent': map<T, T>, rank: map<T, nat>, size: map<T, nat>)
    requires Forest(parent, rank) && Forest(parent', rank) && parent'.Keys == parent.Keys
    requires forall z {:trigger Root(parent, rank, z)} :: z in parent ==> Root(parent', rank, z) == Root(parent, rank, z)
    requires Counted(parent, rank, size)
    ensures Counted(parent', rank, size)
  {
    forall r | r in size
      ensures size[r] == |Members(parent', rank, r)|
    {
      SameRootsMembers(parent, parent', rank, r);
    }
  }

  /** Path compression moves no element to another set, so the sizes stay
      right. */
  lemma CompressKeepsCounted<T>(parent: map<T, T>, rank: map<T, nat>, size: map<T, nat>, x: T)
    requires Forest(parent, rank) && x in parent && Counted(parent, rank, size)
    ensures Forest(Compress(parent, rank, x), rank)
    ensures Counted(Compress(parent, rank, x), rank, size)
  {
    CompressKeepsRoots(parent, rank, x);
    SameRootsCounted(parent, Compress(parent, rank, x), rank, size);
  }

  /** The forest after the two finds `Union` starts with. */
  ghost function CompressBoth<T>(parent: map<T, T>, rank: map<T, nat>, x: T, y: T): (p2: map<T, T>)
    requires Forest(parent, rank) && x in parent && y in parent
    ensures Forest(p2, rank) && p2.Keys == parent.Keys
    ensures forall z {:trigger Root(parent, rank, z)} :: z in parent ==> Root(p2, rank, z) == Root(parent, rank, z)
    ensures ParentOf(p2, Root(parent, rank, x)) == Root(parent, rank, x)
    ensures ParentOf(p2, Root(parent, rank, y)) == Root(parent, rank, y)
  {
    FindBothKeepsRoots(parent, rank, x, y);
    Compress(Compress(parent, rank, x), rank, y)
  }

  lemma SameRootsMerged<T>(parent: map<T, T>, parent': map<T, T>, rank: map<T, nat>, r: T)
    requires Forest(parent, rank) && Forest(parent', rank) && parent'.Keys == parent.Keys && r in parent
    requires forall z {:trigger Root(parent, rank, z)} :: z in parent ==> Root(parent', rank, z) == Root(parent, rank, z)
    ensures Merged(parent, rank, parent', rank, r, r)
  {
  }

  lemma MergedAfterSameRoots<T>(parent: map<T, T>, parent': map<T, T>, rank: map<T, nat>, parent1: map<T, T>, rank1: map<T, nat>, xr: T, yr: T)
    requires Forest(parent, rank) && Forest(parent', rank) && parent'.Keys == parent.Keys && xr in parent && yr in parent
    requires forall z {:trigger Root(parent, rank, z)} :: z in parent ==> Root(parent', rank, z) == Root(parent, rank, z)
    requires Merged(parent', rank, parent1, rank1, xr, yr)
    ensures Merged(parent, rank, parent1, rank1, xr, yr)
  {
    forall z | z in parent
      ensures Root(parent1, rank1, z) == if Root(parent, rank, z) == xr || Root(parent, rank, z) == yr then (if rank[xr] > rank[yr] then xr else yr) else Root(parent, rank, z)
    {
      assert Root(parent', rank, z) == Root(parent, rank, z);
    }
  }

  /** A link after the two finds of `Union` leaves a forest over the same
      elements in which exactly the two sets are merged; a set linked with
      itself stays as it was. */
  lemma UnionMerges<T>(parent: map<T, T>, p2: map<T, T>, rank: map<T, nat>, x: T, y: T)
    requires Forest(parent, rank) && x in parent && y in parent
    requires p2 == CompressBoth(parent, rank, x, y)
    ensures var xr, yr := Root(parent, rank, x), Root(parent, rank, y);
      && Forest(LinkParent(p2, rank, xr, yr), LinkRank(rank, xr, yr))
      && Merged(parent, rank, LinkParent(p2, rank, xr, yr), LinkRank(rank, xr, yr), xr, yr)
  {
    var xr, yr := Root(parent, rank, x), Root(parent, rank, y);
    LinkKeepsForest(p2, rank, xr, yr);
    if xr != yr {
      LinkMerges(p2, rank, xr, yr);
    } else {
      SelfLinkMerges(p2, rank, xr);
    }
    MergedAfterSameRoots(parent, p2, rank, LinkParent(p2, rank, xr, yr), LinkRank(rank, xr, yr), xr, yr);
  }

  /** A link after the two finds of `Union` of two different sets keeps the
      sizes right. */
  lemma UnionKeepsCounted<T>(parent: map<T, T>, p2: map<T, T>, rank: map<T, nat>, size: map<T, nat>, x: T, y: T)
    requires Forest(parent, rank) && x in parent && y in parent && Counted(parent, rank, size)
    requires p2 == CompressBoth(parent, rank, x, y)
    requires Root(parent, rank, x) != Root(parent, rank, y)
    ensures var xr, yr := Root(parent, rank, x), Root(parent, rank, y);
      && Forest(LinkParent(p2, rank, xr, yr), LinkRank(rank, xr, yr))
      && Counted(LinkParent(p2, rank, xr, yr), LinkRank(rank, xr, yr), LinkSize(rank, size, xr, yr))
  {
    var xr, yr := Root(parent, rank, x), Root(parent, rank, y);
    SameRootsCounted(parent, p2, rank, size);
    LinkKeepsCounted(p2, rank, size, xr, yr);
  }

  /** `Union` of two elements already in one set, as written, leaves a
      forest in which that set's recorded size is 0: the sizes are no longer
      right, although they were before. */
  lemma UnionSameSetLosesCount<T>(parent: map<T, T>, rank: map<T, nat>, size: map<T, nat>, x: T, y: T)
    requires Forest(parent, rank) && Counted(parent, rank, size) && x in parent && y in parent
    requires Root(parent, rank, x) == Root(parent, rank, y)
    ensures var r, p2 := Root(parent, rank, x), CompressBoth(parent, rank, x, y);
      && Forest(LinkParent(p2, rank, r, r), LinkRank(rank, r, r))
      && LinkSize(rank, size, r, r)[r] == 0
      && !Counted(LinkParent(p2, rank, r, r), LinkRank(rank, r, r), LinkSize(rank, size, r, r))
  {
    var r, p2 := Root(parent, rank, x), CompressBoth(parent, rank, x, y);
    SameRootsCounted(parent, p2, rank, size);
    SelfLinkLosesCount(p2, rank, size, r);
  }

  /** A family of disjoint sets over elements of type `T`. Each element
      points at its parent (a root points at itself); `rank` bounds the
      height of the tree below a root and `size` is meant to hold, at each
      root, the number of elements in its set. */
  class DisjointSet<T(==)> {
    var parent: map<T, T>
    var rank: map<T, nat>
    var size: map<T, nat>

    ghost predicate Valid()
      reads this
    {
      Forest(parent, rank) && size.Keys == parent.Keys
    }

    /** Every root's recorded size is the number of elements in its set. */
    ghost predicate SizesRight()
      reads this
      requires Valid()
    {
      Counted(parent, rank, size)
    }

    constructor ()
      ensures Valid() && SizesRight()
      ensures parent == map[] && rank == map[] && size == map[]
    {
      parent := map[];
      rank := map[];
      size := map[];
    }

    /** Registers `x` as a set of its own; an element already registered is
        left as it is. */
    method MakeSet(x: T)
      requires Valid()
      modifies this
      ensures Valid()
      ensures x in old(parent) ==> parent == old(parent) && rank == old(rank) && size == old(size)
      ensures x !in old(parent) ==>
        parent == old(parent)[x := x] && rank == old(rank)[x := 0] && size == old(size)[x := 1]
      ensures x !in old(parent) ==> Root(parent, rank, x) == x
      ensures forall z {:trigger Root(old(parent), old(rank), z)} :: z in old(parent) ==>
        Root(parent, rank, z) == Root(old(parent), old(rank), z)
      ensures old(SizesRight()) ==> SizesRight()
    {
      if x in parent {
        return;
      }
      AddKeepsRoots(parent, rank, x);
      if SizesRight() {
        AddKeepsCounted(parent, rank, size, x);
      }
      parent := parent[x := x];
      rank := rank[x := 0];
      size := size[x := 1];
    }

    /** The root of `x`'s set, pointing every element on the way straight at
        it; no element changes set. */
    method Find(x: T) returns (r: T)
      requires Valid() && x in parent
      modifies this
      ensures rank == old(rank) && size == old(size) && Valid()
      ensures r == Root(old(parent), rank, x) && parent == Compress(old(parent), rank, x)
      ensures forall y {:trigger ParentOf(parent, y)} :: y in old(parent) ==>
        ParentOf(parent, y) == if y in Path(old(parent), rank, x) then r else ParentOf(old(parent), y)
      ensures forall z {:trigger Root(old(parent), rank, z)} :: z in old(parent) ==>
        Root(parent, rank, z) == Root(old(parent), rank, z)
      ensures old(SizesRight()) ==> SizesRight()
      decreases Above(rank, x)
    {
      ghost var parent0 := parent;
      if x != parent[x] {
        assert ParentOf(parent, x) in parent;
        AboveShrinks(rank, x, parent[x]);
        var root := Find(parent[x]);
        parent := parent[x := root];
      }
      r := parent[x];
      CompressKeepsRoots(parent0, rank, x);
      CompressShape(parent0, rank, x);
      if old(SizesRight()) {
        CompressKeepsCounted(parent0, rank, size, x);
      }
    }

    /** Merges the sets of `x` and `y` as written: after two finds, the root
        of lower rank is hung under the other (the root of `x` under the root
        of `y` on a tie, which also raises the rank of `y`'s root), and the
        hung root's size is added to the other's and reset to 0. Nothing
        checks whether the finds landed on the same root. */
    method Union(x: T, y: T)
      requires Valid() && x in parent && y in parent
      modifies this
      ensures var xr, yr := Root(old(parent), old(rank), x), Root(old(parent), old(rank), y);
        && parent == LinkParent(CompressBoth(old(parent), old(rank), x, y), old(rank), xr, yr)
        && rank == LinkRank(old(rank), xr, yr)
        && size == LinkSize(old(rank), old(size), xr, yr)
      ensures Valid()
      ensures forall z {:trigger rank[z]} :: z in old(rank) ==> old(rank)[z] <= rank[z]
      ensures Merged(old(parent), old(rank), parent, rank, Root(old(parent), old(rank), x), Root(old(parent), old(rank), y))
      ensures var xr, yr := Root(old(parent), old(rank), x), Root(old(parent), old(rank), y);
        xr != yr && old(SizesRight()) ==> SizesRight()
    {
      ghost var parent0 := parent;
      var xRoot := Find(x);
      var yRoot := Find(y);
      ghost var p2, rank0, size0 := parent, rank, size;
      Link(xRoot, yRoot);
      UnionMerges(parent0, p2, rank0, x, y);
      if xRoot != yRoot && old(SizesRight()) {
        UnionKeepsCounted(parent0, p2, rank0, size0, x, y);
      }
    }

    /** `Union` with a check for the two finds landing on the same root, in
        which case nothing but the path compression happens. */
    method UnionFixed(x: T, y: T)
      requires Valid() && x in parent && y in parent
      modifies this
      ensures var xr, yr := Root(old(parent), old(rank), x), Root(old(parent), old(rank), y);
              var p2 := CompressBoth(old(parent), old(rank), x, y);
        if xr == yr then
          parent == p2 && rank == old(rank) && size == old(size)
        else
          parent == LinkParent(p2, old(rank), xr, yr) && rank == LinkRank(old(rank), xr, yr)
          && size == LinkSize(old(rank), old(size), xr, yr)
      ensures Valid()
      ensures Merged(old(parent), old(rank), parent, rank, Root(old(parent), old(rank), x), Root(old(parent), old(rank), y))
      ensures old(SizesRight()) ==> SizesRight()
    {
      ghost var parent0 := parent;
      var xRoot := Find(x);
      var yRoot := Find(y);
      ghost var p2, rank0, size0 := parent, rank, size;
      if xRoot == yRoot {
        assert p2 == CompressBoth(parent0, rank0, x, y);
        SameRootsMerged(parent0, p2, rank0, xRoot);
        return;
      }
      Link(xRoot, yRoot);
      UnionMerges(parent0, p2, rank0, x, y);
      if old(SizesRight()) {
        UnionKeepsCounted(parent0, p2, rank0, size0, x, y);
      }
    }

    /** Hangs the root of lower rank under the other (`xr` under `yr` on a
        tie, raising the rank of `yr`), adding the hung root's size to the
        other's and resetting it to 0. */
    method Link(xr: T, yr: T)
      requires xr in parent && xr in rank && xr in size && yr in parent && yr in rank && yr in size
      modifies this
      ensures parent == LinkParent(old(parent), old(rank), xr, yr)
      ensures rank == LinkRank(old(rank), xr, yr)
      ensures size == LinkSize(old(rank), old(size), xr, yr)
    {
      if rank[xr] > rank[yr] {
        parent := parent[yr := xr];
        size := size[xr := size[xr] + size[yr]];
        size := size[yr := 0];
      } else if rank[xr] < rank[yr] {
        parent := parent[xr := yr];
        size := size[yr := size[yr] + size[xr]];
        size := size[xr := 0];
      } else {
        parent := parent[xr := yr];
        rank := rank[yr := rank[yr] + 1];
        size := size[yr := size[yr] + size[xr]];
        size := size[xr := 0];
      }
    }

    /** The size recorded at the root of `x`'s set, which is the number of
        elements in that set while the sizes are right. */
    method SizeOf(x: T) returns (n: nat)
      requires Valid() && x in parent
      modifies this
      ensures rank == old(rank) && size == old(size) && Valid()
      ensures parent == Compress(old(parent), rank, x)
      ensures n == size[Root(old(parent), rank, x)]
      ensures old(SizesRight()) ==> SizesRight() && n == |Members(old(parent), rank, Root(old(parent), rank, x))|
    {
      var r := Find(x);
      n := size[r];
    }
  }

  // A worked example: makeSet(1) .. makeSet(5), then union(1, 2), union(3, 4)
  // and union(2, 3). The states below are the maps after each step; the
  // lemmas check each step against the functions `Union` is proved to follow.

  const ExampleParent0: map<int, int> := map[1 := 1, 2 := 2, 3 := 3, 4 := 4, 5 := 5]
  const ExampleRank0: map<int, nat> := map[1 := 0, 2 := 0, 3 := 0, 4 := 0, 5 := 0]
  const ExampleSize0: map<int, nat> := map[1 := 1, 2 := 1, 3 := 1, 4 := 1, 5 := 1]
  const ExampleParent1: map<int, int> := map[1 := 2, 2 := 2, 3 := 3, 4 := 4, 5 := 5]
  const ExampleRank1: map<int, nat> := map[1 := 0, 2 := 1, 3 := 0, 4 := 0, 5 := 0]
  const ExampleSize1: map<int, nat> := map[1 := 0, 2 := 2, 3 := 1, 4 := 1, 5 := 1]
  const ExampleParent2: map<int, int> := map[1 := 2, 2 := 2, 3 := 4, 4 := 4, 5 := 5]
  const ExampleRank2: map<int, nat> := map[1 := 0, 2 := 1, 3 := 0, 4 := 1, 5 := 0]
  const ExampleSize2: map<int, nat> := map[1 := 0, 2 := 2, 3 := 0, 4 := 2, 5 := 1]
  const ExampleParent3: map<int, int> := map[1 := 2, 2 := 4, 3 := 4, 4 := 4, 5 := 5]
  const ExampleRank3: map<int, nat> := map[1 := 0, 2 := 1, 3 := 0, 4 := 2, 5 := 0]
  const ExampleSize3: map<int, nat> := map[1 := 0, 2 := 0, 3 := 0, 4 := 4, 5 := 1]

  /** The five `MakeSet` calls on an empty family give five singletons. */
  lemma ExampleMakeSets()
    ensures map[][1 := 1][2 := 2][3 := 3][4 := 4][5 := 5] == ExampleParent0
    ensures map[][1 := 0][2 := 0][3 := 0][4 := 0][5 := 0] == ExampleRank0
    ensures map[][1 := 1][2 := 1][3 := 1][4 := 1][5 := 1] == ExampleSize0
    ensures Forest(ExampleParent0, ExampleRank0) && Counted(ExampleParent0, ExampleRank0, ExampleSize0)
  {
    var p, r := ExampleParent0, ExampleRank0;
    assert forall z | z in p :: Root(p, r, z) == z;
    forall k | k in p
      ensures Members(p, r, k) == {k}
    {
      assert forall z | z in Members(p, r, k) :: z == k;
    }
  }

  /** union(1, 2): two rank-0 roots, so 1 goes under 2 and 2's rank rises. */
  lemma ExampleFirstFinds()
    ensures Forest(ExampleParent0, ExampleRank0)
    ensures Root(ExampleParent0, ExampleRank0, 1) == 1 && Root(ExampleParent0, ExampleRank0, 2) == 2
    ensures CompressBoth(ExampleParent0, ExampleRank0, 1, 2) == ExampleParent0
  {
  }

  lemma ExampleFirstLink()
    ensures LinkParent(ExampleParent0, ExampleRank0, 1, 2) == ExampleParent1
    ensures LinkRank(ExampleRank0, 1, 2) == ExampleRank1
    ensures LinkSize(ExampleRank0, ExampleSize0, 1, 2) == ExampleSize1
  {
  }

  /** union(3, 4): the same on the other pair. */
  lemma ExampleSecondFinds()
    ensures Forest(ExampleParent1, ExampleRank1)
    ensures Root(ExampleParent1, ExampleRank1, 3) == 3 && Root(ExampleParent1, ExampleRank1, 4) == 4
    ensures CompressBoth(ExampleParent1, ExampleRank1, 3, 4) == ExampleParent1
  {
  }

  lemma ExampleSecondLink()
    ensures LinkParent(ExampleParent1, ExampleRank1, 3, 4) == ExampleParent2
    ensures LinkRank(ExampleRank1, 3, 4) == ExampleRank2
    ensures LinkSize(ExampleRank1, ExampleSize1, 3, 4) == ExampleSize2
  {
  }

  /** union(2, 3): the roots are 2 and 4, both of rank 1, so 2 goes under 4. */
  lemma ExampleThirdFinds()
    ensures Forest(ExampleParent2, ExampleRank2)
    ensures Root(ExampleParent2, ExampleRank2, 2) == 2 && Root(ExampleParent2, ExampleRank2, 3) == 4
    ensures CompressBoth(ExampleParent2, ExampleRank2, 2, 3) == ExampleParent2
  {
  }

  lemma ExampleThirdLink()
    ensures LinkParent(ExampleParent2, ExampleRank2, 2, 4) == ExampleParent3
    ensures LinkRank(ExampleRank2, 2, 4) == ExampleRank3
    ensures LinkSize(ExampleRank2, ExampleSize2, 2, 4) == ExampleSize3
  {
  }

  /** At the end, find(1) == find(4), sizeOf(1) == 4 and sizeOf(5) == 1. */
  lemma ExampleQueries()
    ensures Forest(ExampleParent3, ExampleRank3)
    ensures Root(ExampleParent3, ExampleRank3, 1) == Root(ExampleParent3, ExampleRank3, 4) == 4
    ensures ExampleSize3[Root(ExampleParent3, ExampleRank3, 1)] == 4
    ensures Root(ExampleParent3, ExampleRank3, 5) == 5 && ExampleSize3[Root(ExampleParent3, ExampleRank3, 5)] == 1
  {
  }
}

/** What the invariant means for the bytes of the pool: partition and canonical form. */
module BuddyPartition {
  import opened BuddyState
  import opened Sequences
  import opened Status
  import opened Tree

  // ----- the active blocks partition the pool

  /** Every strict ancestor of a node of the tree has been split. */
  lemma {:induction false} AncestorsSplit(g: Geometry, t: Blocks, a: Node, n: Node)
    requires TreeOk(g, t) && n in t && Above(a, n) && a != n
    ensures a in t && t[a] == Split
    decreases n.level
  {
    assert NodeOk(g, t, n);
    if a != Parent(n) { AncestorsSplit(g, t, a, Parent(n)); }
  }

  /** No two active blocks share a byte. */
  lemma ActiveDisjoint(g: Geometry, t: Blocks, a: Node, b: Node)
    requires TreeOk(g, t) && Active(t, a) && Active(t, b)
    ensures g.Has(a) && g.Has(b)
    ensures g.Overlap(a, b) <==> a == b
  {
    assert NodeOk(g, t, a) && NodeOk(g, t, b);
    OverlapIsAncestry(g, a, b);
    if a != b && Above(a, b) { AncestorsSplit(g, t, a, b); }
    if a != b && Above(b, a) { AncestorsSplit(g, t, b, a); }
  }

  /** The active block that holds byte `x` of the block of `n`. */
  ghost function HolderBelow(g: Geometry, t: Blocks, n: Node, x: nat): (a: Node)
    requires TreeOk(g, t) && n in t && n.level < g.levels && g.Covers(n, x)
    ensures Active(t, a) && a.level < g.levels && g.Covers(a, x)
    decreases g.levels - n.level
  {
    assert NodeOk(g, t, n);
    if t[n] != Split then n
    else
      ChildOffsets(g, n);
      assert NodeOk(g, t, Left(n)) && NodeOk(g, t, Right(n));
      if g.Covers(Left(n), x) then HolderBelow(g, t, Left(n), x)
      else HolderBelow(g, t, Right(n), x)
  }

  ghost function Holder(g: Geometry, t: Blocks, x: nat): (a: Node)
    requires TreeOk(g, t) && x < g.Pool()
    ensures Active(t, a) && a.level < g.levels && g.Covers(a, x)
  {
    HolderBelow(g, t, ROOT, x)
  }

  /**
   * Partition: every byte of the pool lies in exactly one active block, and every active
   * block is a size-aligned interval inside the pool whose size is a power of two multiple
   * of the least block.
   */
  lemma Partition(g: Geometry, t: Blocks, x: nat, n: Node)
    requires TreeOk(g, t)
    ensures Active(t, n) ==> g.Has(n) && g.Offset(n) % BlockBytes(g, n) == 0 && g.End(n) <= g.Pool()
    ensures x < g.Pool() ==> exists a :: Active(t, a) && g.Has(a) && g.Covers(a, x)
    ensures forall a, b | Active(t, a) && Active(t, b) && g.Has(a) && g.Has(b) ::
              g.Covers(a, x) && g.Covers(b, x) ==> a == b
  {
    if Active(t, n) {
      assert NodeOk(g, t, n);
      InPool(g, n);
      SlotFromOffset(g, n);
    }
    if x < g.Pool() {
      var a := Holder(g, t, x);
      assert NodeOk(g, t, a);
    }
    forall a, b | Active(t, a) && Active(t, b) && g.Has(a) && g.Has(b) && g.Covers(a, x) && g.Covers(b, x)
      ensures a == b
    {
      ActiveDisjoint(g, t, a, b);
    }
  }

  ghost function BlockBytes(g: Geometry, n: Node): (s: nat)
    requires g.Valid() && n.level < g.levels
    ensures s > 0
  {
    SizeHalves(g, n.level);
    g.Size(n.level)
  }

  // ----- canonical form

  /** The block of `n` shares a byte with a live block. */
  ghost predicate Meets(g: Geometry, live: set<Node>, n: Node)
    requires n.level < g.levels
  {
    exists m :: m in live && m.level < g.levels && g.Overlap(n, m)
  }

  /** A largest buddy region without a live byte. */
  ghost predicate MaximalClear(g: Geometry, live: set<Node>, n: Node) {
    && g.Has(n)
    && !Meets(g, live, n)
    && (n.level > 0 ==> Meets(g, live, Parent(n)))
  }

  /** A split block has a child that is not free. */
  lemma UnfreeChild(g: Geometry, t: Blocks, n: Node) returns (c: Node)
    requires TreeOk(g, t) && n in t && t[n] == Split
    ensures c in t && t[c] != Free && c.level == n.level + 1 < g.levels && Parent(c) == n
  {
    assert NodeOk(g, t, n) && NodeOk(g, t, Left(n));
    assert Sibling(Left(n)) == Right(n);
    c := if t[Left(n)] != Free then Left(n) else Right(n);
  }

  /** Below every split block there is a live one: free siblings have been merged. */
  lemma {:induction false} SplitHasLive(g: Geometry, t: Blocks, n: Node) returns (m: Node)
    requires TreeOk(g, t) && n in t && t[n] == Split
    ensures IsLive(t, m) && Above(n, m) && m != n && n.level < m.level
    decreases g.levels - n.level
  {
    var c := UnfreeChild(g, t, n);
    if t[c] == Live {
      m := c;
    } else {
      m := SplitHasLive(g, t, c);
      AboveTrans(n, c, m);
    }
  }

  lemma {:induction false} AboveTrans(a: Node, b: Node, c: Node)
    requires Above(a, b) && Above(b, c)
    ensures Above(a, c) && a.level <= c.level
    decreases c.level
  {
    if b != c { AboveTrans(a, b, Parent(c)); } else { AboveLevel(a, b); }
  }

  lemma {:induction false} AboveLevel(a: Node, b: Node)
    requires Above(a, b)
    ensures a.level <= b.level && (a.level == b.level ==> a == b)
    decreases b.level
  {
    if a != b { AboveLevel(a, Parent(b)); }
  }

  /** A split block meets a live one. */
  lemma SplitMeets(g: Geometry, t: Blocks, n: Node)
    requires TreeOk(g, t) && n in t && t[n] == Split
    ensures g.Has(n) && Meets(g, LiveSet(t), n)
  {
    var m := SplitHasLive(g, t, n);
    assert NodeOk(g, t, n) && NodeOk(g, t, m);
    OverlapIsAncestry(g, n, m);
  }

  /** An active block meets a live one only by being it. */
  lemma ActiveMeets(g: Geometry, t: Blocks, n: Node)
    requires TreeOk(g, t) && Active(t, n)
    ensures g.Has(n) && (Meets(g, LiveSet(t), n) <==> t[n] == Live)
  {
    assert NodeOk(g, t, n);
    ActiveDisjoint(g, t, n, n);
    forall m | m in LiveSet(t) && m.level < g.levels && g.Overlap(n, m) ensures m == n {
      ActiveDisjoint(g, t, n, m);
    }
  }

  /** A block inside another meets whatever it meets. */
  lemma MeetsInside(g: Geometry, live: set<Node>, a: Node, n: Node)
    requires g.Valid() && g.Has(a) && g.Has(n) && Above(a, n)
    ensures Meets(g, live, n) ==> Meets(g, live, a)
  {
    AboveLevel(a, n);
    OverlapDown(g, a, n);
    if Meets(g, live, n) {
      var m :| m in live && m.level < g.levels && g.Overlap(n, m);
      assert g.Overlap(a, m);
    }
  }

  /**
   * A region of the tree's shape is in the tree, or strictly inside the active block that
   * holds its first byte.
   */
  lemma {:induction false} InTreeOrInside(g: Geometry, t: Blocks, n: Node) returns (a: Node)
    requires TreeOk(g, t) && g.Has(n)
    ensures Above(a, n) && g.Has(a) && a in t
    ensures a == n || t[a] != Split
    decreases n.level
  {
    if n in t {
      a := n;
    } else {
      assert n.level > 0 by { assert n.level == 0 ==> n == ROOT; }
      ParentInTree(g, n);
      a := InTreeOrInside(g, t, Parent(n));
      assert NodeOk(g, t, a);
      if t[a] == Split {
        IsChild(n);
        assert false;
      }
    }
  }

  /** Canonical form: the free blocks are exactly the maximal regions without a live byte. */
  lemma FreeIsMaximalClear(g: Geometry, t: Blocks, n: Node)
    requires TreeOk(g, t)
    ensures IsFree(t, n) <==> MaximalClear(g, LiveSet(t), n)
  {
    var live := LiveSet(t);
    if IsFree(t, n) {
      assert NodeOk(g, t, n);
      ActiveMeets(g, t, n);
      if n.level > 0 { SplitMeets(g, t, Parent(n)); }
    }
    if MaximalClear(g, live, n) {
      var a := InTreeOrInside(g, t, n);
      if a == n {
        if t[n] == Split { SplitMeets(g, t, n); }
        if t[n] == Live { ActiveMeets(g, t, n); }
      } else {
        ParentInTree(g, n);
        MeetsInside(g, live, a, Parent(n));
        ActiveMeets(g, t, a);
        OverlapIsAncestry(g, a, n);
      }
    }
  }

  /** The live blocks alone determine the whole subdivision of the pool. */
  lemma LiveDeterminesTree(g: Geometry, t: Blocks, u: Blocks)
    requires TreeOk(g, t) && TreeOk(g, u) && LiveSet(t) == LiveSet(u)
    ensures t == u
  {
    forall n: Node ensures n in t <==> n in u
      ensures n in t ==> t[n] == u[n]
    {
      if n in t { SameKind(g, t, u, n); }
      if n in u { SameKind(g, u, t, n); }
    }
  }

  lemma SameKind(g: Geometry, t: Blocks, u: Blocks, n: Node)
    requires TreeOk(g, t) && TreeOk(g, u) && LiveSet(t) == LiveSet(u) && n in t
    ensures n in u && u[n] == t[n]
  {
    match t[n] {
      case Free =>
        FreeIsMaximalClear(g, t, n);
        FreeIsMaximalClear(g, u, n);
      case Live =>
        assert n in LiveSet(u);
      case Split =>
        var m := SplitHasLive(g, t, n);
        assert m in LiveSet(u);
        AncestorsSplit(g, u, n, m);
    }
  }

  /** Same live blocks, same free lists up to their order. */
  lemma LiveDeterminesLists(g: Geometry, v: View, w: View, level: nat)
    requires Inv(g, v) && Inv(g, w) && LiveSet(v.tree) == LiveSet(w.tree) && level < g.levels
    ensures multiset(v.lists[level]) == multiset(w.lists[level])
  {
    LiveDeterminesTree(g, v.tree, w.tree);
    forall i: nat ensures i in v.lists[level] <==> i in w.lists[level] {
      assert Listed(v.lists, Node(level, i)) <==> Listed(w.lists, Node(level, i));
    }
    SameMembers(v.lists[level], w.lists[level]);
  }

  /** With nothing allocated the pool is one free block again. */
  lemma DrainedIsInitial(g: Geometry, v: View)
    requires Inv(g, v) && LiveSet(v.tree) == {}
    ensures v == Init(g)
  {
    var w := Init(g);
    InitOk(g);
    assert LiveSet(w.tree) == {};
    LiveDeterminesTree(g, v.tree, w.tree);
    forall l | 0 <= l < g.levels ensures v.lists[l] == w.lists[l] {
      LiveDeterminesLists(g, v, w, l);
      SmallMultiset(v.lists[l], w.lists[l]);
    }
  }

  lemma SmallMultiset(s: seq<nat>, t: seq<nat>)
    requires multiset(s) == multiset(t) && |t| <= 1
    ensures s == t
  {
    assert |s| == |multiset(s)| == |multiset(t)| == |t|;
    if |t| == 1 {
      assert t == [t[0]] && s == [s[0]];
      assert s[0] in multiset(s);
    }
  }

  // ----- complete failure

  /** Every aligned region of the size of this level meets a live block. */
  ghost predicate Exhausted(g: Geometry, live: set<Node>, level: nat)
    requires level < g.levels
  {
    forall n: Node | g.Has(n) && n.level == level :: Meets(g, live, n)
  }

  /** The leftmost node at a deeper level below `n`. */
  ghost function Leftmost(n: Node, level: nat): (d: Node)
    requires n.level <= level
    ensures d.level == level
    decreases level - n.level
  {
    if n.level == level then n else Leftmost(Left(n), level)
  }

  lemma {:induction false} LeftmostBelow(g: Geometry, n: Node, level: nat)
    requires g.Valid() && g.Has(n) && n.level <= level < g.levels
    ensures g.Has(Leftmost(n, level)) && Above(n, Leftmost(n, level))
    decreases level - n.level
  {
    if n.level < level {
      ChildOffsets(g, n);
      LeftmostBelow(g, Left(n), level);
      assert Above(n, Left(n)) by { assert Parent(Left(n)) == n; }
      AboveTrans(n, Left(n), Leftmost(n, level));
    }
  }

  /**
   * Complete failure: the search for a source level comes up empty exactly when every
   * aligned region of the wanted size meets a live block.
   */
  lemma FailureIsComplete(g: Geometry, v: View, target: nat)
    requires Inv(g, v) && target < g.levels
    ensures SourceLevel(v.lists, target).None?
            <==> Exhausted(g, LiveSet(v.tree), target)
  {
    var t, live := v.tree, LiveSet(v.tree);
    match SourceLevel(v.lists, target)
    case None =>
      forall n: Node | g.Has(n) && n.level == target ensures Meets(g, live, n) {
        var a := InTreeOrInside(g, t, n);
        AboveLevel(a, n);
        assert !Listed(v.lists, a);
        if t[a] == Split { SplitMeets(g, t, n); }
        else {
          ActiveMeets(g, t, a);
          OverlapIsAncestry(g, n, a);
          assert a in live;
        }
      }
    case Some(l) =>
      var f := Node(l, v.lists[l][0]);
      assert Listed(v.lists, f);
      assert NodeOk(g, t, f);
      LeftmostBelow(g, f, target);
      var d := Leftmost(f, target);
      MeetsInside(g, live, f, d);
      ActiveMeets(g, t, f);
      assert !Meets(g, live, d);
  }
}

/**
 * The abstract state of the allocator and its steps.
 *
 * `tree` records every block of the current subdivision of the pool: the free ones, the
 * live (allocated) ones, and the ones that have been split. `lists` are the free lists,
 * level by level, head first. A block that an operation has taken off its list and not yet
 * handed over or put back is live here, so the invariant speaks of every intermediate
 * state of the splitting and merging loops too.
 */
module BuddyState {
  import opened Sequences
  import opened Status
  import opened Tree

  datatype Kind = Free | Live | Split

  type Blocks = map<Node, Kind>

  datatype View = View(lists: seq<seq<nat>>, tree: Blocks)

  ghost predicate IsFree(t: Blocks, n: Node) { n in t && t[n] == Free }

  ghost predicate IsLive(t: Blocks, n: Node) { n in t && t[n] == Live }

  /** An active block: not split any further. */
  ghost predicate Active(t: Blocks, n: Node) { n in t && t[n] != Split }

  ghost function LiveSet(t: Blocks): set<Node> { set n | n in t && t[n] == Live }

  predicate Listed(lists: seq<seq<nat>>, n: Node) {
    n.level < |lists| && n.index in lists[n.level]
  }

  // ----- the invariant

  /** The subdivision around one node: split parent, both children, no two free siblings. */
  ghost predicate NodeOk(g: Geometry, t: Blocks, n: Node) {
    n in t ==>
      && g.Has(n)
      && (n.level > 0 ==> Parent(n) in t && t[Parent(n)] == Split)
      && (t[n] == Split ==> n.level + 1 < g.levels && Left(n) in t && Right(n) in t)
      && (t[n] == Free && n.level > 0 ==> !IsFree(t, Sibling(n)))
  }

  ghost predicate TreeOk(g: Geometry, t: Blocks) {
    && g.Valid()
    && ROOT in t
    && forall n: Node {:trigger NodeOk(g, t, n)} :: NodeOk(g, t, n)
  }

  /** The free lists hold exactly the free blocks, each once. */
  ghost predicate ListsOk(g: Geometry, v: View) {
    && |v.lists| == g.levels
    && (forall l :: 0 <= l < g.levels ==> Distinct(v.lists[l]))
    && forall n: Node :: Listed(v.lists, n) <==> IsFree(v.tree, n)
  }

  ghost predicate Inv(g: Geometry, v: View) {
    TreeOk(g, v.tree) && ListsOk(g, v)
  }

  /** The state `buddy_alloc_create` sets up: one free block, the whole pool. */
  function Init(g: Geometry): View
    requires g.levels > 0
  {
    View(seq(g.levels, (l: nat) => if l == 0 then [0] else []), map[ROOT := Free])
  }

  // ----- single steps

  /** Takes a free block off its list. */
  function Take(v: View, n: Node): View
    requires n.level < |v.lists|
  {
    View(v.lists[n.level := Without(v.lists[n.level], n.index)], v.tree[n := Live])
  }

  /** Puts a block at the head of its free list. */
  function Give(v: View, n: Node): View
    requires n.level < |v.lists|
  {
    View(v.lists[n.level := [n.index] + v.lists[n.level]], v.tree[n := Free])
  }

  /** Splits a taken block: the left half stays taken, the right half becomes free. */
  function SplitStep(v: View, n: Node): View
    requires n.level + 1 < |v.lists|
  {
    var r := Right(n);
    View(v.lists[r.level := [r.index] + v.lists[r.level]],
         v.tree[n := Split][Left(n) := Live][r := Free])
  }

  /** Merges a taken block with its free sibling into their parent. */
  function MergeStep(v: View, n: Node): View
    requires 0 < n.level < |v.lists|
  {
    View(v.lists[n.level := Without(v.lists[n.level], Sibling(n).index)],
         (v.tree - {n, Sibling(n)})[Parent(n) := Live])
  }

  // ----- whole operations

  /** The nearest level at or above `start` (counting down to the root) with a free block. */
  function SourceLevel(lists: seq<seq<nat>>, start: nat): (r: Option<nat>)
    requires start < |lists|
    ensures r.None? ==> forall l :: 0 <= l <= start ==> lists[l] == []
    ensures r.Some? ==> r.value <= start && lists[r.value] != []
    ensures r.Some? ==> forall l :: r.value < l <= start ==> lists[l] == []
  {
    if lists[start] != [] then Some(start)
    else if start == 0 then None
    else SourceLevel(lists, start - 1)
  }

  /** Splits a taken block down to `target`, always keeping the left half. */
  function Descend(v: View, n: Node, target: nat): (r: (View, Node))
    requires n.level <= target < |v.lists|
    ensures r.1.level == target && |r.0.lists| == |v.lists|
    decreases target - n.level
  {
    if n.level == target then (v, n) else Descend(SplitStep(v, n), Left(n), target)
  }

  /** Allocates a block at `target`; nothing when no level at or above it has a free block. */
  function Allocate(v: View, target: nat): Option<(View, Node)>
    requires target < |v.lists|
  {
    match SourceLevel(v.lists, target)
    case None => None
    case Some(src) =>
      var n := Node(src, v.lists[src][0]);
      Some(Descend(Take(v, n), n, target))
  }

  /** Where the merging of a block comes to a stop. */
  function MergedInto(v: View, n: Node): (r: Node)
    requires n.level < |v.lists|
    ensures r.level <= n.level
    decreases n.level
  {
    if n.level > 0 && Listed(v.lists, Sibling(n)) then MergedInto(MergeStep(v, n), Parent(n)) else n
  }

  /** Frees a live block: merges it with free siblings as long as there is one. */
  function Release(v: View, n: Node): (r: View)
    requires n.level < |v.lists|
    ensures |r.lists| == |v.lists|
    decreases n.level
  {
    if n.level > 0 && Listed(v.lists, Sibling(n)) then Release(MergeStep(v, n), Parent(n))
    else Give(v, n)
  }

  // ----- the invariant is kept by every step

  lemma InitOk(g: Geometry)
    requires g.Valid()
    ensures Inv(g, Init(g))
  {
    var v := Init(g);
    forall n: Node ensures NodeOk(g, v.tree, n) { }
    forall n: Node ensures Listed(v.lists, n) <==> IsFree(v.tree, n) {
      if n.level == 0 { assert n.index in [0] <==> n.index == 0; }
    }
  }

  /** A change of one list that adds or drops the one element `n.index`. */
  ghost predicate ListChange(a: seq<seq<nat>>, b: seq<seq<nat>>, n: Node, added: bool) {
    && n.level < |a| == |b|
    && b == a[n.level := b[n.level]]
    && Distinct(b[n.level])
    && (forall i :: i in b[n.level] <==> if i == n.index then added else i in a[n.level])
  }

  lemma ListTaken(g: Geometry, v: View, n: Node)
    requires ListsOk(g, v) && IsFree(v.tree, n)
    ensures n.level < g.levels
    ensures ListChange(v.lists, v.lists[n.level := Without(v.lists[n.level], n.index)], n, false)
  {
    assert Listed(v.lists, n);
    var s := v.lists[n.level];
    forall i ensures i in Without(s, n.index) <==> i in s && i != n.index {
      WithoutMembers(s, n.index, i);
    }
    WithoutMembers(s, n.index, 0);
  }

  lemma ListGiven(g: Geometry, v: View, n: Node)
    requires ListsOk(g, v) && !IsFree(v.tree, n) && n.level < g.levels
    ensures ListChange(v.lists, v.lists[n.level := [n.index] + v.lists[n.level]], n, true)
  {
    assert !Listed(v.lists, n);
  }

  /** A list change matches a tree whose only change of free blocks is the same node. */
  lemma ListsFollow(g: Geometry, v: View, w: View, n: Node, added: bool)
    requires ListsOk(g, v) && ListChange(v.lists, w.lists, n, added)
    requires forall m: Node :: IsFree(w.tree, m) <==> if m == n then added else IsFree(v.tree, m)
    ensures ListsOk(g, w)
  {
    forall m: Node ensures Listed(w.lists, m) <==> IsFree(w.tree, m) {
      assert Listed(v.lists, m) <==> IsFree(v.tree, m);
    }
    forall l | 0 <= l < g.levels ensures Distinct(w.lists[l]) {
      assert l != n.level ==> w.lists[l] == v.lists[l];
    }
  }

  lemma TakeOk(g: Geometry, v: View, n: Node)
    requires Inv(g, v) && IsFree(v.tree, n)
    ensures n.level < |v.lists| && Inv(g, Take(v, n))
  {
    ListTaken(g, v, n);
    var w := Take(v, n);
    forall m: Node ensures NodeOk(g, w.tree, m) {
      assert NodeOk(g, v.tree, m) && NodeOk(g, v.tree, n);
    }
    ListsFollow(g, v, w, n, false);
  }

  lemma GiveOk(g: Geometry, v: View, n: Node)
    requires Inv(g, v) && IsLive(v.tree, n)
    requires n.level > 0 ==> !Listed(v.lists, Sibling(n))
    ensures n.level < |v.lists| && Inv(g, Give(v, n))
  {
    assert NodeOk(g, v.tree, n);
    ListGiven(g, v, n);
    var w := Give(v, n);
    forall m: Node ensures NodeOk(g, w.tree, m) {
      assert NodeOk(g, v.tree, m);
      if m in w.tree && m.level > 0 && Sibling(m) == n { assert Sibling(n) == m; }
    }
    ListsFollow(g, v, w, n, true);
  }

  /** The children of an active block are not in the tree. */
  lemma NoChildren(g: Geometry, t: Blocks, n: Node)
    requires TreeOk(g, t) && Active(t, n)
    ensures Left(n) !in t && Right(n) !in t
  {
    assert NodeOk(g, t, Left(n)) && NodeOk(g, t, Right(n));
    assert Parent(Left(n)) == n == Parent(Right(n));
  }

  /** The subdivision around each node after a live block has been split. */
  lemma SplitNodeOk(g: Geometry, t: Blocks, n: Node, m: Node)
    requires TreeOk(g, t) && IsLive(t, n) && n.level + 1 < g.levels
    ensures NodeOk(g, t[n := Split][Left(n) := Live][Right(n) := Free], m)
  {
    if m == n || m == Left(n) || m == Right(n) {
      SplitFamilyOk(g, t, n, m);
    } else if m in t {
      AwayFromSplit(g, t, n, m);
      assert NodeOk(g, t, m);
    }
  }

  lemma SplitFamilyOk(g: Geometry, t: Blocks, n: Node, m: Node)
    requires TreeOk(g, t) && IsLive(t, n) && n.level + 1 < g.levels
    requires m == n || m == Left(n) || m == Right(n)
    ensures NodeOk(g, t[n := Split][Left(n) := Live][Right(n) := Free], m)
  {
    assert NodeOk(g, t, n);
    NoChildren(g, t, n);
    ChildOffsets(g, n);
    assert Sibling(Right(n)) == Left(n);
    assert Parent(Left(n)) == n == Parent(Right(n));
  }

  /** A node that was there before a split is not related to the new halves, other than as their parent. */
  lemma AwayFromSplit(g: Geometry, t: Blocks, n: Node, m: Node)
    requires TreeOk(g, t) && IsLive(t, n) && m in t
    ensures m != Left(n) && m != Right(n)
    ensures m.level > 0 ==> Parent(m) != n && Parent(m) != Left(n) && Parent(m) != Right(n)
    ensures Sibling(m) != Right(n)
  {
    assert NodeOk(g, t, m);
    NoChildren(g, t, n);
    assert Sibling(Sibling(m)) == m;
    assert Sibling(Right(n)) == Left(n);
  }

  lemma SplitStepOk(g: Geometry, v: View, n: Node)
    requires Inv(g, v) && IsLive(v.tree, n) && n.level + 1 < g.levels
    ensures Inv(g, SplitStep(v, n)) && IsLive(SplitStep(v, n).tree, Left(n))
  {
    NoChildren(g, v.tree, n);
    ListGiven(g, v, Right(n));
    var w := SplitStep(v, n);
    forall m: Node ensures NodeOk(g, w.tree, m) {
      SplitNodeOk(g, v.tree, n, m);
    }
    ListsFollow(g, v, w, Right(n), true);
  }

  /** A live block and its free sibling have a split parent and no children. */
  lemma AroundMerge(g: Geometry, t: Blocks, n: Node)
    requires TreeOk(g, t) && IsLive(t, n) && n.level > 0 && IsFree(t, Sibling(n))
    ensures g.Has(n) && Parent(n) in t && t[Parent(n)] == Split
    ensures Left(n) !in t && Right(n) !in t && Left(Sibling(n)) !in t && Right(Sibling(n)) !in t
  {
    assert NodeOk(g, t, n);
    NoChildren(g, t, n);
    NoChildren(g, t, Sibling(n));
  }

  /** The subdivision around each node after a live block has absorbed its free sibling. */
  lemma MergedNodeOk(g: Geometry, t: Blocks, n: Node, m: Node)
    requires TreeOk(g, t) && IsLive(t, n) && n.level > 0 && IsFree(t, Sibling(n))
    ensures NodeOk(g, (t - {n, Sibling(n)})[Parent(n) := Live], m)
  {
    AroundMerge(g, t, n);
    var p, s := Parent(n), Sibling(n);
    assert NodeOk(g, t, m) && NodeOk(g, t, p);
    assert Parent(s) == p;
    if m in t && m != n && m != s && m != p { AwayFromMerge(g, t, n, m); }
  }

  /** A node other than the three of a merge keeps its relatives. */
  lemma AwayFromMerge(g: Geometry, t: Blocks, n: Node, m: Node)
    requires TreeOk(g, t) && IsLive(t, n) && n.level > 0 && IsFree(t, Sibling(n))
    requires m in t && m != n && m != Sibling(n) && m != Parent(n)
    ensures m.level > 0 ==> Parent(m) != n && Parent(m) != Sibling(n) && Parent(m) != Parent(n)
    ensures t[m] == Split ==> Left(m) != n && Left(m) != Sibling(n) && Right(m) != n && Right(m) != Sibling(n)
  {
    assert NodeOk(g, t, m);
    if m.level > 0 {
      IsChild(m);
      IsChild(n);
    }
    assert Parent(Left(m)) == m == Parent(Right(m));
    assert Parent(Sibling(n)) == Parent(n);
  }

  lemma MergeStepOk(g: Geometry, v: View, n: Node)
    requires Inv(g, v) && IsLive(v.tree, n) && n.level > 0 && Listed(v.lists, Sibling(n))
    ensures Inv(g, MergeStep(v, n)) && IsLive(MergeStep(v, n).tree, Parent(n))
    ensures v.tree[Sibling(n)] == Free && Parent(n) in v.tree && v.tree[Parent(n)] == Split
  {
    AroundMerge(g, v.tree, n);
    ListTaken(g, v, Sibling(n));
    var w := MergeStep(v, n);
    forall m: Node ensures NodeOk(g, w.tree, m) {
      MergedNodeOk(g, v.tree, n, m);
    }
    ListsFollow(g, v, w, Sibling(n), false);
  }
}

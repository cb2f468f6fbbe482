/** Each step of an operation keeps the memory in agreement with the abstract state. */
module BuddyRep {
  import opened Bits
  import opened BuddyMemory
  import opened BuddyState
  import opened Sequences
  import opened Status
  import opened Tree

  /** The same level, offset and flags in every slot; only links may differ. */
  ghost predicate SameFlags(a: seq<Block>, b: seq<Block>) {
    |a| == |b| && forall s :: 0 <= s < |a| ==> a[s].(next := Null, prev := Null) == b[s].(next := Null, prev := Null)
  }

  lemma LinkingKeepsFlags(m: Mem, s: nat, level: nat)
    requires s < |m.slots|
    ensures m.slots[s].level < |m.heads| && InRange(m, m.heads[m.slots[s].level]) ==>
              SameFlags(m.slots, Pushed(m, s).slots)
    ensures level < |m.heads| && InRange(m, m.slots[s].next) && InRange(m, m.slots[s].prev) ==>
              SameFlags(m.slots, Unlinked(m, s, level).slots)
  {
  }

  lemma SlotBound(g: Geometry, slots: seq<Block>, n: Node)
    requires g.Valid() && g.Has(n) && |slots| == Pow2(g.levels) - 1
    ensures Slot(n) < |slots|
  {
    SlotsAreNodes(g, n, 0);
  }

  /** A slot change outside all lists keeps the links. */
  lemma OffListChange(g: Geometry, m: Mem, w: Mem, v: View, n: Node, b: Block)
    requires Inv(g, v) && LinksOk(m, v.lists) && g.Has(n) && !Listed(v.lists, n)
    requires w.heads == m.heads && Slot(n) < |m.slots|
    requires w.slots == m.slots[Slot(n) := b]
    ensures LinksOk(w, v.lists)
  {
    ListedHas(g, v);
    forall k: Node | Listed(v.lists, k) && Slot(k) < |m.slots| ensures w.slots[Slot(k)] == m.slots[Slot(k)] {
      SlotInjective(n, k);
    }
    LinksFrame(m, w, v.lists);
  }

  /** The flags tell whether a block is free: exactly then it is on a list. */
  lemma FreeFlags(g: Geometry, m: Mem, v: View, hole: Option<Node>, n: Node)
    requires Inv(g, v) && Rep(g, m, v, hole) && g.Has(n)
    requires hole.Some? ==> IsLive(v.tree, hole.value)
    ensures Slot(n) < |m.slots|
    ensures m.slots[Slot(n)].isActive && !m.slots[Slot(n)].isAllocated <==> Listed(v.lists, n)
  {
    assert FlagOk(g, m.slots, v.tree, hole, n);
  }

  /** Taking a free block off its list, either to hand it out or to split it. */
  lemma TakeRep(g: Geometry, m: Mem, v: View, n: Node)
    requires Inv(g, v) && Rep(g, m, v, None) && IsFree(v.tree, n)
    ensures var s := Slot(n);
            && s < |m.slots| && n.level < |m.heads|
            && InRange(m, m.slots[s].next) && InRange(m, m.slots[s].prev)
            && n.level < |v.lists|
            && Rep(g, HandedOut(Unlinked(m, s, n.level), s), Take(v, n), None)
            && Rep(g, Deactivated(Unlinked(m, s, n.level), s), Take(v, n), Some(n))
  {
    var s, w := Slot(n), Take(v, n);
    assert Listed(v.lists, n) && NodeOk(g, v.tree, n);
    ListedHas(g, v);
    UnlinkKeepsLinks(g, m, v.lists, n);
    LinkingKeepsFlags(m, s, n.level);
    TakeOk(g, v, n);
    var u := Unlinked(m, s, n.level);
    assert !Listed(w.lists, n);
    OffListChange(g, u, HandedOut(u, s), w, n, u.slots[s].(isAllocated := true));
    OffListChange(g, u, Deactivated(u, s), w, n, u.slots[s].(isActive := false));
    forall k: Node
      ensures FlagOk(g, HandedOut(u, s).slots, w.tree, None, k)
      ensures FlagOk(g, Deactivated(u, s).slots, w.tree, Some(n), k)
    {
      assert FlagOk(g, m.slots, v.tree, None, n) && FlagOk(g, m.slots, v.tree, None, k);
      TakenFlags(g, m.slots, u, v.tree, n, k);
    }
  }

  /** The flags around the slot of a block just taken. */
  lemma TakenFlags(g: Geometry, slots: seq<Block>, u: Mem, t: Blocks, n: Node, k: Node)
    requires g.Valid() && g.Has(n) && IsFree(t, n) && SameFlags(slots, u.slots)
    requires FlagOk(g, slots, t, None, n) && FlagOk(g, slots, t, None, k)
    ensures Slot(n) < |u.slots|
    ensures FlagOk(g, HandedOut(u, Slot(n)).slots, t[n := Live], None, k)
    ensures FlagOk(g, Deactivated(u, Slot(n)).slots, t[n := Live], Some(n), k)
  {
    if g.Has(k) {
      SlotInjective(n, k);
      assert slots[Slot(k)].(next := Null, prev := Null) == u.slots[Slot(k)].(next := Null, prev := Null);
    }
  }

  /** Writing a free block to an empty slot and putting it at the head of its list. */
  function Added(g: Geometry, m: Mem, n: Node): Mem
    requires g.Valid() && g.Has(n) && |m.slots| == Pow2(g.levels) - 1 && |m.heads| == g.levels
    requires InRange(m, m.heads[n.level])
  {
    SlotBound(g, m.slots, n);
    InPool(g, n);
    SizeHalves(g, n.level);
    Pushed(Created(m, Slot(n), n.level, g.Offset(n)), Slot(n))
  }

  lemma AddedLinks(g: Geometry, m: Mem, v: View, n: Node)
    requires Inv(g, v) && LinksOk(m, v.lists) && |m.slots| == Pow2(g.levels) - 1
    requires g.Has(n) && !Listed(v.lists, n)
    ensures |m.heads| == g.levels && InRange(m, m.heads[n.level])
    ensures LinksOk(Added(g, m, n), v.lists[n.level := [n.index] + v.lists[n.level]])
  {
    PointersInRange(m, v.lists, n.level, 0);
    ListedHas(g, v);
    SlotBound(g, m.slots, n);
    InPool(g, n);
    SizeHalves(g, n.level);
    var c := Created(m, Slot(n), n.level, g.Offset(n));
    OffListChange(g, m, c, v, n, Block(Null, Null, g.Offset(n), n.level, true, false));
    PushKeepsLinks(g, c, v.lists, n);
  }

  lemma AddedFlags(g: Geometry, m: Mem, n: Node)
    requires g.Valid() && g.Has(n) && |m.slots| == Pow2(g.levels) - 1 && |m.heads| == g.levels
    requires InRange(m, m.heads[n.level])
    ensures Slot(n) < |m.slots| && g.Offset(n) < WORD
    ensures SameFlags(m.slots[Slot(n) := Block(Null, Null, g.Offset(n), n.level, true, false)],
                      Added(g, m, n).slots)
  {
    SlotBound(g, m.slots, n);
    InPool(g, n);
    SizeHalves(g, n.level);
    LinkingKeepsFlags(Created(m, Slot(n), n.level, g.Offset(n)), Slot(n), n.level);
  }

  /** One round of the splitting loop: the right half is written and listed. */
  lemma SplitRep(g: Geometry, m: Mem, v: View, n: Node)
    requires Inv(g, v) && IsLive(v.tree, n) && n.level + 1 < g.levels && Rep(g, m, v, Some(n))
    ensures g.Has(Right(n)) && Slot(Right(n)) < |m.slots| && !m.slots[Slot(Right(n))].isActive
    ensures |m.heads| == g.levels && InRange(m, m.heads[n.level + 1])
    ensures Rep(g, Added(g, m, Right(n)), SplitStep(v, n), Some(Left(n)))
  {
    var r, w := Right(n), SplitStep(v, n);
    assert NodeOk(g, v.tree, n);
    ChildOffsets(g, n);
    NoChildren(g, v.tree, n);
    SlotBound(g, m.slots, r);
    assert FlagOk(g, m.slots, v.tree, Some(n), r);
    AddedLinks(g, m, v, r);
    forall k: Node ensures FlagOk(g, Added(g, m, r).slots, w.tree, Some(Left(n)), k) {
      FlagsElsewhere(g, m, v, Some(n), w.tree, Some(Left(n)), r, k);
    }
  }

  /** The flags after adding `r`, given what becomes of every other node. */
  lemma FlagsElsewhere(g: Geometry, m: Mem, v: View, hole: Option<Node>,
                       t: Blocks, hole': Option<Node>, r: Node, k: Node)
    requires Inv(g, v) && Rep(g, m, v, hole) && g.Has(r) && !Listed(v.lists, r)
    requires |m.heads| == g.levels && InRange(m, m.heads[r.level])
    requires IsFree(t, r) && hole' != Some(r)
    requires k != r ==> ((Active(t, k) && hole' != Some(k)) <==> (Active(v.tree, k) && hole != Some(k)))
    requires k != r && Active(t, k) && hole' != Some(k) ==> t[k] == v.tree[k]
    ensures FlagOk(g, Added(g, m, r).slots, t, hole', k)
  {
    AddedFlags(g, m, r);
    assert FlagOk(g, m.slots, v.tree, hole, k);
    if g.Has(k) {
      SlotInjective(r, k);
      SlotBound(g, m.slots, k);
      var a := m.slots[Slot(r) := Block(Null, Null, g.Offset(r), r.level, true, false)];
      assert a[Slot(k)].(next := Null, prev := Null)
          == Added(g, m, r).slots[Slot(k)].(next := Null, prev := Null);
    }
  }

  /** The end of the splitting: the block in hand is written to its slot and handed out. */
  lemma HandOutRep(g: Geometry, m: Mem, v: View, n: Node)
    requires Inv(g, v) && IsLive(v.tree, n) && Rep(g, m, v, Some(n))
    ensures g.Has(n) && Slot(n) < |m.slots| && !m.slots[Slot(n)].isActive && g.Offset(n) < WORD
    ensures Rep(g, HandedOut(Created(m, Slot(n), n.level, g.Offset(n)), Slot(n)), v, None)
  {
    assert NodeOk(g, v.tree, n);
    SlotBound(g, m.slots, n);
    InPool(g, n);
    SizeHalves(g, n.level);
    assert FlagOk(g, m.slots, v.tree, Some(n), n);
    var w := HandedOut(Created(m, Slot(n), n.level, g.Offset(n)), Slot(n));
    OffListChange(g, m, w, v, n, Block(Null, Null, g.Offset(n), n.level, true, true));
    forall k: Node ensures FlagOk(g, w.slots, v.tree, None, k) {
      assert FlagOk(g, m.slots, v.tree, Some(n), k);
      if g.Has(k) { SlotInjective(n, k); }
    }
  }

  /** The start of a release: the slot of the live block becomes empty. */
  lemma DropRep(g: Geometry, m: Mem, v: View, n: Node)
    requires Inv(g, v) && IsLive(v.tree, n) && Rep(g, m, v, None)
    ensures g.Has(n) && Slot(n) < |m.slots|
    ensures m.slots[Slot(n)].level == n.level && m.slots[Slot(n)].offset == g.Offset(n)
    ensures Rep(g, Deactivated(m, Slot(n)), v, Some(n))
  {
    assert NodeOk(g, v.tree, n);
    SlotBound(g, m.slots, n);
    assert FlagOk(g, m.slots, v.tree, None, n);
    OffListChange(g, m, Deactivated(m, Slot(n)), v, n, m.slots[Slot(n)].(isActive := false));
    forall k: Node ensures FlagOk(g, Deactivated(m, Slot(n)).slots, v.tree, Some(n), k) {
      assert FlagOk(g, m.slots, v.tree, None, k);
      if g.Has(k) { SlotInjective(n, k); }
    }
  }

  /** One round of the merging loop: the free sibling leaves its list and its slot. */
  lemma MergeRep(g: Geometry, m: Mem, v: View, n: Node)
    requires Inv(g, v) && IsLive(v.tree, n) && Rep(g, m, v, Some(n))
    requires n.level > 0 && Listed(v.lists, Sibling(n))
    ensures var b := Slot(Sibling(n));
            && b < |m.slots| && n.level < |m.heads|
            && InRange(m, m.slots[b].next) && InRange(m, m.slots[b].prev)
            && n.level < |v.lists|
            && Rep(g, Deactivated(Unlinked(m, b, n.level), b), MergeStep(v, n), Some(Parent(n)))
  {
    var s, w := Sibling(n), MergeStep(v, n);
    assert NodeOk(g, v.tree, n) && NodeOk(g, v.tree, s);
    ListedHas(g, v);
    UnlinkKeepsLinks(g, m, v.lists, s);
    LinkingKeepsFlags(m, Slot(s), n.level);
    MergeStepOk(g, v, n);
    var u := Unlinked(m, Slot(s), n.level);
    assert s !in w.tree && !Listed(w.lists, s);
    OffListChange(g, u, Deactivated(u, Slot(s)), w, s, u.slots[Slot(s)].(isActive := false));
    forall k: Node ensures FlagOk(g, Deactivated(u, Slot(s)).slots, w.tree, Some(Parent(n)), k) {
      assert FlagOk(g, m.slots, v.tree, Some(n), k);
      if g.Has(k) { SlotInjective(s, k); }
    }
  }

  /** The end of a release: the block is written to its slot as a free one and listed. */
  lemma GiveRep(g: Geometry, m: Mem, v: View, n: Node)
    requires Inv(g, v) && IsLive(v.tree, n) && Rep(g, m, v, Some(n))
    requires n.level > 0 ==> !Listed(v.lists, Sibling(n))
    ensures g.Has(n) && Slot(n) < |m.slots| && !m.slots[Slot(n)].isActive
    ensures |m.heads| == g.levels && InRange(m, m.heads[n.level])
    ensures Rep(g, Added(g, m, n), Give(v, n), None)
  {
    assert NodeOk(g, v.tree, n);
    SlotBound(g, m.slots, n);
    assert FlagOk(g, m.slots, v.tree, Some(n), n);
    AddedLinks(g, m, v, n);
    forall k: Node ensures FlagOk(g, Added(g, m, n).slots, Give(v, n).tree, None, k) {
      FlagsElsewhere(g, m, v, Some(n), Give(v, n).tree, None, n, k);
    }
  }

  // ----- what the agreement says about the memory alone

  /** The slots visited by at most `steps` steps along the `next` pointers. */
  ghost function Walk(m: Mem, p: Ptr, steps: nat): seq<nat>
    decreases steps
  {
    if steps == 0 || p == Null || p.slot >= |m.slots| then []
    else [p.slot] + Walk(m, m.slots[p.slot].next, steps - 1)
  }

  lemma {:induction false} WalkFrom(m: Mem, level: nat, xs: seq<nat>, k: nat, steps: nat)
    requires ListLinked(m, level, xs) && k <= |xs| <= k + steps
    ensures var w := Walk(m, LinkTo(level, xs, k), steps);
            && |w| == |xs| - k
            && forall j :: 0 <= j < |w| ==> w[j] == Slot(Node(level, xs[k + j]))
    decreases steps
  {
    if k < |xs| {
      assert Linked(m, level, xs, k);
      WalkFrom(m, level, xs, k + 1, steps - 1);
    }
  }

  /** The slots of a list, in its order. */
  ghost predicate SlotsOf(w: seq<nat>, level: nat, xs: seq<nat>) {
    |w| == |xs| && forall j :: 0 <= j < |w| ==> w[j] == Slot(Node(level, xs[j]))
  }

  /** The slots of a free list are distinct and of its level. */
  lemma SlotsOfList(g: Geometry, v: View, level: nat, w: seq<nat>)
    requires Inv(g, v) && level < g.levels && SlotsOf(w, level, v.lists[level])
    ensures Distinct(w)
    ensures forall s :: s in w ==> s < Pow2(g.levels) - 1 && NodeAt(s).level == level
  {
    var xs := v.lists[level];
    ListedHas(g, v);
    forall i, j | 0 <= i < j < |w| ensures w[i] != w[j] {
      assert Listed(v.lists, Node(level, xs[i])) && Listed(v.lists, Node(level, xs[j]));
      SlotInjective(Node(level, xs[i]), Node(level, xs[j]));
    }
    forall s | s in w ensures s < Pow2(g.levels) - 1 && NodeAt(s).level == level {
      var j :| 0 <= j < |w| && w[j] == s;
      assert Listed(v.lists, Node(level, xs[j]));
      SlotsAreNodes(g, Node(level, xs[j]), 0);
    }
  }

  /** The slots of a free list are those of its listed blocks. */
  lemma SlotOfList(g: Geometry, v: View, level: nat, w: seq<nat>, n: Node)
    requires Inv(g, v) && level < g.levels && SlotsOf(w, level, v.lists[level])
    requires g.Has(n) && n.level == level
    ensures Slot(n) in w <==> Listed(v.lists, n)
  {
    var xs := v.lists[level];
    ListedHas(g, v);
    if Slot(n) in w {
      var j :| 0 <= j < |w| && w[j] == Slot(n);
      assert Listed(v.lists, Node(level, xs[j]));
      SlotInjective(n, Node(level, xs[j]));
    }
    if Listed(v.lists, n) {
      var j :| 0 <= j < |xs| && xs[j] == n.index;
      assert w[j] == Slot(n);
    }
  }

  /**
   * Lists agree with flags: following `next` from a level's head ends, and visits exactly
   * the active slots of the level that are not allocated, each once, and no other slot.
   */
  lemma ListsAgreeWithFlags(g: Geometry, m: Mem, v: View, level: nat, steps: nat)
    requires Inv(g, v) && Rep(g, m, v, None) && level < g.levels && steps >= |m.slots|
    ensures var w := Walk(m, m.heads[level], steps);
            && |w| == |v.lists[level]| && Distinct(w)
            && (forall s :: s in w ==> s < |m.slots| && NodeAt(s).level == level)
            && forall n: Node | g.Has(n) && n.level == level ::
                 Slot(n) in w <==> Slot(n) < |m.slots| && m.slots[Slot(n)].isActive && !m.slots[Slot(n)].isAllocated
  {
    assert ListLinked(m, level, v.lists[level]);
    ListFits(g, v, level);
    WalkFrom(m, level, v.lists[level], 0, steps);
    var w := Walk(m, m.heads[level], steps);
    assert SlotsOf(w, level, v.lists[level]);
    SlotsOfList(g, v, level, w);
    forall n: Node | g.Has(n) && n.level == level
      ensures Slot(n) in w <==> Slot(n) < |m.slots| && m.slots[Slot(n)].isActive && !m.slots[Slot(n)].isAllocated
    {
      SlotOfList(g, v, level, w, n);
      FreeFlags(g, m, v, None, n);
    }
  }

  /** A free list is no longer than the slot array. */
  lemma ListFits(g: Geometry, v: View, level: nat)
    requires Inv(g, v) && level < g.levels
    ensures |v.lists[level]| <= Pow2(g.levels) - 1
  {
    ListedHas(g, v);
    forall i | i in v.lists[level] ensures i < Pow2(level) {
      assert Listed(v.lists, Node(level, i));
    }
    BoundedDistinct(v.lists[level], Pow2(level));
    Pow2Mono(level + 1, g.levels);
  }

  lemma LargestDropped(s: seq<nat>, n: nat)
    requires n > 0 && Distinct(s) && forall i :: i in s ==> i < n
    ensures var r := Without(s, n - 1);
            Distinct(r) && |s| <= |r| + 1 && forall i :: i in r ==> i < n - 1
  {
    var r := Without(s, n - 1);
    forall i | i in r ensures i < n - 1 { WithoutMembers(s, n - 1, i); }
    WithoutMembers(s, n - 1, 0);
  }

  /** A duplicate-free sequence of numbers below `n` has at most `n` elements. */
  lemma {:induction false} BoundedDistinct(s: seq<nat>, n: nat)
    requires Distinct(s) && forall i :: i in s ==> i < n
    ensures |s| <= n
  {
    assert |s| > 0 ==> s[0] in s && s[0] < n;
    if n > 0 {
      LargestDropped(s, n);
      BoundedDistinct(Without(s, n - 1), n - 1);
    }
  }

  /** No two siblings are free, so a level has at most half its blocks free. */
  lemma FreeAtMostHalf(g: Geometry, v: View, level: nat)
    requires Inv(g, v) && 0 < level < g.levels
    ensures |v.lists[level]| <= Pow2(level - 1)
  {
    var xs := v.lists[level];
    var parents: seq<nat> := seq(|xs|, (k: nat) requires k < |xs| => xs[k] / 2);
    ListedHas(g, v);
    forall i, j | 0 <= i < j < |xs| ensures parents[i] != parents[j] {
      var a, b := Node(level, xs[i]), Node(level, xs[j]);
      assert Listed(v.lists, a) && Listed(v.lists, b) && NodeOk(g, v.tree, a);
      assert xs[i] != xs[j];
      assert parents[i] == parents[j] ==> Sibling(a) == b;
    }
    forall p | p in parents ensures p < Pow2(level - 1) {
      var k :| 0 <= k < |parents| && parents[k] == p;
      assert Listed(v.lists, Node(level, xs[k]));
    }
    BoundedDistinct(parents, Pow2(level - 1));
  }

  /** In every list `prev` is the inverse of `next`. */
  lemma PrevInvertsNext(m: Mem, lists: seq<seq<nat>>, l: nat, k: nat)
    requires LinksOk(m, lists) && l < |lists| && k < |lists[l]|
    ensures var s := Slot(Node(l, lists[l][k]));
            && s < |m.slots|
            && (m.slots[s].prev == Null <==> m.heads[l] == At(s) && k == 0)
            && (m.slots[s].next == Null <==> k + 1 == |lists[l]|)
            && (m.slots[s].next.At? ==>
                  var t := m.slots[s].next.slot;
                  t < |m.slots| && m.slots[t].prev == At(s))
  {
    assert ListLinked(m, l, lists[l]);
    assert Linked(m, l, lists[l], k) && Linked(m, l, lists[l], k + 1);
  }

  /** The slot of a live block names it, whatever happened to other blocks. */
  lemma LiveSlot(g: Geometry, m: Mem, v: View, n: Node)
    requires Inv(g, v) && Rep(g, m, v, None) && IsLive(v.tree, n)
    ensures g.Has(n) && Slot(n) < |m.slots|
    ensures var b := m.slots[Slot(n)];
            b.isActive && b.isAllocated && b.level == n.level && b.offset == g.Offset(n)
  {
    assert NodeOk(g, v.tree, n);
    assert FlagOk(g, m.slots, v.tree, None, n);
  }
}

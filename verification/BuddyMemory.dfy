/**
 * The memory of the allocator: the slot array with its flags and the intrusive doubly
 * linked free lists. A block pointer is the number of its slot.
 */
module BuddyMemory {
  import opened Bits
  import opened BuddyState
  import opened Sequences
  import opened Status
  import opened Tree

  datatype Ptr = Null | At(slot: nat)

  datatype Block = Block(next: Ptr, prev: Ptr, offset: uint32, level: nat, isActive: bool, isAllocated: bool)

  const EMPTY_SLOT := Block(Null, Null, 0, 0, false, false)

  datatype Mem = Mem(slots: seq<Block>, heads: seq<Ptr>)

  ghost predicate InRange(m: Mem, p: Ptr) { p.At? ==> p.slot < |m.slots| }

  // ----- the updates made by the list functions

  /** A fresh free block is written to a slot. */
  function Created(m: Mem, s: nat, level: nat, offset: uint32): Mem
    requires s < |m.slots|
  {
    m.(slots := m.slots[s := Block(Null, Null, offset, level, true, false)])
  }

  function Deactivated(m: Mem, s: nat): Mem
    requires s < |m.slots|
  {
    m.(slots := m.slots[s := m.slots[s].(isActive := false)])
  }

  function HandedOut(m: Mem, s: nat): Mem
    requires s < |m.slots|
  {
    m.(slots := m.slots[s := m.slots[s].(isAllocated := true)])
  }

  function SetPrev(slots: seq<Block>, p: Ptr, q: Ptr): (r: seq<Block>)
    requires p.At? ==> p.slot < |slots|
    ensures |r| == |slots|
  {
    if p.At? then slots[p.slot := slots[p.slot].(prev := q)] else slots
  }

  /** A block becomes the head of its list. */
  function Pushed(m: Mem, s: nat): Mem
    requires s < |m.slots| && m.slots[s].level < |m.heads|
    requires InRange(m, m.heads[m.slots[s].level])
  {
    var l := m.slots[s].level;
    var a := SetPrev(m.slots, m.heads[l], At(s));
    Mem(a[s := a[s].(next := m.heads[l], prev := Null)], m.heads[l := At(s)])
  }

  /** A block is unlinked from between its neighbours. */
  function Unlinked(m: Mem, s: nat, level: nat): Mem
    requires s < |m.slots| && level < |m.heads|
    requires InRange(m, m.slots[s].next) && InRange(m, m.slots[s].prev)
  {
    var next, prev := m.slots[s].next, m.slots[s].prev;
    var a := SetPrev(m.slots, next, prev);
    if prev.At? then Mem(a[prev.slot := a[prev.slot].(next := next)], m.heads)
    else Mem(a, m.heads[level := next])
  }

  // ----- agreement of the links with the free lists

  /** The pointer to the `k`-th block of the list `xs` of `level`, null outside the list. */
  ghost function LinkTo(level: nat, xs: seq<nat>, k: int): Ptr {
    if 0 <= k < |xs| then At(Slot(Node(level, xs[k]))) else Null
  }

  /** The `k`-th block of a list points to its two neighbours. */
  ghost predicate Linked(m: Mem, level: nat, xs: seq<nat>, k: nat) {
    k < |xs| ==>
      var s := Slot(Node(level, xs[k]));
      && s < |m.slots|
      && m.slots[s].next == LinkTo(level, xs, k + 1)
      && m.slots[s].prev == LinkTo(level, xs, k - 1)
  }

  ghost predicate ListLinked(m: Mem, level: nat, xs: seq<nat>) {
    && level < |m.heads|
    && m.heads[level] == LinkTo(level, xs, 0)
    && forall k: nat {:trigger Linked(m, level, xs, k)} :: Linked(m, level, xs, k)
  }

  ghost predicate LinksOk(m: Mem, lists: seq<seq<nat>>) {
    && |m.heads| == |lists|
    && forall l :: 0 <= l < |lists| ==> ListLinked(m, l, lists[l])
  }

  // ----- agreement of the flags with the tree

  /** The flags, level and offset of the slot of `n`; `hole` is a block in the middle of an operation. */
  ghost predicate FlagOk(g: Geometry, slots: seq<Block>, t: Blocks, hole: Option<Node>, n: Node) {
    g.Has(n) ==>
      && Slot(n) < |slots|
      && var b := slots[Slot(n)];
      && (b.isActive <==> Active(t, n) && hole != Some(n))
      && (b.isActive ==>
            && (b.isAllocated <==> t[n] == Live)
            && b.level == n.level
            && b.offset == g.Offset(n))
  }

  ghost predicate FlagsOk(g: Geometry, slots: seq<Block>, t: Blocks, hole: Option<Node>) {
    && |slots| == Pow2(g.levels) - 1
    && forall n: Node {:trigger FlagOk(g, slots, t, hole, n)} :: FlagOk(g, slots, t, hole, n)
  }

  /** The memory represents the abstract state. */
  ghost predicate Rep(g: Geometry, m: Mem, v: View, hole: Option<Node>) {
    LinksOk(m, v.lists) && FlagsOk(g, m.slots, v.tree, hole)
  }

  // ----- links: one list against another

  ghost predicate HasAll(g: Geometry, lists: seq<seq<nat>>) {
    && |lists| == g.levels
    && (forall l :: 0 <= l < g.levels ==> Distinct(lists[l]))
    && forall n: Node :: Listed(lists, n) ==> g.Has(n)
  }

  lemma ListedHas(g: Geometry, v: View)
    requires Inv(g, v)
    ensures HasAll(g, v.lists)
  {
    forall n: Node | Listed(v.lists, n) ensures g.Has(n) {
      assert NodeOk(g, v.tree, n);
    }
  }

  /** Two listed positions share a slot only when they are the same position. */
  lemma SlotsApart(g: Geometry, lists: seq<seq<nat>>, l: nat, k: nat, l': nat, k': nat)
    requires HasAll(g, lists)
    requires l < |lists| && k < |lists[l]| && l' < |lists| && k' < |lists[l']|
    requires Slot(Node(l, lists[l][k])) == Slot(Node(l', lists[l'][k']))
    ensures l == l' && k == k'
  {
    var a, b := Node(l, lists[l][k]), Node(l', lists[l'][k']);
    assert Listed(lists, a) && Listed(lists, b);
    SlotInjective(a, b);
  }

  /** Slots outside every list may change freely. */
  lemma LinksFrame(m: Mem, w: Mem, lists: seq<seq<nat>>)
    requires LinksOk(m, lists) && w.heads == m.heads && |w.slots| == |m.slots|
    requires forall n: Node :: Listed(lists, n) && Slot(n) < |m.slots| ==>
               && w.slots[Slot(n)].next == m.slots[Slot(n)].next
               && w.slots[Slot(n)].prev == m.slots[Slot(n)].prev
    ensures LinksOk(w, lists)
  {
    forall l | 0 <= l < |lists| ensures ListLinked(w, l, lists[l]) {
      assert ListLinked(m, l, lists[l]);
      forall k: nat ensures Linked(w, l, lists[l], k) {
        assert Linked(m, l, lists[l], k);
        assert k < |lists[l]| ==> Listed(lists, Node(l, lists[l][k]));
      }
    }
  }

  /** The pointers of a listed block stay inside the slot array. */
  lemma PointersInRange(m: Mem, lists: seq<seq<nat>>, l: nat, k: nat)
    requires LinksOk(m, lists) && l < |lists|
    ensures InRange(m, m.heads[l])
    ensures k < |lists[l]| ==>
              var s := Slot(Node(l, lists[l][k]));
              s < |m.slots| && InRange(m, m.slots[s].next) && InRange(m, m.slots[s].prev)
  {
    var xs := lists[l];
    assert ListLinked(m, l, xs);
    assert Linked(m, l, xs, 0);
    assert Linked(m, l, xs, k) && Linked(m, l, xs, k + 1);
    if k > 0 { assert Linked(m, l, xs, k - 1); }
  }

  /** Head insertion keeps every list linked. */
  lemma PushKeepsLinks(g: Geometry, m: Mem, lists: seq<seq<nat>>, n: Node)
    requires g.Valid() && HasAll(g, lists) && LinksOk(m, lists) && g.Has(n) && !Listed(lists, n)
    requires Slot(n) < |m.slots| && m.slots[Slot(n)].level == n.level
    ensures InRange(m, m.heads[n.level])
    ensures LinksOk(Pushed(m, Slot(n)), lists[n.level := [n.index] + lists[n.level]])
  {
    var l, s := n.level, Slot(n);
    PointersInRange(m, lists, l, 0);
    var w, lists' := Pushed(m, s), lists[l := [n.index] + lists[l]];
    assert ListLinked(m, l, lists[l]);
    forall j | 0 <= j < |lists'| ensures ListLinked(w, j, lists'[j]) {
      assert ListLinked(m, j, lists[j]);
      var xs := lists'[j];
      forall k: nat ensures Linked(w, j, xs, k) {
        if k < |xs| && (j != l || k > 0) {
          var q := if j == l then k - 1 else k;
          assert lists[j][q] == xs[k];
          assert Linked(m, j, lists[j], q);
          assert Listed(lists, Node(j, lists[j][q]));
          SlotInjective(n, Node(j, lists[j][q]));
          if |lists[l]| > 0 && Slot(Node(j, lists[j][q])) == Slot(Node(l, lists[l][0])) {
            SlotsApart(g, lists, j, q, l, 0);
          }
        } else if k < |xs| && |lists[l]| > 0 {
          assert Listed(lists, Node(l, lists[l][0]));
          SlotInjective(n, Node(l, lists[l][0]));
        }
      }
    }
  }

  /** Removal from any position of a list, through the block's own two pointers, keeps every list linked. */
  lemma UnlinkKeepsLinks(g: Geometry, m: Mem, lists: seq<seq<nat>>, n: Node)
    requires g.Valid() && HasAll(g, lists) && LinksOk(m, lists) && Listed(lists, n)
    ensures var s := Slot(n);
            && s < |m.slots| && InRange(m, m.slots[s].next) && InRange(m, m.slots[s].prev)
            && LinksOk(Unlinked(m, s, n.level), lists[n.level := Without(lists[n.level], n.index)])
  {
    var l := n.level;
    var xs := lists[l];
    var p := Find(xs, n.index);
    PointersInRange(m, lists, l, p);
    var w := Unlinked(m, Slot(n), l);
    assert ListLinked(m, l, xs) && Linked(m, l, xs, p);
    UnlinkedList(g, m, lists, l, p);
    var lists' := lists[l := Without(xs, n.index)];
    forall j | 0 <= j < |lists| ensures ListLinked(w, j, lists'[j]) {
      assert ListLinked(m, j, lists[j]);
      if j != l {
        forall k: nat ensures Linked(w, j, lists[j], k) {
          assert Linked(m, j, lists[j], k);
          if k < |lists[j]| { UnlinkedAt(g, m, lists, l, p, j, k); }
        }
      }
    }
  }

  /** The list that loses its element at `p`. */
  lemma UnlinkedList(g: Geometry, m: Mem, lists: seq<seq<nat>>, l: nat, p: nat)
    requires g.Valid() && HasAll(g, lists) && LinksOk(m, lists) && l < |lists| && p < |lists[l]|
    ensures var s := Slot(Node(l, lists[l][p]));
            && s < |m.slots| && InRange(m, m.slots[s].next) && InRange(m, m.slots[s].prev)
            && ListLinked(Unlinked(m, s, l), l, RemoveAt(lists[l], p))
  {
    PointersInRange(m, lists, l, p);
    var xs := lists[l];
    var w, ys := Unlinked(m, Slot(Node(l, xs[p])), l), RemoveAt(xs, p);
    assert ListLinked(m, l, xs) && Linked(m, l, xs, p);
    forall k: nat ensures Linked(w, l, ys, k) {
      if k < |ys| {
        var q := if k >= p then k + 1 else k;
        assert ys[k] == xs[q];
        assert k + 1 < |ys| ==> ys[k + 1] == xs[if k + 1 >= p then k + 2 else k + 1];
        assert k > 0 ==> ys[k - 1] == xs[if k - 1 >= p then k else k - 1];
        assert Linked(m, l, xs, q);
        UnlinkedAt(g, m, lists, l, p, l, q);
      }
    }
  }

  /** The links of one block after another one has been unlinked. */
  lemma UnlinkedAt(g: Geometry, m: Mem, lists: seq<seq<nat>>, l: nat, p: nat, j: nat, q: nat)
    requires g.Valid() && HasAll(g, lists) && LinksOk(m, lists)
    requires l < |lists| && p < |lists[l]| && j < |lists| && q < |lists[j]| && (j, q) != (l, p)
    ensures var s, t := Slot(Node(l, lists[l][p])), Slot(Node(j, lists[j][q]));
            && s < |m.slots| && InRange(m, m.slots[s].next) && InRange(m, m.slots[s].prev) && t < |m.slots|
            && var w := Unlinked(m, s, l);
            && w.slots[t].next == (if j == l && q + 1 == p then LinkTo(l, lists[l], p + 1)
                                   else LinkTo(j, lists[j], q + 1))
            && w.slots[t].prev == (if j == l && q == p + 1 then LinkTo(l, lists[l], p - 1)
                                   else LinkTo(j, lists[j], q - 1))
  {
    PointersInRange(m, lists, l, p);
    PointersInRange(m, lists, j, q);
    assert ListLinked(m, l, lists[l]) && Linked(m, l, lists[l], p);
    assert ListLinked(m, j, lists[j]) && Linked(m, j, lists[j], q);
    var t := Slot(Node(j, lists[j][q]));
    if p + 1 < |lists[l]| && t == Slot(Node(l, lists[l][p + 1])) { SlotsApart(g, lists, j, q, l, p + 1); }
    if p > 0 && t == Slot(Node(l, lists[l][p - 1])) { SlotsApart(g, lists, j, q, l, p - 1); }
    if p > 0 && p + 1 < |lists[l]| && Slot(Node(l, lists[l][p - 1])) == Slot(Node(l, lists[l][p + 1])) {
      SlotsApart(g, lists, l, p - 1, l, p + 1);
    }
  }
}

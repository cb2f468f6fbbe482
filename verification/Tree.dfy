/** The binary tree of buddy blocks: sizes, byte intervals, relatives and slot numbers. */
module Tree {
  import opened Bits

  /** A position in the tree; the root is `Node(0, 0)`. */
  datatype Node = Node(level: nat, index: nat)

  const ROOT := Node(0, 0)

  function Parent(n: Node): Node
    requires n.level > 0
  {
    Node(n.level - 1, n.index / 2)
  }

  function Left(n: Node): Node { Node(n.level + 1, 2 * n.index) }

  function Right(n: Node): Node { Node(n.level + 1, 2 * n.index + 1) }

  /** The other child of the same parent. */
  function Sibling(n: Node): Node {
    Node(n.level, if n.index % 2 == 0 then n.index + 1 else n.index - 1)
  }

  /** `a` is `n` itself or one of its ancestors. */
  ghost predicate Above(a: Node, n: Node)
    decreases n.level
  {
    n == a || (n.level > a.level && Above(a, Parent(n)))
  }

  /** The number of levels and the size of the blocks on the last one. */
  datatype Geometry = Geometry(levels: nat, minBlock: nat) {

    /** What `buddy_alloc_create` guarantees. */
    ghost predicate Valid() {
      1 <= levels && IsPow2(minBlock) && Shl(minBlock, levels - 1) < WORD
    }

    function Size(level: nat): nat
      requires level < levels
    {
      Shl(minBlock, levels - 1 - level)
    }

    function Pool(): nat
      requires levels > 0
    {
      Size(0)
    }

    ghost predicate Has(n: Node) { n.level < levels && n.index < Pow2(n.level) }

    function Offset(n: Node): nat
      requires n.level < levels
    {
      n.index * Size(n.level)
    }

    function End(n: Node): nat
      requires n.level < levels
    {
      Offset(n) + Size(n.level)
    }

    /** Byte `x` of the pool lies in the block of `n`. */
    ghost predicate Covers(n: Node, x: nat)
      requires n.level < levels
    {
      Offset(n) <= x < End(n)
    }

    /** The blocks of `a` and `b` share a byte. */
    ghost predicate Overlap(a: Node, b: Node)
      requires a.level < levels && b.level < levels
    {
      Offset(a) < End(b) && Offset(b) < End(a)
    }
  }

  // ----- sizes and offsets

  lemma SizeHalves(g: Geometry, level: nat)
    requires g.Valid() && level < g.levels
    ensures g.Size(level) > 0
    ensures level + 1 < g.levels ==> g.Size(level) == 2 * g.Size(level + 1)
  {
    ShlPositive(g.minBlock, g.levels - 1 - level);
  }

  lemma {:induction false} ShlPositive(v: nat, w: nat)
    requires v > 0
    ensures Shl(v, w) > 0
  {
    if w > 0 { ShlPositive(v, w - 1); }
  }

  lemma ChildOffsets(g: Geometry, n: Node)
    requires g.Valid() && g.Has(n) && n.level + 1 < g.levels
    ensures g.Has(Left(n)) && g.Has(Right(n))
    ensures g.Offset(Left(n)) == g.Offset(n)
    ensures g.Offset(Right(n)) == g.Offset(n) + g.Size(n.level + 1) == g.End(Left(n))
    ensures g.End(Right(n)) == g.End(n)
  {
    SizeHalves(g, n.level);
    var s := g.Size(n.level + 1);
    assert n.index * (2 * s) == (2 * n.index) * s;
    assert (2 * n.index + 1) * s == (2 * n.index) * s + s;
  }

  lemma IsChild(n: Node)
    requires n.level > 0
    ensures n == if n.index % 2 == 0 then Left(Parent(n)) else Right(Parent(n))
    ensures Sibling(n) == if n.index % 2 == 0 then Right(Parent(n)) else Left(Parent(n))
  {
  }

  lemma ParentInTree(g: Geometry, n: Node)
    requires g.Has(n) && n.level > 0
    ensures g.Has(Parent(n)) && g.Has(Sibling(n))
  {
    assert Pow2(n.level) == 2 * Pow2(n.level - 1);
  }

  /** Every block lies in the pool, and the pool fits a 32-bit word. */
  lemma {:induction false} InPool(g: Geometry, n: Node)
    requires g.Valid() && g.Has(n)
    ensures g.End(n) <= g.Pool() < WORD
    ensures g.Size(n.level) <= g.Pool()
    decreases n.level
  {
    if n.level > 0 {
      ParentInTree(g, n);
      InPool(g, Parent(n));
      ChildOffsets(g, Parent(n));
      IsChild(n);
      SizeHalves(g, n.level - 1);
    }
  }

  // ----- overlap is ancestry

  lemma MulSum(a: nat, d: nat, s: nat)
    ensures (a + 1 + d) * s == a * s + s + d * s
    ensures d * s >= 0
  {
  }

  lemma MulStep(a: nat, b: nat, s: nat)
    requires a < b
    ensures a * s + s <= b * s
  {
    MulSum(a, b - a - 1, s);
  }

  lemma SameLevelOverlap(g: Geometry, a: Node, b: Node)
    requires g.Valid() && a.level == b.level < g.levels
    ensures g.Overlap(a, b) <==> a == b
    ensures g.Offset(a) == g.Offset(b) <==> a == b
  {
    SizeHalves(g, a.level);
    if a.index < b.index {
      MulStep(a.index, b.index, g.Size(a.level));
    } else if b.index < a.index {
      MulStep(b.index, a.index, g.Size(a.level));
    }
  }

  /** Two blocks share a byte exactly when one is an ancestor of the other (or the same). */
  lemma {:induction false} OverlapIsAncestry(g: Geometry, a: Node, b: Node)
    requires g.Valid() && g.Has(a) && g.Has(b)
    ensures g.Overlap(a, b) <==> Above(a, b) || Above(b, a)
    decreases a.level + b.level
  {
    if a.level == b.level {
      SameLevelOverlap(g, a, b);
    } else if a.level < b.level {
      OverlapDown(g, a, b);
    } else {
      OverlapDown(g, b, a);
    }
  }

  lemma {:induction false} OverlapDown(g: Geometry, a: Node, b: Node)
    requires g.Valid() && g.Has(a) && g.Has(b) && a.level <= b.level
    ensures g.Overlap(a, b) <==> Above(a, b)
    ensures Above(a, b) ==> g.Offset(a) <= g.Offset(b) && g.End(b) <= g.End(a)
    decreases b.level
  {
    if a.level == b.level {
      SameLevelOverlap(g, a, b);
    } else {
      var p := Parent(b);
      ParentInTree(g, b);
      OverlapDown(g, a, p);
      ChildOffsets(g, p);
      IsChild(b);
      SizeHalves(g, b.level);
      SizeHalves(g, a.level);
      if Above(a, p) {
      } else {
        assert !g.Overlap(a, p);
      }
    }
  }

  /** A block and its sibling never overlap, and together they are the parent's block. */
  lemma {:induction false} SiblingsTileParent(g: Geometry, n: Node, x: nat)
    requires g.Valid() && g.Has(n) && n.level > 0
    ensures g.Has(Sibling(n)) && g.Has(Parent(n))
    ensures g.Covers(Parent(n), x) <==> g.Covers(n, x) || g.Covers(Sibling(n), x)
    ensures !(g.Covers(n, x) && g.Covers(Sibling(n), x))
  {
    ParentInTree(g, n);
    ChildOffsets(g, Parent(n));
    IsChild(n);
  }

  // ----- the buddy, computed with XOR

  /** XOR of the offset with the block size is the offset of the tree sibling. */
  lemma XorIsSibling(g: Geometry, n: Node)
    requires g.Valid() && g.Has(n) && n.level > 0
    ensures g.Has(Sibling(n))
    ensures Xor(g.Offset(n), g.Size(n.level)) == g.Offset(Sibling(n))
  {
    ParentInTree(g, n);
    var b: nat :| g.minBlock == Pow2(b);
    var k := b + (g.levels - 1 - n.level);
    Pow2Add(b, g.levels - 1 - n.level);
    ShlIsProduct(g.minBlock, g.levels - 1 - n.level);
    assert Pow2(k) == g.Size(n.level);
    XorAligned(n.index, k);
    SiblingOffset(n.index, g.Size(n.level));
  }

  lemma SiblingOffset(i: nat, s: nat)
    ensures (i + 1) * s == i * s + s
    ensures (i - 1) * s == i * s - s
  {
  }

  /**
   * The buddy computation as a whole: XOR with the size is an involution that stays in the
   * pool, its result is the only other block of that size with the same parent, and the
   * smaller of the two offsets is the parent's offset at twice the size.
   */
  lemma BuddyIsUniqueSibling(g: Geometry, n: Node, m: Node)
    requires g.Valid() && g.Has(n) && n.level > 0
    requires g.Has(m) && m.level == n.level
    ensures var s := g.Size(n.level); var b := Xor(g.Offset(n), s);
            && Xor(b, s) == g.Offset(n)
            && b + s <= g.Pool()
            && (g.Offset(m) == b <==> m != n && Parent(m) == Parent(n))
            && (if g.Offset(n) < b then g.Offset(n) else b) == g.Offset(Parent(n))
            && g.Size(n.level - 1) == 2 * s
  {
    XorIsSibling(g, n);
    XorSelfInverse(g.Offset(n), g.Size(n.level));
    InPool(g, Sibling(n));
    SameLevelOverlap(g, m, Sibling(n));
    SizeHalves(g, n.level);
    SizeHalves(g, n.level - 1);
    ParentInTree(g, n);
    ChildOffsets(g, Parent(n));
    IsChild(n);
    IsChild(m);
  }

  // ----- slot numbers

  /** The slot of a node in the flat block array. */
  function Slot(n: Node): nat {
    Pow2(n.level) - 1 + n.index
  }

  /** The children of the node in slot s are in slots 2s + 1 and 2s + 2. */
  lemma ChildSlots(n: Node)
    requires n.index < Pow2(n.level)
    ensures Slot(Left(n)) == 2 * Slot(n) + 1 && Left(n).index < Pow2(Left(n).level)
    ensures Slot(Right(n)) == 2 * Slot(n) + 2 && Right(n).index < Pow2(Right(n).level)
  {
  }

  lemma ChildInSlot(p: Node, slot: nat) returns (n: Node)
    requires slot > 0 && Slot(p) == (slot - 1) / 2 && p.index < Pow2(p.level)
    ensures Slot(n) == slot && n.index < Pow2(n.level)
  {
    ChildSlots(p);
    n := if slot % 2 == 1 then Left(p) else Right(p);
  }

  /** Every slot stores a node. */
  lemma {:induction false} NodeOfSlot(slot: nat) returns (n: Node)
    ensures Slot(n) == slot && n.index < Pow2(n.level)
  {
    if slot == 0 {
      n := Node(slot, slot);
    } else {
      var p := NodeOfSlot((slot - 1) / 2);
      n := ChildInSlot(p, slot);
    }
  }

  lemma SlotHasNode(slot: nat)
    ensures exists n: Node :: Slot(n) == slot && n.index < Pow2(n.level)
  {
    var n := NodeOfSlot(slot);
  }

  /** The node stored in a slot. */
  ghost function NodeAt(slot: nat): (n: Node)
    ensures Slot(n) == slot && n.index < Pow2(n.level)
  {
    SlotHasNode(slot);
    var n: Node :| Slot(n) == slot && n.index < Pow2(n.level);
    n
  }

  lemma NodeAtSlot(n: Node)
    requires n.index < Pow2(n.level)
    ensures NodeAt(Slot(n)) == n
  {
    var m := NodeAt(Slot(n));
    if m.level < n.level { Pow2Mono(m.level + 1, n.level); }
    if n.level < m.level { Pow2Mono(n.level + 1, m.level); }
  }

  lemma SlotInjective(a: Node, b: Node)
    requires a.index < Pow2(a.level) && b.index < Pow2(b.level)
    ensures Slot(a) == Slot(b) <==> a == b
  {
    NodeAtSlot(a);
    NodeAtSlot(b);
  }

  /** Tree nodes and slots below `2^levels - 1` correspond one to one. */
  lemma SlotsAreNodes(g: Geometry, n: Node, slot: nat)
    requires g.Valid()
    ensures g.Has(n) ==> Slot(n) < Pow2(g.levels) - 1 && NodeAt(Slot(n)) == n
    ensures slot < Pow2(g.levels) - 1 ==> g.Has(NodeAt(slot)) && Slot(NodeAt(slot)) == slot
  {
    if g.Has(n) {
      NodeAtSlot(n);
      Pow2Mono(n.level + 1, g.levels);
    }
    if slot < Pow2(g.levels) - 1 {
      var m := NodeAt(slot);
      if m.level >= g.levels { Pow2Mono(g.levels, m.level); }
    }
  }

  /** The slot computed from a byte offset is the slot of the node at that offset. */
  lemma SlotFromOffset(g: Geometry, n: Node)
    requires g.Valid() && g.Has(n)
    ensures g.Size(n.level) > 0
    ensures g.Offset(n) % g.Size(n.level) == 0
    ensures Pow2(n.level) - 1 + g.Offset(n) / g.Size(n.level) == Slot(n)
  {
    SizeHalves(g, n.level);
    DivExact(n.index, g.Size(n.level));
  }

  lemma DivExact(q: nat, d: nat)
    requires d > 0
    ensures q * d / d == q && q * d % d == 0
  {
    var e := q * d;
    DivUnique(q, e / d, d, e % d);
  }

  lemma DivUnique(q: int, p: int, d: int, r: int)
    requires 0 <= r < d && q * d == p * d + r
    ensures p == q && r == 0
  {
    assert (q - p) * d == r;
    assert q - p >= 1 ==> (q - p - 1) * d >= 0;
    assert q - p <= -1 ==> (p - q - 1) * d >= 0;
  }

  // ----- the 32-bit slot address

  const SLOT_BYTES: nat := 24

  /** The byte offset of a slot as the code computes it: a 32-bit product. */
  function SlotAddress(slot: nat): uint32 {
    slot * SLOT_BYTES % WORD
  }

  /** No two slots share a byte of the block array. */
  ghost predicate SlotsDisjoint(count: nat) {
    forall a, b {:trigger SlotAddress(a), SlotAddress(b)} :: 0 <= a < b < count ==>
      SlotAddress(a) + SLOT_BYTES <= SlotAddress(b) || SlotAddress(b) + SLOT_BYTES <= SlotAddress(a)
  }

  lemma SmallSlotAddress(slot: nat)
    requires slot * SLOT_BYTES < WORD
    ensures SlotAddress(slot) == slot * SLOT_BYTES
  {
  }

  lemma SmallCountDisjoint(count: nat)
    requires count * SLOT_BYTES < WORD
    ensures SlotsDisjoint(count)
  {
    forall a, b {:trigger SlotAddress(a), SlotAddress(b)} | 0 <= a < b < count
      ensures SlotAddress(a) + SLOT_BYTES <= SlotAddress(b)
    {
      SmallSlotAddress(a);
      SmallSlotAddress(b);
    }
  }

  lemma WrappedSlot()
    ensures SlotAddress(0) == 0 && SlotAddress(178956971) == 8
  {
  }

  lemma LargeCountOverlaps(count: nat)
    requires count > 178956971
    ensures !SlotsDisjoint(count)
  {
    WrappedSlot();
  }

  /** The 32-bit address product keeps the slots apart exactly up to 27 levels. */
  lemma SlotAddressBound(levels: nat)
    ensures SlotsDisjoint(Pow2(levels) - 1) <==> levels <= 27
  {
    Pow2AboveSlots();
    if levels <= 27 {
      Pow2Mono(levels, 27);
      SmallCountDisjoint(Pow2(levels) - 1);
    } else {
      Pow2Mono(28, levels);
      LargeCountOverlaps(Pow2(levels) - 1);
    }
  }
}

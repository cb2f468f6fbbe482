/** The buddy allocator: slots and free lists updated in place. */
module BuddyAllocator {
  import opened Bits
  import opened BuddyMemory
  import opened BuddyPartition
  import opened BuddyRep
  import opened BuddyRuns
  import opened BuddyState
  import opened Sequences
  import opened Sizes
  import opened Status
  import opened Tree
  import Ops = BuddyOps

  /** `calc_buddy_allocator_slot`, in 32-bit arithmetic. */
  function CalcSlot(offset: uint32, level: nat, blockSize: uint32): uint32
    requires blockSize > 0
  {
    (Shl32(1, level) + (WORD - 1) + offset / blockSize) % WORD
  }

  lemma CalcSlotIsSlot(g: Geometry, n: Node)
    requires g.Valid() && g.Has(n)
    ensures 0 < g.Size(n.level) < WORD && g.Offset(n) < WORD
    ensures CalcSlot(g.Offset(n), n.level, g.Size(n.level)) == Slot(n)
  {
    InPool(g, n);
    SlotFromOffset(g, n);
    LevelFits(g, n.level);
    assert g.Offset(n) / g.Size(n.level) == n.index;
    CalcSlotValue(g.Offset(n), n.level, g.Size(n.level), n.index);
  }

  lemma CalcSlotValue(offset: uint32, level: nat, size: uint32, i: nat)
    requires size > 0 && offset / size == i < Pow2(level) <= 0x8000_0000
    ensures CalcSlot(offset, level, size) == Pow2(level) - 1 + i
  {
    ShlIsProduct(1, level);
    assert Shl32(1, level) == Pow2(level);
  }

  /** The pool fits a word, so the number of blocks on a level does. */
  lemma LevelFits(g: Geometry, level: nat)
    requires g.Valid() && level < g.levels
    ensures Pow2(level) <= 0x8000_0000 && g.Size(level) > 0
  {
    LevelFills(g, level);
    SizeHalves(g, level);
    ProductBound(Pow2(level), g.Size(level));
    InPool(g, ROOT);
    Pow2Word();
    Pow2Order(level, 32);
    if level < 32 { Pow2Mono(level, 31); }
  }

  /** Every level of a pool fits the six bits of a block's level field, with room to spare. */
  lemma LevelFitsField(g: Geometry, level: nat)
    requires g.Valid() && level < g.levels
    ensures level < 32
  {
    LevelFits(g, level);
    Pow2Word();
    Pow2Order(level, 32);
  }

  lemma {:induction false} LevelFills(g: Geometry, level: nat)
    requires g.Valid() && level < g.levels
    ensures Pow2(level) * g.Size(level) == g.Pool()
  {
    if level > 0 {
      LevelFills(g, level - 1);
      SizeHalves(g, level - 1);
      Regroup(Pow2(level - 1), g.Size(level));
    } else {
      assert Pow2(0) == 1;
    }
  }

  lemma Regroup(p: nat, s: nat)
    ensures p * (2 * s) == (2 * p) * s
  {
  }

  lemma ProductBound(a: nat, b: nat)
    requires b > 0
    ensures a <= a * b
  {
    assert a * b == a + a * (b - 1);
  }

  /** Taking the root block of a fresh state leaves all lists empty; giving it back restores them. */
  lemma InitTaken(g: Geometry)
    requires g.Valid()
    ensures Inv(g, Init(g)) && Inv(g, Take(Init(g), ROOT))
    ensures var v := Take(Init(g), ROOT);
            && v.tree == map[ROOT := Live]
            && (forall l :: 0 <= l < g.levels ==> v.lists[l] == [])
            && Give(v, ROOT) == Init(g)
  {
    InitOk(g);
    TakeOk(g, Init(g), ROOT);
    assert [0] + [] == [0];
    WithoutHead([], 0);
    var v := Take(Init(g), ROOT);
    assert v.tree == map[ROOT := Live];
    assert Give(v, ROOT).lists == Init(g).lists;
    assert Give(v, ROOT).tree == Init(g).tree;
  }

  ghost predicate Zeroed(g: Geometry, m: Mem) {
    && |m.slots| == Pow2(g.levels) - 1 && |m.heads| == g.levels
    && (forall s :: 0 <= s < |m.slots| ==> m.slots[s] == EMPTY_SLOT)
    && (forall l :: 0 <= l < |m.heads| ==> m.heads[l] == Null)
  }

  lemma ZeroedRep(g: Geometry, m: Mem, v: View)
    requires g.Valid() && Zeroed(g, m) && v.tree == map[ROOT := Live]
    requires |v.lists| == g.levels && forall l :: 0 <= l < g.levels ==> v.lists[l] == []
    ensures Rep(g, m, v, Some(ROOT))
  {
    forall l | 0 <= l < g.levels ensures ListLinked(m, l, v.lists[l]) {
      forall k: nat ensures Linked(m, l, v.lists[l], k) { }
    }
    forall n: Node ensures FlagOk(g, m.slots, v.tree, Some(ROOT), n) {
      if g.Has(n) { SlotBound(g, m.slots, n); }
    }
  }

  /** Before the root block is listed: all slots empty, the whole pool in hand. */
  lemma InitRep(g: Geometry, m: Mem)
    requires g.Valid() && Zeroed(g, m)
    ensures |m.slots| > 0 && g.Has(ROOT) && !m.slots[0].isActive && InRange(m, m.heads[0])
    ensures CalcSlot(0, 0, BlockSize(g, 0)) == 0 && BlockSize(g, 0) > 0
    ensures Inv(g, Init(g)) && Added(g, m, ROOT) == Pushed(Created(m, 0, 0, 0), 0)
    ensures Rep(g, Added(g, m, ROOT), Init(g), None)
  {
    InitTaken(g);
    var v := Take(Init(g), ROOT);
    CalcSlotIsSlot(g, ROOT);
    SlotBound(g, m.slots, ROOT);
    ZeroedRep(g, m, v);
    GiveRep(g, m, v, ROOT);
  }

  /** What one round of the splitting loop needs to know about the right half. */
  lemma HalvesInHand(g: Geometry, m: Mem, v: View, c: Node)
    requires Inv(g, v) && IsLive(v.tree, c) && c.level + 1 < g.levels && Rep(g, m, v, Some(c))
    ensures g.Has(c) && g.Has(Left(c)) && g.Has(Right(c))
    ensures g.Size(c.level) == 2 * g.Size(c.level + 1) && g.Offset(Left(c)) == g.Offset(c)
    ensures Xor(g.Offset(c), g.Size(c.level + 1)) == g.Offset(Right(c)) < WORD
    ensures 0 < g.Size(c.level + 1) < WORD
    ensures CalcSlot(g.Offset(Right(c)), c.level + 1, g.Size(c.level + 1)) == Slot(Right(c)) < |m.slots|
    ensures !m.slots[Slot(Right(c))].isActive
    ensures |m.heads| == g.levels && InRange(m, m.heads[c.level + 1])
    ensures Rep(g, Added(g, m, Right(c)), SplitStep(v, c), Some(Left(c)))
    ensures Inv(g, SplitStep(v, c)) && IsLive(SplitStep(v, c).tree, Left(c))
  {
    assert NodeOk(g, v.tree, c);
    HalfSizes(g, c);
    SplitRep(g, m, v, c);
    SplitStepOk(g, v, c);
  }

  lemma HalfSizes(g: Geometry, c: Node)
    requires g.Valid() && g.Has(c) && c.level + 1 < g.levels
    ensures g.Has(Left(c)) && g.Has(Right(c))
    ensures g.Size(c.level) == 2 * g.Size(c.level + 1) && g.Offset(Left(c)) == g.Offset(c)
    ensures Xor(g.Offset(c), g.Size(c.level + 1)) == g.Offset(Right(c)) < WORD
    ensures 0 < g.Size(c.level + 1) < WORD
    ensures CalcSlot(g.Offset(Right(c)), c.level + 1, g.Size(c.level + 1)) == Slot(Right(c))
  {
    SizeHalves(g, c.level);
    ChildOffsets(g, c);
    RightIsBuddy(g, c);
    var r := Right(c);
    assert g.Has(r) && r.level == c.level + 1;
    CalcSlotIsSlot(g, r);
  }

  lemma RightIsBuddy(g: Geometry, c: Node)
    requires g.Valid() && g.Has(c) && c.level + 1 < g.levels
    requires g.Has(Left(c)) && g.Offset(Left(c)) == g.Offset(c)
    ensures Xor(g.Offset(c), g.Size(c.level + 1)) == g.Offset(Right(c))
  {
    var l := Left(c);
    assert Sibling(l) == Right(c);
    XorIsSibling(g, l);
  }

  /** What one round of the merging loop needs to know about the buddy. */
  lemma BuddyInHand(g: Geometry, m: Mem, v: View, n: Node)
    requires Inv(g, v) && IsLive(v.tree, n) && Rep(g, m, v, Some(n)) && n.level > 0
    ensures g.Has(n) && g.Has(Sibling(n)) && 0 < g.Size(n.level) < WORD
    ensures Xor(g.Offset(n), g.Size(n.level)) == g.Offset(Sibling(n)) < WORD
    ensures CalcSlot(g.Offset(Sibling(n)), n.level, g.Size(n.level)) == Slot(Sibling(n)) < |m.slots|
    ensures m.slots[Slot(Sibling(n))].isActive && !m.slots[Slot(Sibling(n))].isAllocated
            <==> Listed(v.lists, Sibling(n))
  {
    assert NodeOk(g, v.tree, n);
    XorIsSibling(g, n);
    CalcSlotIsSlot(g, Sibling(n));
    FreeFlags(g, m, v, Some(n), Sibling(n));
  }

  /** After a merge the smaller offset and the doubled size describe the parent. */
  lemma MergedBlock(g: Geometry, n: Node)
    requires g.Valid() && g.Has(n) && n.level > 0
    ensures g.Has(Parent(n)) && g.Has(Sibling(n))
    ensures g.Size(n.level - 1) == 2 * g.Size(n.level) < WORD
    ensures g.Offset(Parent(n)) == if g.Offset(n) < g.Offset(Sibling(n)) then g.Offset(n) else g.Offset(Sibling(n))
  {
    XorIsSibling(g, n);
    BuddyIsUniqueSibling(g, n, n);
    ParentInTree(g, n);
    InPool(g, Parent(n));
  }

  /** What the end of a release needs to know about the block in hand. */
  lemma MergedInHand(g: Geometry, m: Mem, v: View, n: Node)
    requires Inv(g, v) && IsLive(v.tree, n) && Rep(g, m, v, Some(n))
    requires n.level > 0 ==> !Listed(v.lists, Sibling(n))
    ensures g.Has(n) && 0 < g.Size(n.level) < WORD && g.Offset(n) < WORD
    ensures CalcSlot(g.Offset(n), n.level, g.Size(n.level)) == Slot(n) < |m.slots|
    ensures !m.slots[Slot(n)].isActive
    ensures |m.heads| == g.levels && InRange(m, m.heads[n.level])
    ensures Rep(g, Added(g, m, n), Give(v, n), None)
    ensures Inv(g, Give(v, n))
  {
    GiveRep(g, m, v, n);
    GiveOk(g, v, n);
    CalcSlotIsSlot(g, n);
  }

  /** A free list is as long as the set of free blocks of its level. */
  lemma FreeCountIsLength(g: Geometry, v: View, level: nat)
    requires Inv(g, v) && level < g.levels
    ensures |v.lists[level]| == |set n | n in v.tree && IsFree(v.tree, n) && n.level == level|
  {
    var s := set n | n in v.tree && IsFree(v.tree, n) && n.level == level;
    DistinctNodes(level, v.lists[level]);
    assert s == set i | i in v.lists[level] :: Node(level, i) by {
      forall n: Node ensures n in s <==> n in (set i | i in v.lists[level] :: Node(level, i)) {
        assert Listed(v.lists, n) <==> IsFree(v.tree, n);
      }
    }
  }

  /** The count of free blocks stays far inside a signed 32-bit counter. */
  lemma FreeCountBound(g: Geometry, v: View, level: nat)
    requires Inv(g, v) && level < g.levels
    ensures |v.lists[level]| <= 0x4000_0000
  {
    if level > 0 {
      FreeAtMostHalf(g, v, level);
      LevelFits(g, level);
    } else {
      ListedHas(g, v);
      forall i | i in v.lists[0] ensures i < 1 { assert Listed(v.lists, Node(0, i)); }
      BoundedDistinct(v.lists[0], 1);
    }
  }

  lemma {:induction false} DistinctNodes(level: nat, xs: seq<nat>)
    requires Distinct(xs)
    ensures |set i | i in xs :: Node(level, i)| == |xs|
  {
    if xs == [] {
      assert (set i | i in xs :: Node(level, i)) == {};
    } else {
      DistinctNodes(level, xs[1..]);
      assert xs == [xs[0]] + xs[1..];
      assert xs[0] !in xs[1..];
      assert (set i | i in xs :: Node(level, i)) == (set i | i in xs[1..] :: Node(level, i)) + {Node(level, xs[0])};
    }
  }

  /** The rounded request is a block size exactly when the request fits a level. */
  lemma RoundedLevel(g: Geometry, request: uint32, rounded: uint32)
    requires g.Valid() && request > 0
    requires request > 0x8000_0000 ==> rounded == 0
    requires request <= 0x8000_0000 ==> IsPow2(rounded) && request <= rounded < 2 * request
    ensures forall l :: 0 <= l < g.levels ==> (g.Size(l) == rounded <==> Fits(g, request, l))
  {
    forall l | 0 <= l < g.levels ensures g.Size(l) == rounded <==> Fits(g, request, l) {
      SizePow2(g, l);
      SizeMono(g, 0, l);
      SizeHalves(g, l);
      WordPow2(g.Size(l));
      if Fits(g, request, l) {
        LeastPow2Unique(g.Size(l), rounded, request);
      }
    }
  }

  /** A power of two that fits a word is at most 2^31. */
  lemma WordPow2(s: nat)
    requires IsPow2(s) && s < WORD
    ensures s <= 0x8000_0000
  {
    var a: nat :| s == Pow2(a);
    Pow2Word();
    Pow2Order(a, 32);
    Pow2Mono(a, 31);
  }

  /** There is only one power of two in [v, 2v). */
  lemma LeastPow2Unique(r: nat, s: nat, v: nat)
    requires IsPow2(r) && v <= r < 2 * v && IsPow2(s) && v <= s < 2 * v
    ensures r == s
  {
    var a: nat :| r == Pow2(a);
    var b: nat :| s == Pow2(b);
    LeastPow2(r, v, b);
    LeastPow2(s, v, a);
  }

  /** What an allocation needs to know about the level of its request. */
  lemma RequestFacts(g: Geometry, v: View, size: nat, level: nat)
    requires Inv(g, v) && Fits(g, size, level)
    ensures forall l :: Fits(g, size, l) ==> l == level
    ensures SourceLevel(v.lists, level).None? <==> Exhausted(g, LiveSet(v.tree), level)
    ensures Step(g, v, Request(size)) == (match Allocate(v, level) case None => v case Some((w, m)) => w)
    ensures Granted(g, v, size) == (match Allocate(v, level) case None => None case Some((w, m)) => Some(m))
    ensures Allocate(v, level).Some? ==>
              var (w, m) := Allocate(v, level).value;
              exists src :: Ops.AllocatedLists(v.lists, w.lists, m, src)
  {
    Ops.AllocateLists(g, v, level);
    forall l | Fits(g, size, l) ensures l == level { FitsUnique(g, size, l, level); }
    FailureIsComplete(g, v, level);
    RequestAt(g, v, size, level);
  }

  /** The slot of a live block is a handle that names it. */
  lemma HandleOf(g: Geometry, slots: seq<Block>, v: View, n: Node)
    requires Inv(g, v) && IsLive(v.tree, n) && |slots| == Pow2(g.levels) - 1
    ensures g.Has(n) && Slot(n) < |slots| && NodeAt(Slot(n)) == n
  {
    assert NodeOk(g, v.tree, n);
    SlotsAreNodes(g, n, 0);
  }

  class BuddyAllocator {
    const minBlockSize: uint32
    const numOfLevels: nat
    const slots: array<Block>
    const freeList: array<Ptr>
    ghost var view: View

    function Geo(): Geometry { Geometry(numOfLevels, minBlockSize) }

    ghost function Memory(): Mem
      reads slots, freeList
    {
      Mem(slots[..], freeList[..])
    }

    /** The memory agrees with the abstract state while the block of `hole` is in hand. */
    ghost predicate Consistent(hole: Option<Node>)
      reads this, slots, freeList
    {
      && Geo().Valid()
      && slots.Length == Pow2(numOfLevels) - 1
      && freeList.Length == numOfLevels
      && Inv(Geo(), view)
      && Rep(Geo(), Memory(), view, hole)
    }

    ghost predicate Valid()
      reads this, slots, freeList
    {
      Consistent(None)
    }

    /** `block` was handed out by this allocator and has not been freed. */
    ghost predicate IsHandle(block: nat)
      reads this, slots, freeList
    {
      block < slots.Length && Geo().Has(NodeAt(block)) && IsLive(view.tree, NodeAt(block))
    }

    // ----- creation

    /** Zeroed slots and empty lists. */
    constructor (levels: nat, minBlock: uint32, maxNodes: nat)
      requires Geometry(levels, minBlock).Valid() && maxNodes == Pow2(levels) - 1
      ensures numOfLevels == levels && minBlockSize == minBlock
      ensures fresh(slots) && fresh(freeList)
      ensures Zeroed(Geo(), Memory()) && view == Init(Geo())
    {
      numOfLevels, minBlockSize := levels, minBlock;
      slots := new Block[maxNodes](i => EMPTY_SLOT);
      freeList := new Ptr[levels](i => Null);
      view := Init(Geometry(levels, minBlock));
    }

    /** The whole pool becomes one listed block. */
    method ListRoot()
      requires Geo().Valid() && Zeroed(Geo(), Memory()) && view == Init(Geo())
      modifies slots, freeList
      ensures Valid()
    {
      InitRep(Geo(), Memory());
      var total := BlockSize(Geo(), 0);
      var blk := CreateNewBlock(0, 0, total);
      LinkedListAddBlock(blk.value);
    }

    /**
     * Accepts exactly powers of two with the block no larger than the pool, also those for
     * which the 32-bit slot addresses of the C allocator overlap: it behaves as this class
     * for pools of less than 2^27 least blocks, by `SlotsOfCreation`.
     */
    static method Create(total: uint32, minBlock: uint32) returns (r: Result<BuddyAllocator>)
      ensures r.Ok? <==> IsPow2(total) && IsPow2(minBlock) && minBlock <= total
      ensures r.Err? ==> r.error == EINVAL
      ensures r.Ok? ==>
                var b := r.value;
                && fresh(b) && fresh(b.slots) && fresh(b.freeList)
                && b.Valid() && b.view == Init(b.Geo())
                && b.minBlockSize == minBlock && b.Geo().Pool() == total
    {
      if minBlock == 0 || total == 0 || And(total, total - 1) != 0 || And(minBlock, minBlock - 1) != 0 {
        if total > 0 { PowerTest(total); }
        if minBlock > 0 { PowerTest(minBlock); }
        return Err(EINVAL);
      }
      PowerTest(total);
      PowerTest(minBlock);
      if minBlock > total { return Err(EINVAL); }
      LevelsOfRatio(total, minBlock);
      var levels := CalcNumOfLevels(total, minBlock);
      if levels.value > MAX_LEVELS { return Err(EINVAL); }
      var maxNodes := CalcMaxNodes(levels.value);
      var b := new BuddyAllocator(levels.value, minBlock, maxNodes.value);
      b.ListRoot();
      return Ok(b);
    }

    // ----- blocks and lists

    /** Writes a free block to its slot; an error when there is no such slot or it is in use. */
    method CreateNewBlock(level: nat, offset: uint32, blockSize: uint32) returns (r: Result<nat>)
      requires blockSize > 0
      modifies slots
      ensures var s := CalcSlot(offset, level, blockSize);
              if s >= slots.Length || old(slots[s].isActive)
              then r == Err(EINVAL) && Memory() == old(Memory())
              else r == Ok(s) && Memory() == Created(old(Memory()), s, level, offset)
    {
      var s := CalcSlot(offset, level, blockSize);
      if s >= slots.Length { return Err(EINVAL); }
      if slots[s].isActive { return Err(EINVAL); }
      slots[s] := Block(Null, Null, offset, level, true, false);
      return Ok(s);
    }

    method LinkedListAddBlock(s: nat)
      requires s < slots.Length && slots[s].level < freeList.Length
      requires InRange(Memory(), freeList[slots[s].level])
      modifies slots, freeList
      ensures Memory() == Pushed(old(Memory()), s)
    {
      var l := slots[s].level;
      if freeList[l] != Null {
        var h := freeList[l].slot;
        slots[h] := slots[h].(prev := At(s));
      }
      slots[s] := slots[s].(next := freeList[l]);
      slots[s] := slots[s].(prev := Null);
      freeList[l] := At(s);
    }

    method LinkedListExtractBlock(s: nat, level: nat)
      requires s < slots.Length && level < freeList.Length
      requires InRange(Memory(), slots[s].next) && InRange(Memory(), slots[s].prev)
      modifies slots, freeList
      ensures Memory() == Unlinked(old(Memory()), s, level)
    {
      var next, prev := slots[s].next, slots[s].prev;
      if next != Null {
        slots[next.slot] := slots[next.slot].(prev := prev);
      }
      if prev != Null {
        slots[prev.slot] := slots[prev.slot].(next := next);
      } else {
        freeList[level] := next;
      }
    }

    /** The pair of calls that ends a splitting round and a release; the slot is empty, so neither fails. */
    method ListNewBlock(level: nat, offset: uint32, blockSize: uint32, ghost n: Node)
      requires Geo().Valid() && Geo().Has(n) && level == n.level
      requires slots.Length == Pow2(numOfLevels) - 1 && freeList.Length == numOfLevels
      requires offset == Geo().Offset(n) && 0 < blockSize && CalcSlot(offset, level, blockSize) == Slot(n)
      requires Slot(n) < slots.Length && !slots[Slot(n)].isActive && InRange(Memory(), freeList[level])
      modifies slots, freeList
      ensures Memory() == Added(Geo(), old(Memory()), n)
    {
      var block := CreateNewBlock(level, offset, blockSize);
      LinkedListAddBlock(block.value);
    }

    // ----- allocation

    /** Hands out the head of a level's list. */
    method AllocateAtLevel(level: nat) returns (r: Option<nat>)
      requires Valid() && level < numOfLevels
      modifies slots, freeList, `view
      ensures Valid()
      ensures old(view).lists[level] == [] ==> r == None && view == old(view) && Memory() == old(Memory())
      ensures old(view).lists[level] != [] ==>
                var n := Node(level, old(view).lists[level][0]);
                && r == Some(Slot(n)) && view == Take(old(view), n)
                && IsHandle(Slot(n)) && NodeAt(Slot(n)) == n
    {
      assert ListLinked(Memory(), level, view.lists[level]);
      if freeList[level] == Null { return None; }
      ghost var n := Node(level, view.lists[level][0]);
      assert Listed(view.lists, n);
      TakeRep(Geo(), Memory(), view, n);
      TakeOk(Geo(), view, n);
      var s := freeList[level].slot;
      LinkedListExtractBlock(s, level);
      slots[s] := slots[s].(isAllocated := true);
      assert Memory() == HandedOut(Unlinked(old(Memory()), s, level), s);
      view := Take(view, n);
      HandleOf(Geo(), slots[..], view, n);
      return Some(s);
    }

    /** The nearest level at or above `start` with a free block. */
    method FindNonEmptyLevel(start: nat) returns (r: Result<nat>)
      requires Valid() && start < numOfLevels
      ensures match SourceLevel(view.lists, start)
              case None => r == Err(ENFILE)
              case Some(l) => r == Ok(l)
    {
      var level: nat := start;
      assert forall l :: 0 <= l < numOfLevels ==> ListLinked(Memory(), l, view.lists[l]);
      while level > 0 && freeList[level] == Null
        invariant level <= start
        invariant SourceLevel(view.lists, start) == SourceLevel(view.lists, level)
      {
        level := level - 1;
      }
      if freeList[level] == Null { return Err(ENFILE); }
      return Ok(level);
    }

    /** Takes the head of a level's list in hand: its slot becomes empty. */
    method TakeHead(level: nat) returns (start: nat)
      requires Valid() && level < numOfLevels && view.lists[level] != []
      modifies slots, freeList, `view
      ensures var n := Node(level, old(view).lists[level][0]);
              && Geo().Has(n) && view == Take(old(view), n) && IsLive(view.tree, n)
              && Consistent(Some(n))
              && start < slots.Length && slots[start].offset == Geo().Offset(n)
    {
      ghost var g, m := Geo(), Memory();
      assert ListLinked(m, level, view.lists[level]);
      ghost var n := Node(level, view.lists[level][0]);
      assert Listed(view.lists, n);
      assert NodeOk(g, view.tree, n) && FlagOk(g, slots[..], view.tree, None, n);
      TakeRep(g, m, view, n);
      TakeOk(g, view, n);
      start := freeList[level].slot;
      LinkingKeepsFlags(m, start, level);
      LinkedListExtractBlock(start, level);
      assert slots[..][start].offset == g.Offset(n);
      slots[start] := slots[start].(isActive := false);
      assert Memory() == Deactivated(Unlinked(m, start, level), start);
      view := Take(view, n);
    }

    /** One round of the splitting loop on the block `c` in hand. */
    method SplitOnce(lev: nat, blkOffset: uint32, blkSize: uint32, ghost c: Node) returns (bSize: uint32)
      requires Consistent(Some(c)) && IsLive(view.tree, c) && lev == c.level + 1 < numOfLevels
      requires blkOffset == Geo().Offset(c) && blkSize == Geo().Size(c.level)
      modifies slots, freeList, `view
      ensures Consistent(Some(Left(c))) && view == SplitStep(old(view), c) && IsLive(view.tree, Left(c))
      ensures blkOffset == Geo().Offset(Left(c)) && bSize == Geo().Size(lev)
    {
      HalvesInHand(Geo(), Memory(), view, c);
      bSize := blkSize / 2;
      var buddyOffset: uint32 := Xor(blkOffset, bSize);
      ListNewBlock(lev, buddyOffset, bSize, Right(c));
      view := SplitStep(view, c);
    }

    /**
     * Splits the head of the source level down to the target. The block returned is written
     * to its slot; marking it allocated is left to the caller.
     */
    method SplitBlockDown(src: nat, target: nat) returns (r: Result<nat>)
      requires Valid()
      modifies slots, freeList, `view
      ensures src >= numOfLevels || target >= numOfLevels || target <= src ==>
                r == Err(EINVAL) && view == old(view) && Memory() == old(Memory())
      ensures src < target < numOfLevels && old(view).lists[src] == [] ==>
                r == Err(ENOMEM) && view == old(view) && Memory() == old(Memory())
      ensures src < target < numOfLevels && old(view).lists[src] != [] ==>
                var n := Node(src, old(view).lists[src][0]);
                var (w, m) := Descend(Take(old(view), n), n, target);
                && r == Ok(Slot(m)) && view == w
                && Slot(m) < slots.Length && Inv(Geo(), view)
                && Rep(Geo(), HandedOut(Memory(), Slot(m)), view, None)
    {
      if src >= numOfLevels || target >= numOfLevels || target <= src { return Err(EINVAL); }
      assert ListLinked(Memory(), src, view.lists[src]);
      if freeList[src] == Null { return Err(ENOMEM); }
      ghost var c := Node(src, view.lists[src][0]);
      ghost var whole := Descend(Take(view, c), c, target);
      var start := TakeHead(src);
      var blkOffset, bSize: uint32 := slots[start].offset, BlockSize(Geo(), src);
      for lev := src + 1 to target + 1
        invariant c.level == lev - 1 && Consistent(Some(c)) && IsLive(view.tree, c)
        invariant blkOffset == Geo().Offset(c) && bSize == Geo().Size(c.level)
        invariant Descend(view, c, target) == whole
      {
        bSize := SplitOnce(lev, blkOffset, bSize, c);
        c := Left(c);
      }
      HandOutRep(Geo(), Memory(), view, c);
      CalcSlotIsSlot(Geo(), c);
      r := CreateNewBlock(target, blkOffset, bSize);
    }

    /** The end of an allocation that has to split: the new block is marked allocated. */
    method AllocateBySplitting(src: nat, target: nat) returns (r: Result<nat>)
      requires Valid() && src < target < numOfLevels && view.lists[src] != []
      modifies slots, freeList, `view
      ensures Valid()
      ensures var n := Node(src, old(view).lists[src][0]);
              var (w, m) := Descend(Take(old(view), n), n, target);
              r == Ok(Slot(m)) && view == w && IsHandle(Slot(m)) && NodeAt(Slot(m)) == m
    {
      ghost var v, n := view, Node(src, view.lists[src][0]);
      assert Listed(v.lists, n);
      TakeOk(Geo(), v, n);
      Ops.DescendOk(Geo(), Take(v, n), n, target);
      r := SplitBlockDown(src, target);
      ghost var m := Descend(Take(v, n), n, target).1;
      slots[r.value] := slots[r.value].(isAllocated := true);
      assert m in LiveSet(view.tree);
      HandleOf(Geo(), slots[..], view, m);
    }

    /**
     * Allocates a block of exactly the least block size that holds the request. An error
     * leaves the allocator unchanged; exhaustion is reported only when every aligned region
     * of that size meets a live block.
     */
    method Allocate(blockSize: uint32) returns (r: Result<nat>)
      requires Valid()
      modifies slots, freeList, `view
      ensures Valid()
      ensures r.Err? ==> view == old(view) && Memory() == old(Memory())
      ensures r == Err(EINVAL) <==> forall l :: !Fits(Geo(), blockSize, l)
      ensures forall l | Fits(Geo(), blockSize, l) ::
                r == Err(ENFILE) <==> Exhausted(Geo(), LiveSet(old(view).tree), l)
      ensures r.Ok? ==>
                var m := NodeAt(r.value);
                && IsHandle(r.value) && Geo().Has(m)
                && Fits(Geo(), blockSize, m.level)
                && BuddyState.Allocate(old(view), m.level) == Some((view, m))
                && Granted(Geo(), old(view), blockSize) == Some(m)
      ensures r.Ok? ==>
                exists src :: Ops.AllocatedLists(old(view).lists, view.lists, NodeAt(r.value), src)
      ensures view == Step(Geo(), old(view), Request(blockSize))
      ensures forall h :: old(IsHandle(h)) ==> IsHandle(h)
      ensures r.Err? ==> r.error == EINVAL || r.error == ENFILE
    {
      ghost var g, v := Geo(), view;
      RequestAt(g, v, blockSize, 0);
      StaysLive(g, v, Request(blockSize));
      if blockSize == 0 { return Err(EINVAL); }
      var splitSize := NextPow2(blockSize);
      var lvl := GetBlockLevel(Geo(), splitSize);
      RoundedLevel(g, blockSize, splitSize);
      if lvl.Err? { return Err(lvl.error); }
      var level := lvl.value;
      RequestFacts(g, v, blockSize, level);
      var found := AllocateAtLevel(level);
      if found.Some? { return Ok(found.value); }
      var src := FindNonEmptyLevel(level);
      if src.Err? { return Err(src.error); }
      r := AllocateBySplitting(src.value, level);
    }

    // ----- release

    /**
     * Looks at the buddy of the block `n` in hand; when it is free, unlinks it from the
     * middle of its list and empties its slot.
     */
    method RemoveBuddyBlock(offset: uint32, level: nat, blockSize: uint32, ghost n: Node)
      returns (rc: Code, buddyOffset: uint32, found: bool)
      requires Consistent(Some(n)) && IsLive(view.tree, n) && n.level == level > 0
      requires level < numOfLevels && offset == Geo().Offset(n) && blockSize == Geo().Size(level)
      modifies slots, freeList, `view
      ensures rc == SUCCESS
      ensures buddyOffset == Geo().Offset(Sibling(n))
      ensures found <==> Listed(old(view).lists, Sibling(n))
      ensures !found ==> view == old(view) && Memory() == old(Memory())
      ensures found ==> view == MergeStep(old(view), n) && Consistent(Some(Parent(n)))
                        && IsLive(view.tree, Parent(n))
    {
      ghost var g, m := Geo(), Memory();
      BuddyInHand(g, m, view, n);
      buddyOffset := Xor(offset, blockSize);
      var s := CalcSlot(buddyOffset, level, blockSize);
      if s >= slots.Length { return Some(EINVAL), buddyOffset, false; }
      if !slots[s].isActive || slots[s].isAllocated {
        return SUCCESS, buddyOffset, false;
      }
      MergeRep(g, m, view, n);
      MergeStepOk(g, view, n);
      LinkedListExtractBlock(s, level);
      slots[s] := slots[s].(isActive := false);
      assert Memory() == Deactivated(Unlinked(m, s, level), s);
      view := MergeStep(view, n);
      return SUCCESS, buddyOffset, true;
    }

    /** The end of a release: the merged block in hand is written as free and listed. */
    method AddMergedBlock(level: nat, offset: uint32, blockSize: uint32, ghost n: Node) returns (rc: Code)
      requires Consistent(Some(n)) && IsLive(view.tree, n) && n.level == level < numOfLevels
      requires offset == Geo().Offset(n) && blockSize == Geo().Size(level)
      requires level > 0 ==> !Listed(view.lists, Sibling(n))
      modifies slots, freeList, `view
      ensures rc == SUCCESS
      ensures Valid() && view == Give(old(view), n)
    {
      MergedInHand(Geo(), Memory(), view, n);
      ListNewBlock(level, offset, blockSize, n);
      view := Give(view, n);
      return SUCCESS;
    }

    /** The start of a release: the slot of a live block becomes empty. */
    method DropBlock(block: nat) returns (level: nat, offset: uint32)
      requires Valid() && IsHandle(block)
      modifies slots
      ensures Consistent(Some(NodeAt(block))) && Geo().Has(NodeAt(block))
      ensures level == NodeAt(block).level && offset == Geo().Offset(NodeAt(block))
    {
      DropRep(Geo(), Memory(), view, NodeAt(block));
      level, offset := slots[block].level, slots[block].offset;
      slots[block] := slots[block].(isActive := false);
      assert Memory() == Deactivated(old(Memory()), block);
    }

    /** One round of the merging loop: the block in hand absorbs its buddy if that is free. */
    method MergeOnce(level: nat, offset: uint32, blockSize: uint32, ghost n: Node)
      returns (rc: Code, found: bool, level': nat, offset': uint32, blockSize': uint32)
      requires Consistent(Some(n)) && IsLive(view.tree, n) && n.level == level > 0
      requires level < numOfLevels && offset == Geo().Offset(n) && blockSize == Geo().Size(level)
      modifies slots, freeList, `view
      ensures rc == SUCCESS
      ensures found <==> Listed(old(view).lists, Sibling(n))
      ensures var p := if found then Parent(n) else n;
              && view == (if found then MergeStep(old(view), n) else old(view))
              && Consistent(Some(p)) && IsLive(view.tree, p)
              && p.level == level' < numOfLevels
              && offset' == Geo().Offset(p) && blockSize' == Geo().Size(level')
    {
      var buddyOffset: uint32;
      level', offset', blockSize' := level, offset, blockSize;
      rc, buddyOffset, found := RemoveBuddyBlock(offset, level, blockSize, n);
      if found {
        assert NodeOk(Geo(), old(view).tree, n);
        MergedBlock(Geo(), n);
        blockSize' := blockSize * 2;
        offset' := if offset < buddyOffset then offset else buddyOffset;
        level' := level - 1;
      }
    }

    /** Frees a live block; never fails. */
    method Free(block: nat) returns (rc: Code)
      requires Valid() && IsHandle(block)
      modifies slots, freeList, `view
      ensures rc == SUCCESS
      ensures Valid() && view == Release(old(view), NodeAt(block))
      ensures view == Step(Geo(), old(view), GiveBack(NodeAt(block)))
      ensures exists q :: Ops.ReleasedLists(old(view).lists, view.lists, NodeAt(block), q) && IsFree(view.tree, q)
      ensures forall h :: h != block && old(IsHandle(h)) ==> IsHandle(h)
    {
      StaysLive(Geo(), view, GiveBack(NodeAt(block)));
      ghost var q := Ops.ReleaseLists(Geo(), view, NodeAt(block));
      if slots[block].level >= numOfLevels {
        DropRep(Geo(), Memory(), view, NodeAt(block));
        return Some(EINVAL);
      }
      ghost var n := NodeAt(block);
      ghost var whole := Release(view, n);
      var level, blockOffset := DropBlock(block);
      var blockSize: uint32 := BlockSize(Geo(), level);
      while level > 0
        invariant n.level == level < numOfLevels && Consistent(Some(n)) && IsLive(view.tree, n)
        invariant blockOffset == Geo().Offset(n) && blockSize == Geo().Size(level)
        invariant Release(view, n) == whole
      {
        var found;
        rc, found, level, blockOffset, blockSize := MergeOnce(level, blockOffset, blockSize, n);
        if rc != SUCCESS { return; }
        if !found { break; }
        n := Parent(n);
      }
      rc := AddMergedBlock(level, blockOffset, blockSize, n);
    }

    // ----- queries

    /** Walks a free list to its end: the number of steps is the number of free blocks. */
    method CountFreeBlocks(level: nat) returns (count: nat)
      requires Valid() && level < numOfLevels
      ensures count == |view.lists[level]| <= 0x4000_0000
      ensures count == |set n | n in view.tree && IsFree(view.tree, n) && n.level == level|
    {
      ghost var xs := view.lists[level];
      ghost var m := Memory();
      assert ListLinked(m, level, xs);
      count := 0;
      var cur := freeList[level];
      while cur != Null
        invariant count <= |xs| && cur == LinkTo(level, xs, count)
        decreases |xs| - count
      {
        assert Linked(m, level, xs, count);
        count := count + 1;
        cur := slots[cur.slot].next;
      }
      FreeCountIsLength(Geo(), view, level);
      FreeCountBound(Geo(), view, level);
    }

    method GetBlockOffset(block: nat) returns (offset: uint32)
      requires Valid() && IsHandle(block)
      ensures Geo().Has(NodeAt(block)) && offset == Geo().Offset(NodeAt(block))
      ensures offset == NodeAt(block).index * Geo().Size(NodeAt(block).level)
    {
      DropRep(Geo(), Memory(), view, NodeAt(block));
      offset := slots[block].offset;
    }
  }

  /** Allocating and freeing at once leaves every list as it was, order included. */
  method AllocateThenFree(b: BuddyAllocator, size: uint32) returns (r: Result<nat>)
    requires b.Valid()
    modifies b.slots, b.freeList, b`view
    ensures b.Valid() && b.view == old(b.view)
  {
    r := b.Allocate(size);
    if r.Ok? {
      Ops.ReleaseUndoesAllocate(b.Geo(), old(b.view), NodeAt(r.value).level);
      var rc := b.Free(r.value);
    }
  }
}

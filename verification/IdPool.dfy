/** The id pool: a stack of free ids beside an array of in-use flags. */
module IdPool {
  import opened Bits
  import opened Sequences
  import opened Status

  /** The position of an id, and the id at a position, in 32-bit arithmetic. */
  function Position(start: uint32, id: uint32): uint32 { (id + (WORD - start)) % WORD }

  function IdAt(start: uint32, position: uint32): uint32 { (start + position) % WORD }

  lemma PositionOfId(start: uint32, position: uint32, id: uint32)
    ensures Position(start, IdAt(start, position)) == position
    ensures IdAt(start, Position(start, id)) == id
  {
  }

  /** The range test of `id_pool_free`, whose upper bound may wrap around. */
  predicate Accepts(capacity: uint32, start: uint32, id: uint32) {
    id < (capacity + start) % WORD && id >= start
  }

  /** The range test accepts exactly the pool's ids, unless the range reaches the end of the word. */
  lemma AcceptsExactly(capacity: uint32, start: uint32, id: uint32)
    ensures start + capacity < WORD ==> (Accepts(capacity, start, id) <==> Position(start, id) < capacity)
    ensures start + capacity >= WORD ==> !Accepts(capacity, start, id)
  {
  }

  /** Every id of the pool can be freed exactly when the range stays below the end of the word. */
  lemma AllAcceptedIffNoWrap(capacity: uint32, start: uint32)
    requires capacity > 0
    ensures (forall p: uint32 | p < capacity :: Accepts(capacity, start, IdAt(start, p)))
            <==> start + capacity < WORD
  {
    forall p: uint32 | p < capacity
      ensures Accepts(capacity, start, IdAt(start, p)) <==> start + capacity < WORD
    {
      PositionOfId(start, p, 0);
      AcceptsExactly(capacity, start, IdAt(start, p));
    }
    assert Accepts(capacity, start, IdAt(start, 0)) <==> start + capacity < WORD;
  }

  /** A pool whose single id is the largest word: it is handed out and can never be freed. */
  lemma WrapLosesIds()
    ensures IdAt(0xFFFF_FFFF, 0) == 0xFFFF_FFFF && !Accepts(1, 0xFFFF_FFFF, 0xFFFF_FFFF)
  {
    AcceptsExactly(1, 0xFFFF_FFFF, 0xFFFF_FFFF);
  }

  // ----- the memory block of a pool

  const HEADER_BYTES: nat := 24
  const FREE_IDS_AT: nat := 20
  const LARGEST_SOUND: nat := 858993454

  /** The size of the one block allocated for a pool, summed in 32-bit arithmetic. */
  function PoolBytes(capacity: uint32): uint32 {
    (HEADER_BYTES + 4 * capacity % WORD + capacity) % WORD
  }

  /** Where the flags are placed in the block, behind the truncated size of the id stack. */
  function FlagsAt(capacity: uint32): nat {
    HEADER_BYTES + 4 * capacity % WORD
  }

  /** The stack and the flags lie apart from each other inside the block. */
  predicate LayoutFits(capacity: uint32) {
    FREE_IDS_AT + 4 * capacity <= FlagsAt(capacity) && FlagsAt(capacity) + capacity <= PoolBytes(capacity)
  }

  /** Both arrays have their room exactly up to this capacity; creation accepts any above zero. */
  lemma LayoutBound(capacity: uint32)
    ensures LayoutFits(capacity) <==> capacity <= LARGEST_SOUND
    ensures LayoutFits(capacity) <==> HEADER_BYTES + 5 * capacity <= PoolBytes(capacity)
  {
    if 4 * capacity >= WORD {
      assert 4 * capacity % WORD <= 4 * capacity - WORD;
    }
  }

  /** The least accepted capacity whose block is too small: its size comes out as three bytes. */
  lemma TooSmallBlock()
    ensures PoolBytes(858993455) == 3 && !LayoutFits(858993455)
  {
    LayoutBound(858993455);
  }

  // ----- free stack and flags are complementary

  /** The stack is duplicate-free and holds exactly the ids that are not in use. */
  ghost predicate Complementary(start: uint32, stack: seq<uint32>, inUse: seq<bool>) {
    && |inUse| < WORD
    && Distinct(stack)
    && (forall id: uint32 :: id in stack <==> Position(start, id) < |inUse| && !inUse[Position(start, id)])
  }

  ghost function Used(inUse: seq<bool>): set<nat> {
    set i: nat | i < |inUse| && inUse[i]
  }

  lemma {:induction false} DistinctCount(start: uint32, stack: seq<uint32>, s: set<nat>)
    requires Distinct(stack)
    requires forall i: nat :: i in s <==> exists id :: id in stack && Position(start, id) == i
    ensures |s| == |stack|
  {
    if stack == [] {
      assert forall i: nat :: i !in s;
    } else {
      var x, rest := stack[0], stack[1..];
      var q: nat := Position(start, x);
      assert stack == [x] + rest;
      assert x in stack;
      forall i: nat ensures i in s - {q} <==> exists id :: id in rest && Position(start, id) == i {
        if i in s - {q} {
          var id :| id in stack && Position(start, id) == i;
          assert id in rest;
        }
        if exists id :: id in rest && Position(start, id) == i {
          var id :| id in rest && Position(start, id) == i;
          assert id in stack && x !in rest;
          PositionOfId(start, 0, id);
          PositionOfId(start, 0, x);
        }
      }
      DistinctCount(start, rest, s - {q});
    }
  }

  ghost function Unused(inUse: seq<bool>): set<nat> {
    set i: nat | i < |inUse| && !inUse[i]
  }

  lemma {:induction false} UsedAndUnused(inUse: seq<bool>)
    ensures |Used(inUse)| + |Unused(inUse)| == |inUse|
  {
    if inUse == [] {
      assert Used(inUse) == {} == Unused(inUse);
    } else {
      var n := |inUse| - 1;
      var rest := inUse[..n];
      UsedAndUnused(rest);
      assert Used(inUse) == if inUse[n] then Used(rest) + {n} else Used(rest);
      assert Unused(inUse) == if inUse[n] then Unused(rest) else Unused(rest) + {n};
    }
  }

  /** Pigeonhole: free ids and used ids together are as many as the pool holds. */
  lemma FreeAndUsedFillPool(start: uint32, stack: seq<uint32>, inUse: seq<bool>)
    requires Complementary(start, stack, inUse)
    ensures |stack| + |Used(inUse)| == |inUse|
  {
    forall i: nat ensures i in Unused(inUse) <==> exists id :: id in stack && Position(start, id) == i {
      if i in Unused(inUse) {
        PositionOfId(start, i, 0);
        assert IdAt(start, i) in stack;
      }
    }
    DistinctCount(start, stack, Unused(inUse));
    UsedAndUnused(inUse);
  }

  /**
   * A pool with its stack and its flags as two arrays. What its members promise is what the C
   * pool does while `LayoutFits(capacity)`; beyond that its two arrays leave the block they share.
   */
  class IdPool {
    const capacity: uint32
    const idStart: uint32
    var top: uint32
    const freeIds: array<uint32>
    const inUse: array<bool>

    /** The live part of the stack. */
    ghost function Stack(): seq<uint32>
      requires top <= freeIds.Length
      reads this, freeIds
    {
      freeIds[..top]
    }

    ghost predicate Valid()
      reads this, freeIds, inUse
    {
      && 0 < capacity == freeIds.Length == inUse.Length
      && top <= capacity
      && Complementary(idStart, Stack(), inUse[..])
    }

    /** A full pool, its lowest id on top of the stack. */
    constructor (capacity: uint32, idStart: uint32)
      requires capacity > 0
      ensures this.capacity == capacity && this.idStart == idStart && fresh(freeIds) && fresh(inUse)
      ensures Valid() && top == capacity && Used(inUse[..]) == {}
      ensures forall k: uint32 | k < capacity :: freeIds[k] == IdAt(idStart, capacity - 1 - k)
    {
      this.capacity, this.idStart, top := capacity, idStart, capacity;
      freeIds := new uint32[capacity](i => 0);
      inUse := new bool[capacity](i => false);
      new;
      for i := 0 to capacity
        invariant forall k: uint32 | k < i :: freeIds[k] == IdAt(idStart, capacity - 1 - k)
        invariant top == this.capacity == capacity && this.idStart == idStart
        invariant forall k | 0 <= k < capacity :: !inUse[k]
      {
        freeIds[i] := (idStart + (capacity - 1 - i)) % WORD;
      }
      FullStack(idStart, freeIds[..], inUse[..]);
    }

    /**
     * Accepts every capacity above zero, also those whose memory block comes out too small:
     * the C pool is the valid full pool of this contract exactly when `LayoutFits(capacity)`.
     */
    static method Create(capacity: uint32, idStart: uint32) returns (r: Result<IdPool>)
      ensures r.Err? <==> capacity == 0
      ensures r.Err? ==> r.error == EINVAL
      ensures r.Ok? ==> fresh(r.value) && r.value.Valid() && r.value.top == capacity
                        && r.value.capacity == capacity && r.value.idStart == idStart
                        && fresh(r.value.freeIds) && fresh(r.value.inUse) && Used(r.value.inUse[..]) == {}
                        && forall k: uint32 | k < capacity ::
                             r.value.freeIds[k] == (idStart + (capacity - 1 - k)) % 0x1_0000_0000
    {
      if capacity == 0 { return Err(EINVAL); }
      var p := new IdPool(capacity, idStart);
      return Ok(p);
    }

    /** Hands out an id that was not in use; an error exactly when all are. */
    method Allocate() returns (r: Result<uint32>)
      requires Valid()
      modifies `top, inUse
      ensures Valid()
      ensures old(Stack()) == [] ==> r == Err(ENOENT) && Stack() == [] && inUse[..] == old(inUse[..])
      ensures old(Stack()) != [] ==>
                var id := old(Stack())[|old(Stack())| - 1];
                var p := Position(idStart, id);
                && r == Ok(id) && Stack() + [id] == old(Stack())
                && p < capacity && !old(inUse[..])[p]
                && inUse[..] == old(inUse[..])[p := true]
    {
      if top == 0 { return Err(ENOENT); }
      top := top - 1;
      var id := freeIds[top];
      var p := Position(idStart, id);
      assert id in old(Stack());
      inUse[p] := true;
      PopKeeps(idStart, old(Stack()), old(inUse[..]));
      assert Stack() == old(Stack())[..top];
      return Ok(id);
    }

    /**
     * Takes back an id in use. The push never exceeds the capacity. When the range of ids
     * reaches the end of the 32-bit word, every free is refused.
     */
    method Free(id: uint32) returns (rc: Code)
      requires Valid()
      modifies `top, freeIds, inUse
      ensures Valid()
      ensures rc == SUCCESS <==>
              idStart + capacity < WORD && idStart <= id < idStart + capacity && old(inUse[..])[id - idStart]
      ensures rc == SUCCESS ==>
                Stack() == old(Stack()) + [id] && inUse[..] == old(inUse[..])[id - idStart := false]
      ensures rc != SUCCESS ==>
                && Stack() == old(Stack()) && inUse[..] == old(inUse[..])
                && rc == Some(if idStart + capacity < WORD && idStart <= id < idStart + capacity
                              then EALREADY else ESPIPE)
    {
      var p := Position(idStart, id);
      if id >= (capacity + idStart) % WORD || id < idStart { return Some(ESPIPE); }
      AcceptsExactly(capacity, idStart, id);
      if !inUse[p] { return Some(EALREADY); }
      PushKeeps(idStart, Stack(), inUse[..], id);
      inUse[p] := false;
      freeIds[top] := id;
      top := top + 1;
      assert Stack() == old(Stack()) + [id];
      return SUCCESS;
    }

    /**
     * The number of ids in use. Counts from 2^31 on do not fit the signed counter; a pool
     * whose memory block is large enough never has that many.
     */
    method GetUsedIdCount() returns (r: Result<uint32>)
      requires Valid()
      ensures r == if |Used(inUse[..])| < 0x8000_0000 then Ok(|Used(inUse[..])|) else Err(EINVAL)
      ensures LayoutFits(capacity) ==> r == Ok(|Used(inUse[..])|)
    {
      LayoutBound(capacity);
      FreeAndUsedFillPool(idStart, Stack(), inUse[..]);
      var count := capacity - top;
      if count >= 0x8000_0000 { return Err(EINVAL); }
      return Ok(count);
    }
  }

  /** The stack of a full pool holds every id once. */
  lemma FullStack(start: uint32, stack: seq<uint32>, inUse: seq<bool>)
    requires |stack| == |inUse| < WORD && forall k | 0 <= k < |inUse| :: !inUse[k]
    requires forall k: uint32 | k < |stack| :: stack[k] == IdAt(start, |stack| - 1 - k)
    ensures Complementary(start, stack, inUse) && Used(inUse) == {}
  {
    var n := |stack|;
    forall i, j | 0 <= i < j < n ensures stack[i] != stack[j] {
      PositionOfId(start, n - 1 - i, 0);
      PositionOfId(start, n - 1 - j, 0);
    }
    forall id: uint32 ensures id in stack <==> Position(start, id) < n {
      var p := Position(start, id);
      PositionOfId(start, 0, id);
      if p < n { assert stack[n - 1 - p] == id; }
      if id in stack {
        var k :| 0 <= k < n && stack[k] == id;
        PositionOfId(start, n - 1 - k, 0);
      }
    }
  }

  /** Popping an id and flagging it keeps stack and flags complementary. */
  lemma PopKeeps(start: uint32, stack: seq<uint32>, inUse: seq<bool>)
    requires Complementary(start, stack, inUse) && stack != []
    ensures var id, rest := stack[|stack| - 1], stack[..|stack| - 1];
            var p := Position(start, id);
            p < |inUse| && !inUse[p] && Complementary(start, rest, inUse[p := true])
  {
    var id, rest := stack[|stack| - 1], stack[..|stack| - 1];
    var p := Position(start, id);
    assert stack == rest + [id] && id in stack;
    forall x: uint32 ensures x in rest <==> Position(start, x) < |inUse| && !inUse[p := true][Position(start, x)] {
      PositionOfId(start, 0, x);
      PositionOfId(start, 0, id);
      assert x in stack <==> x in rest || x == id;
    }
  }

  /** Pushing an id in use keeps them complementary and fits the stack. */
  lemma PushKeeps(start: uint32, stack: seq<uint32>, inUse: seq<bool>, id: uint32)
    requires Complementary(start, stack, inUse)
    requires Position(start, id) < |inUse| && inUse[Position(start, id)]
    ensures |stack| < |inUse|
    ensures Complementary(start, stack + [id], inUse[Position(start, id) := false])
  {
    var p := Position(start, id);
    FreeAndUsedFillPool(start, stack, inUse);
    assert p in Used(inUse);
    assert id !in stack;
    forall x: uint32
      ensures x in stack + [id] <==> Position(start, x) < |inUse| && !inUse[p := false][Position(start, x)]
    {
      PositionOfId(start, 0, x);
      PositionOfId(start, 0, id);
    }
  }

  /** A fresh pool hands out its ids in ascending order from the start: the j-th is `idStart + j`. */
  method FirstIds(capacity: uint32, idStart: uint32, count: nat) returns (ids: seq<uint32>)
    requires 0 < capacity && count <= capacity
    ensures |ids| == count
    ensures forall j :: 0 <= j < count ==> ids[j] == (idStart + j) % 0x1_0000_0000
  {
    var created := IdPool.Create(capacity, idStart);
    var pool := created.value;
    ghost var stack := pool.freeIds[..];
    ids := [];
    for i := 0 to count
      invariant pool.Valid() && pool.capacity == capacity && pool.idStart == idStart
      invariant fresh(pool) && fresh(pool.inUse)
      invariant pool.freeIds[..] == stack && pool.top == capacity - i
      invariant |ids| == i && forall j :: 0 <= j < i ==> ids[j] == (idStart + j) % 0x1_0000_0000
    {
      ghost var before := pool.Stack();
      assert before == stack[..capacity - i];
      assert stack[capacity - i - 1] == (idStart + i) % 0x1_0000_0000;
      var id := pool.Allocate();
      ids := ids + [id.value];
      assert |pool.Stack()| == pool.top;
    }
  }

  /** Freeing an id and allocating again returns the same id and restores the pool. */
  method FreeThenAllocate(pool: IdPool, id: uint32) returns (again: Result<uint32>)
    requires pool.Valid() && pool.idStart + pool.capacity < WORD
    requires pool.idStart <= id < pool.idStart + pool.capacity && pool.inUse[id - pool.idStart]
    modifies pool`top, pool.freeIds, pool.inUse
    ensures again == Ok(id)
    ensures pool.Valid() && pool.Stack() == old(pool.Stack()) && pool.inUse[..] == old(pool.inUse[..])
  {
    var rc := pool.Free(id);
    again := pool.Allocate();
  }
}

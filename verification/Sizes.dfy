/** The size arithmetic of the allocator: rounding requests, levels and slot counts. */
module Sizes {
  import opened Bits
  import opened Status
  import opened Tree

  const MAX_LEVELS: nat := 64

  // ----- next_pow2

  /** The `w` highest of the `m` significant bits of `x` are ones. */
  ghost predicate TopOnes(x: nat, m: nat, w: nat) {
    x < Pow2(m) && forall j: nat :: m <= j + w && j < m ==> Bit(x, j)
  }

  /** One `v |= v >> w` step doubles the run of leading ones. */
  lemma SmearStep(x: nat, m: nat, w: nat)
    requires TopOnes(x, m, w)
    ensures TopOnes(Or(x, Shr(x, w)), m, 2 * w)
  {
    ShrShrinks(x, w);
    OrBelow(x, Shr(x, w), m);
    forall j: nat | m <= j + 2 * w && j < m ensures Bit(Or(x, Shr(x, w)), j) {
      BitOr(x, Shr(x, w), j);
      BitShr(x, w, j);
      if m <= j + w { assert Bit(x, j); } else { assert Bit(x, j + w); }
    }
  }

  /** The step `v |= v >> w`. */
  method Smear(x: nat, w: nat, ghost m: nat) returns (y: nat)
    requires TopOnes(x, m, w)
    ensures TopOnes(y, m, 2 * w)
  {
    SmearStep(x, m, w);
    y := Or(x, Shr(x, w));
  }

  /** A power of two in [v, 2v) is the least power of two at or above v. */
  lemma LeastPow2(r: nat, v: nat, k: nat)
    requires IsPow2(r) && v <= r < 2 * v
    ensures v <= Pow2(k) ==> r <= Pow2(k)
  {
    var a: nat :| r == Pow2(a);
    if k < a { Pow2Mono(k, a); } else { Pow2Mono(a, k); }
  }

  /** Rounds up to the least power of two; zero for 0 and when that power needs 33 bits. */
  method NextPow2(v: uint32) returns (r: uint32)
    ensures v == 0 || v > 0x8000_0000 ==> r == 0
    ensures 0 < v <= 0x8000_0000 ==> IsPow2(r) && v <= r < 2 * v
    ensures 0 < v <= 0x8000_0000 ==> forall k: nat :: v <= Pow2(k) ==> r <= Pow2(k)
  {
    if v == 0 { return 0; }
    var x: nat := v - 1;
    ghost var m := BitLength(x);
    HighestBit(x);
    x := Smear(x, 1, m);
    x := Smear(x, 2, m);
    x := Smear(x, 4, m);
    x := Smear(x, 8, m);
    x := Smear(x, 16, m);
    AllOnesBelow(x, v - 1, m);
    r := (x + 1) % WORD;
    Rounded(v, x + 1, m, r);
  }

  /** The highest bit of a word is a run of one. */
  lemma HighestBit(x: nat)
    ensures TopOnes(x, BitLength(x), 1)
  {
    BitLengthBounds(x);
  }

  lemma AllOnesBelow(x: nat, y: uint32, m: nat)
    requires m == BitLength(y) && TopOnes(x, m, 32)
    ensures x + 1 == Pow2(m)
  {
    WordLength(y, m);
    AllOnes(x, m);
  }

  /** The power of two just above a word is the least one, or wraps to zero. */
  lemma Rounded(v: uint32, p: nat, m: nat, r: uint32)
    requires v > 0 && m == BitLength(v - 1) && p == Pow2(m) && r == p % WORD
    ensures v > 0x8000_0000 ==> r == 0
    ensures v <= 0x8000_0000 ==> IsPow2(r) && v <= r < 2 * v
    ensures v <= 0x8000_0000 ==> forall k: nat :: v <= Pow2(k) ==> r <= Pow2(k)
  {
    WordLength(v - 1, m);
    if v <= 0x8000_0000 {
      forall k: nat ensures v <= Pow2(k) ==> p <= Pow2(k) { LeastPow2(p, v, k); }
    }
  }

  lemma WordLength(x: nat, m: nat)
    requires x < WORD && m == BitLength(x)
    ensures m <= 32
    ensures x >= 0x8000_0000 <==> m == 32
    ensures Pow2(32) == WORD && (m < 32 ==> Pow2(m) < WORD)
    ensures x + 1 <= Pow2(m) < 2 * (x + 1)
  {
    Pow2Word();
    BitLengthBounds(x);
    if m > 32 { Pow2Mono(32, m - 1); }
    if m < 32 { Pow2Mono(m, 31); }
  }

  // ----- requests and levels

  /** A request of `size` bytes belongs to `level`: the least block size at or above it. */
  ghost predicate Fits(g: Geometry, size: nat, level: nat) {
    level < g.levels && size <= g.Size(level) < 2 * size
  }

  /** Some level serves a request of this size. */
  ghost predicate Served(g: Geometry, size: nat) {
    exists level: nat :: Fits(g, size, level)
  }

  lemma SizePow2(g: Geometry, level: nat)
    requires g.Valid() && level < g.levels
    ensures IsPow2(g.Size(level))
  {
    var b: nat :| g.minBlock == Pow2(b);
    Pow2Add(b, g.levels - 1 - level);
    ShlIsProduct(g.minBlock, g.levels - 1 - level);
  }

  lemma {:induction false} SizeMono(g: Geometry, a: nat, b: nat)
    requires g.Valid() && a <= b < g.levels
    ensures g.Size(b) <= g.Size(a)
    ensures a < b ==> 2 * g.Size(b) <= g.Size(a)
  {
    if a < b {
      SizeMono(g, a, b - 1);
      SizeHalves(g, b - 1);
    }
  }

  /** A request belongs to at most one level. */
  lemma FitsUnique(g: Geometry, size: nat, a: nat, b: nat)
    requires g.Valid() && Fits(g, size, a) && Fits(g, size, b)
    ensures a == b
  {
    if a < b { SizeMono(g, a, b); } else { SizeMono(g, b, a); }
  }

  /** A request belongs to some level exactly when it is above half the least block and within the pool. */
  lemma {:induction false} FitsExists(g: Geometry, size: nat)
    requires g.Valid()
    ensures Served(g, size) <==> g.minBlock < 2 * size && size <= g.Pool()
  {
    if g.minBlock < 2 * size && size <= g.Pool() {
      var l := FitsFrom(g, size, g.levels - 1);
    }
    forall l: nat | Fits(g, size, l) ensures g.minBlock < 2 * size && size <= g.Pool() {
      SizeMono(g, 0, l);
      SizeMono(g, l, g.levels - 1);
    }
  }

  lemma {:induction false} FitsFrom(g: Geometry, size: nat, from: nat) returns (level: nat)
    requires g.Valid() && from < g.levels && size <= g.Pool() && g.Size(from) < 2 * size
    ensures Fits(g, size, level)
  {
    if size <= g.Size(from) {
      level := from;
    } else {
      SizeHalves(g, from - 1);
      level := FitsFrom(g, size, from - 1);
    }
  }

  /** `get_block_size`: the 32-bit shift loses no bit. */
  function BlockSize(g: Geometry, level: nat): (s: uint32)
    requires g.Valid() && level < g.levels
    ensures s == g.Size(level) && IsPow2(s)
  {
    SizeMono(g, 0, level);
    SizePow2(g, level);
    Shl32(g.minBlock, g.levels - 1 - level)
  }

  /** The level whose blocks have exactly this size; an error when there is none. */
  method GetBlockLevel(g: Geometry, blockSize: uint32) returns (r: Result<nat>)
    requires g.Valid()
    ensures r.Ok? ==> r.value < g.levels && g.Size(r.value) == blockSize
    ensures r.Err? ==> r.error == EINVAL && forall l :: 0 <= l < g.levels ==> g.Size(l) != blockSize
  {
    if blockSize < g.minBlock || And(blockSize, blockSize - 1) != 0 {
      NotABlockSize(g, blockSize);
      return Err(EINVAL);
    }
    PowerTest(blockSize);
    ghost var a: nat :| blockSize == Pow2(a);
    ghost var b: nat :| g.minBlock == Pow2(b);
    Pow2Order(a, b);
    var shift, size: nat := 0, blockSize;
    while size > g.minBlock
      invariant shift + b <= a && size == Pow2(a - shift)
    {
      Pow2Order(a - shift, b);
      assert Pow2(a - shift) == 2 * Pow2(a - shift - 1);
      size := size / 2;
      shift := shift + 1;
    }
    Pow2Order(a - shift, b);
    Pow2Add(b, shift);
    ShlIsProduct(g.minBlock, shift);
    ShiftedSize(g, blockSize, shift);
    var maxLevel := g.levels - 1;
    if shift > maxLevel { return Err(EINVAL); }
    return Ok(maxLevel - shift);
  }

  lemma NotABlockSize(g: Geometry, s: nat)
    requires g.Valid() && (s < g.minBlock || And(s, s - 1) != 0)
    ensures forall l :: 0 <= l < g.levels ==> g.Size(l) != s
  {
    if s > 0 { PowerTest(s); }
    forall l | 0 <= l < g.levels ensures g.Size(l) != s {
      SizeMono(g, l, g.levels - 1);
      SizePow2(g, l);
    }
  }

  /** A size `shift` doublings above the least block is the size of one level at most. */
  lemma ShiftedSize(g: Geometry, s: nat, shift: nat)
    requires g.Valid() && s == Shl(g.minBlock, shift)
    ensures shift < g.levels ==> g.Size(g.levels - 1 - shift) == s
    ensures shift >= g.levels ==> forall l :: 0 <= l < g.levels ==> g.Size(l) != s
  {
    if shift >= g.levels {
      forall l | 0 <= l < g.levels ensures g.Size(l) != s {
        ShlGrows(g.minBlock, g.levels - 1 - l, shift);
      }
    }
  }

  lemma {:induction false} ShlGrows(v: nat, a: nat, b: nat)
    requires v > 0 && a < b
    ensures Shl(v, a) < Shl(v, b)
  {
    ShlPositive(v, b - 1);
    if a < b - 1 { ShlGrows(v, a, b - 1); }
  }

  /** `get_block_level` inverts `get_block_size`: a result for a level's size is that level. */
  lemma SizeInjective(g: Geometry, a: nat, b: nat)
    requires g.Valid() && a < g.levels && b < g.levels && g.Size(a) == g.Size(b)
    ensures a == b
  {
    SizeHalves(g, a);
    FitsUnique(g, g.Size(a), a, b);
  }

  // ----- creation

  /** Counts the bits of the ratio of two sizes. */
  method CalcNumOfLevels(blockSize: uint32, minBlock: uint32) returns (r: Result<nat>)
    ensures minBlock == 0 ==> r == Err(EINVAL)
    ensures minBlock > 0 ==> r == Ok(BitLength(blockSize / minBlock))
  {
    if minBlock == 0 { return Err(EINVAL); }
    var levels: nat, t: nat := 0, blockSize / minBlock;
    while t > 0
      invariant levels + BitLength(t) == BitLength(blockSize / minBlock)
    {
      levels := levels + 1;
      t := t / 2;
    }
    return Ok(levels);
  }

  /**
   * The number of slots of a tree with this many levels, summed level by level in two's
   * complement words. In C the shift is defined up to 31 levels; from 32 on it is not.
   */
  method CalcMaxNodes(levels: nat) returns (r: Result<uint32>)
    ensures levels == 0 || levels > 64 ==> r == Err(EINVAL)
    ensures 0 < levels <= 32 ==> r == Ok(Pow2(levels) - 1)
    ensures 32 < levels <= 64 ==> r.Ok?
  {
    if levels > MAX_LEVELS || levels == 0 { return Err(EINVAL); }
    Pow2Word();
    var maxNodes: uint32 := 0;
    for i := 0 to levels
      invariant i <= 32 ==> maxNodes == Pow2(i) - 1
      invariant levels <= MAX_LEVELS
    {
      if i < 32 { Pow2Mono(i, 31); }
      ShlIsProduct(1, i);
      maxNodes := (maxNodes + Shl32(1, i)) % WORD;
    }
    return Ok(maxNodes);
  }

  /** Powers of two a >= b have a quotient that is a power of two, and 32 levels at most. */
  lemma LevelsOfRatio(total: uint32, minBlock: uint32)
    requires IsPow2(total) && IsPow2(minBlock) && minBlock <= total
    ensures var levels := BitLength(total / minBlock);
            && 1 <= levels <= 32
            && Geometry(levels, minBlock).Valid()
            && Geometry(levels, minBlock).Pool() == total
  {
    var a: nat :| total == Pow2(a);
    var b: nat :| minBlock == Pow2(b);
    Pow2Order(b, a);
    Pow2Word();
    Pow2Order(a, 32);
    Pow2Add(b, a - b);
    ShlIsProduct(minBlock, a - b);
    LevelsOfPower(total, minBlock, a - b);
  }

  /**
   * Creation gives slots that stay apart in memory exactly for pools of less than 2^27
   * least blocks, and accepts larger ones too.
   */
  lemma SlotsOfCreation(total: uint32, minBlock: uint32)
    requires IsPow2(total) && IsPow2(minBlock) && minBlock <= total
    ensures SlotsDisjoint(Pow2(BitLength(total / minBlock)) - 1) <==> total / minBlock < 0x800_0000
  {
    LevelsOfRatio(total, minBlock);
    SlotAddressBound(BitLength(total / minBlock));
    ShortLength(total / minBlock);
  }

  lemma ShortLength(ratio: nat)
    ensures BitLength(ratio) <= 27 <==> ratio < 0x800_0000
  {
    BitLengthBounds(ratio);
    Pow2AboveSlots();
    if BitLength(ratio) <= 27 {
      Pow2Mono(BitLength(ratio), 27);
    } else {
      Pow2Mono(27, BitLength(ratio) - 1);
    }
  }

  /** A pool of 2^31 bytes in blocks of 16 is accepted, has 28 levels, and two of its slots overlap. */
  lemma AcceptedSlotsOverlap() returns (total: uint32, minBlock: uint32, slot: nat)
    ensures total == 0x8000_0000 && minBlock == 16 && slot == 178956971
    ensures IsPow2(total) && IsPow2(minBlock) && minBlock <= total
    ensures BitLength(total / minBlock) == 28
    ensures 0 < slot < Pow2(28) - 1 && SlotAddress(0) <= SlotAddress(slot) < SlotAddress(0) + SLOT_BYTES
    ensures !SlotsDisjoint(Pow2(28) - 1)
  {
    total, minBlock, slot := 0x8000_0000, 16, 178956971;
    ArgumentsAt28(total, minBlock);
    Pow2AboveSlots();
    WrappedSlot();
    LargeCountOverlaps(Pow2(28) - 1);
  }

  lemma ArgumentsAt28(total: uint32, minBlock: uint32)
    requires total == 0x8000_0000 && minBlock == 16
    ensures IsPow2(total) && IsPow2(minBlock) && BitLength(total / minBlock) == 28
  {
    Pow2Word();
    assert Pow2(4) == minBlock;
    Pow2AboveSlots();
    BitLengthPow2(27);
  }

  lemma LevelsOfPower(total: nat, minBlock: nat, k: nat)
    requires minBlock > 0 && total == Shl(minBlock, k)
    ensures BitLength(total / minBlock) == k + 1
    ensures Geometry(k + 1, minBlock).Pool() == total
  {
    ShlIsProduct(minBlock, k);
    QuotientOf(total, minBlock, Pow2(k));
    BitLengthPow2(k);
  }

  lemma QuotientOf(product: nat, d: nat, q: nat)
    requires d > 0 && product == d * q
    ensures product / d == q
  {
    DivExact(q, d);
    assert product == q * d;
  }

  lemma {:induction false} BitLengthPow2(k: nat)
    ensures BitLength(Pow2(k)) == k + 1
  {
    if k > 0 { BitLengthPow2(k - 1); }
  }
}

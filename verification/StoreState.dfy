/** The storage manager as a state: allocator view and backing file, and private buffers. */
module StoreState {
  import opened Bits
  import opened BuddyPartition
  import opened BuddyRuns
  import opened BuddyState
  import opened RamFile
  import opened Status
  import opened Tree
  import Ops = BuddyOps

  datatype Store = Store(view: View, file: Bytes)

  /** The private buffer of a block: its bytes of the backing file. */
  ghost function Buffer(g: Geometry, file: Bytes, n: Node): (b: Bytes)
    requires n.level < g.levels
    ensures |b| == g.Size(n.level)
  {
    seq<byte>(g.Size(n.level), (j: nat) => Padded(file, g.Offset(n) + j))
  }

  /** The map from live blocks to private buffers that the storage manager implements. */
  ghost function Buffers(g: Geometry, s: Store): (b: map<Node, Bytes>)
    requires Inv(g, s.view)
    ensures forall n :: n in b ==> n.level < g.levels
  {
    assert forall n :: n in LiveSet(s.view.tree) ==> NodeOk(g, s.view.tree, n);
    map n | n in LiveSet(s.view.tree) :: Buffer(g, s.file, n)
  }

  /** A buffer with `data` stored at `offset`. */
  function Splice(buffer: Bytes, offset: nat, data: Bytes): Bytes
    requires offset + |data| <= |buffer|
  {
    buffer[..offset] + data + buffer[offset + |data|..]
  }

  /** A write inside its block changes that block's buffer and no other. */
  lemma WriteIsPrivate(g: Geometry, t: Blocks, file: Bytes, n: Node, offset: nat, data: Bytes, m: Node)
    requires TreeOk(g, t) && IsLive(t, n) && IsLive(t, m)
    ensures g.Has(n) && g.Has(m)
    ensures offset + |data| <= g.Size(n.level) ==>
              Buffer(g, Overwrite(file, g.Offset(n) + offset, data), m)
              == if m == n then Splice(Buffer(g, file, n), offset, data) else Buffer(g, file, m)
  {
    ActiveDisjoint(g, t, n, m);
    if offset + |data| <= g.Size(n.level) {
      if m == n { OwnWrite(g, file, n, offset, data); } else { WriteAnywhere(g, file, g.Offset(n) + offset, data, m); }
    }
  }

  lemma OwnWrite(g: Geometry, file: Bytes, n: Node, offset: nat, data: Bytes)
    requires n.level < g.levels && offset + |data| <= g.Size(n.level)
    ensures Buffer(g, Overwrite(file, g.Offset(n) + offset, data), n) == Splice(Buffer(g, file, n), offset, data)
  {
    var o := g.Offset(n);
    var a, b := Buffer(g, Overwrite(file, o + offset, data), n), Splice(Buffer(g, file, n), offset, data);
    forall j | 0 <= j < |a| ensures a[j] == b[j] {
      OverwriteBytes(file, o + offset, data, o + j);
    }
    assert a == b;
  }

  /** A buffer at `base` of the file after `data` has been written at `at`, wherever that is. */
  ghost function Patched(buffer: Bytes, base: nat, at: nat, data: Bytes): (b: Bytes)
    ensures |b| == |buffer|
    ensures at + |data| <= base || base + |buffer| <= at ==> b == buffer
  {
    seq<byte>(|buffer|, (j: nat) requires j < |buffer| =>
      if at <= base + j < at + |data| then data[base + j - at] else buffer[j])
  }

  /** Any write gives a buffer exactly the bytes of its range that fall into the buffer's block. */
  lemma WriteAnywhere(g: Geometry, file: Bytes, at: nat, data: Bytes, m: Node)
    requires m.level < g.levels
    ensures Buffer(g, Overwrite(file, at, data), m) == Patched(Buffer(g, file, m), g.Offset(m), at, data)
  {
    var a, b := Buffer(g, Overwrite(file, at, data), m), Patched(Buffer(g, file, m), g.Offset(m), at, data);
    forall j | 0 <= j < |a| ensures a[j] == b[j] {
      OverwriteBytes(file, at, data, g.Offset(m) + j);
    }
    assert a == b;
  }

  /** The map of buffers after a write anywhere in the file. */
  ghost function PatchedAll(g: Geometry, buffers: map<Node, Bytes>, at: nat, data: Bytes): map<Node, Bytes>
    requires forall m :: m in buffers ==> m.level < g.levels
  {
    map m | m in buffers :: Patched(buffers[m], g.Offset(m), at, data)
  }

  lemma AnyWriteRefines(g: Geometry, s: Store, at: nat, data: Bytes)
    requires Inv(g, s.view)
    ensures Buffers(g, s.(file := Overwrite(s.file, at, data))) == PatchedAll(g, Buffers(g, s), at, data)
  {
    var b := Buffers(g, s);
    forall m | m in b ensures Buffer(g, Overwrite(s.file, at, data), m) == Patched(b[m], g.Offset(m), at, data) {
      WriteAnywhere(g, s.file, at, data, m);
    }
  }

  /** A write inside a live block, as a step and on the map of buffers. */
  lemma InBlockWrite(g: Geometry, s: Store, n: Node, offset: nat, data: Bytes)
    requires Inv(g, s.view) && n in Buffers(g, s) && n.level < g.levels
    requires data != [] && offset + |data| <= g.Size(n.level)
    ensures LegalOp(g, s, Write(n, offset, data))
    ensures g.Offset(n) + offset + |data| <= g.Pool() < WORD
    ensures StoreStep(g, s, Write(n, offset, data)) == s.(file := Overwrite(s.file, g.Offset(n) + offset, data))
    ensures |Buffers(g, s)[n]| == g.Size(n.level)
    ensures Buffers(g, StoreStep(g, s, Write(n, offset, data)))
         == Buffers(g, s)[n := Splice(Buffers(g, s)[n], offset, data)]
  {
    WriteRefines(g, s, n, offset, data);
  }

  /** What a write inside a live block does to the map of buffers. */
  lemma WriteRefines(g: Geometry, s: Store, n: Node, offset: nat, data: Bytes)
    requires Inv(g, s.view) && n in Buffers(g, s)
    ensures g.Has(n) && |Buffers(g, s)[n]| == g.Size(n.level)
    ensures offset + |data| <= g.Size(n.level) ==>
              && g.Offset(n) + offset + |data| <= g.Pool() < WORD
              && Buffers(g, s.(file := Overwrite(s.file, g.Offset(n) + offset, data)))
                 == Buffers(g, s)[n := Splice(Buffers(g, s)[n], offset, data)]
  {
    assert NodeOk(g, s.view.tree, n);
    InPool(g, n);
    if offset + |data| <= g.Size(n.level) {
      forall m | m in LiveSet(s.view.tree)
        ensures g.Has(m)
        ensures Buffer(g, Overwrite(s.file, g.Offset(n) + offset, data), m)
             == if m == n then Splice(Buffer(g, s.file, n), offset, data) else Buffer(g, s.file, m)
      {
        WriteIsPrivate(g, s.view.tree, s.file, n, offset, data, m);
      }
    }
  }

  /** A range of a buffer, read from the file. */
  lemma ReadRefines(g: Geometry, s: Store, n: Node, offset: nat, size: nat)
    requires Inv(g, s.view) && n in Buffers(g, s)
    ensures g.Has(n) && |Buffers(g, s)[n]| == g.Size(n.level)
    ensures offset + size <= g.Size(n.level) ==>
              var o := g.Offset(n) + offset;
              && o + size <= g.Pool() < WORD
              && (o + size <= |s.file| ==> s.file[o..o + size] == Buffers(g, s)[n][offset..offset + size])
  {
    assert NodeOk(g, s.view.tree, n);
    InPool(g, n);
    var o := g.Offset(n) + offset;
    if offset + size <= g.Size(n.level) && o + size <= |s.file| {
      var b := Buffers(g, s)[n];
      var x, y := s.file[o..o + size], b[offset..offset + size];
      forall j | 0 <= j < size ensures x[j] == y[j] {
        assert b[offset + j] == Padded(s.file, g.Offset(n) + (offset + j));
      }
      assert x == y;
    }
  }

  lemma AllocateRefines(g: Geometry, s: Store, m: Node, w: View)
    requires Inv(g, s.view) && m.level < g.levels && Allocate(s.view, m.level) == Some((w, m))
    ensures Inv(g, w) && m !in Buffers(g, s)
    ensures Buffers(g, s.(view := w)) == Buffers(g, s)[m := Buffer(g, s.file, m)]
  {
    Ops.AllocateOk(g, s.view, m.level);
    assert forall n :: n in LiveSet(s.view.tree) ==> NodeOk(g, s.view.tree, n);
  }

  lemma ReleaseRefines(g: Geometry, s: Store, n: Node)
    requires Inv(g, s.view) && IsLive(s.view.tree, n)
    ensures n.level < g.levels && Inv(g, Release(s.view, n))
    ensures Buffers(g, s.(view := Release(s.view, n))) == Buffers(g, s) - {n}
  {
    Ops.ReleaseOk(g, s.view, n);
    assert forall k :: k in LiveSet(s.view.tree) ==> NodeOk(g, s.view.tree, k);
  }

  // ----- runs of the storage manager

  datatype StoreOp =
    | Alloc(size: nat)
    | Drop(node: Node)
    | Write(node: Node, offset: nat, data: Bytes)
    | Stray(at: nat, data: Bytes)

  /**
   * Live handles, and writes inside the block. A stray write is one that leaves its block and
   * lands at `at` in the file; it has to end inside the pool, or it fails.
   */
  ghost predicate LegalOp(g: Geometry, s: Store, op: StoreOp) {
    match op
    case Alloc(_) => true
    case Drop(n) => IsLive(s.view.tree, n)
    case Write(n, offset, data) =>
      IsLive(s.view.tree, n) && n.level < g.levels && data != [] && offset + |data| <= g.Size(n.level)
    case Stray(at, data) => data != [] && g.levels > 0 && at + |data| <= g.Pool()
  }

  ghost function StoreStep(g: Geometry, s: Store, op: StoreOp): (r: Store)
    requires Inv(g, s.view) && LegalOp(g, s, op)
    ensures Inv(g, r.view)
  {
    match op
    case Alloc(size) => s.(view := Step(g, s.view, Request(size)))
    case Drop(n) => s.(view := Step(g, s.view, GiveBack(n)))
    case Write(n, offset, data) => s.(file := Overwrite(s.file, g.Offset(n) + offset, data))
    case Stray(at, data) => s.(file := Overwrite(s.file, at, data))
  }

  /**
   * Refinement: every operation acts on the map of private buffers alone. An allocation
   * adds one key, a release removes its key, a write splices its own buffer, and a stray
   * write patches every buffer with the bytes that fall into it.
   */
  lemma StepRefines(g: Geometry, s: Store, op: StoreOp)
    requires Inv(g, s.view) && LegalOp(g, s, op)
    ensures var b, b' := Buffers(g, s), Buffers(g, StoreStep(g, s, op));
            match op
            case Alloc(size) =>
              (match Granted(g, s.view, size)
               case None => b' == b
               case Some(m) => m !in b && m.level < g.levels && b' == b[m := Buffer(g, s.file, m)])
            case Drop(n) => b' == b - {n}
            case Write(n, offset, data) =>
              n in b && offset + |data| <= |b[n]| && b' == b[n := Splice(b[n], offset, data)]
            case Stray(at, data) => b' == PatchedAll(g, b, at, data)
  {
    match op
    case Alloc(size) =>
      StepLive(g, s.view, Request(size));
      var l := LevelFor(g, size);
      if l.Some? && Allocate(s.view, l.value).Some? {
        var (w, m) := Allocate(s.view, l.value).value;
        AllocateRefines(g, s, m, w);
      }
    case Drop(n) =>
      ReleaseRefines(g, s, n);
    case Write(n, offset, data) =>
      assert n in LiveSet(s.view.tree);
      WriteRefines(g, s, n, offset, data);
    case Stray(at, data) =>
      AnyWriteRefines(g, s, at, data);
  }

  ghost predicate LegalStoreRun(g: Geometry, s: Store, ops: seq<StoreOp>)
    requires Inv(g, s.view)
    decreases |ops|
  {
    ops == [] || (LegalOp(g, s, ops[0]) && LegalStoreRun(g, StoreStep(g, s, ops[0]), ops[1..]))
  }

  ghost function StoreRun(g: Geometry, s: Store, ops: seq<StoreOp>): (r: Store)
    requires Inv(g, s.view) && LegalStoreRun(g, s, ops)
    ensures Inv(g, r.view)
    decreases |ops|
  {
    if ops == [] then s else StoreRun(g, StoreStep(g, s, ops[0]), ops[1..])
  }

  /** An operation that neither releases `n` nor writes into the range of its buffer. */
  ghost predicate LeavesAlone(g: Geometry, op: StoreOp, n: Node, offset: nat, size: nat)
    requires n.level < g.levels
  {
    match op
    case Alloc(_) => true
    case Drop(m) => m != n
    case Write(m, o, d) => m != n || o + |d| <= offset || offset + size <= o
    case Stray(at, d) => at + |d| <= g.Offset(n) + offset || g.Offset(n) + offset + size <= at
  }

  /** The range of a live buffer holds `data`, and a read of it does not run past the file. */
  ghost predicate Holds(g: Geometry, s: Store, n: Node, offset: nat, data: Bytes)
    requires Inv(g, s.view)
  {
    && n in Buffers(g, s) && n.level < g.levels
    && offset + |data| <= g.Size(n.level)
    && Buffers(g, s)[n][offset..offset + |data|] == data
    && g.Offset(n) + offset + |data| <= |s.file|
    && s.file[g.Offset(n) + offset..g.Offset(n) + offset + |data|] == data
  }

  lemma WriteHolds(g: Geometry, s: Store, n: Node, offset: nat, data: Bytes)
    requires Inv(g, s.view) && LegalOp(g, s, Write(n, offset, data))
    ensures Holds(g, StoreStep(g, s, Write(n, offset, data)), n, offset, data)
  {
    StepRefines(g, s, Write(n, offset, data));
    OverwriteBytes(s.file, g.Offset(n) + offset, data, 0);
    FileHolds(g, StoreStep(g, s, Write(n, offset, data)), n, offset, data);
  }

  /** The file holds what the buffer holds. */
  lemma FileHolds(g: Geometry, s: Store, n: Node, offset: nat, data: Bytes)
    requires Inv(g, s.view) && n in Buffers(g, s) && n.level < g.levels
    requires offset + |data| <= g.Size(n.level) && Buffers(g, s)[n][offset..offset + |data|] == data
    requires g.Offset(n) + offset + |data| <= |s.file|
    ensures Holds(g, s, n, offset, data)
  {
    var b, o := Buffers(g, s)[n], g.Offset(n) + offset;
    forall j | 0 <= j < |data| ensures s.file[o..o + |data|][j] == data[j] {
      assert b[offset..offset + |data|][j] == b[offset + j] == Padded(s.file, o + j);
    }
    assert s.file[o..o + |data|] == data;
  }

  lemma StepHolds(g: Geometry, s: Store, op: StoreOp, n: Node, offset: nat, data: Bytes)
    requires Inv(g, s.view) && LegalOp(g, s, op) && Holds(g, s, n, offset, data)
    requires LeavesAlone(g, op, n, offset, |data|)
    ensures Holds(g, StoreStep(g, s, op), n, offset, data)
  {
    StepRefines(g, s, op);
    match op {
      case Alloc(_) => FileHolds(g, StoreStep(g, s, op), n, offset, data);
      case Drop(_) => FileHolds(g, StoreStep(g, s, op), n, offset, data);
      case Write(m, o, d) => WriteKeeps(g, s, m, o, d, n, offset, data);
      case Stray(at, d) => StrayKeeps(g, s, at, d, n, offset, data);
    }
  }

  lemma WriteKeeps(g: Geometry, s: Store, m: Node, o: nat, d: Bytes, n: Node, offset: nat, data: Bytes)
    requires Inv(g, s.view) && LegalOp(g, s, Write(m, o, d)) && Holds(g, s, n, offset, data)
    requires m != n || o + |d| <= offset || offset + |data| <= o
    ensures Holds(g, s.(file := Overwrite(s.file, g.Offset(m) + o, d)), n, offset, data)
  {
    assert m in LiveSet(s.view.tree);
    WriteRefines(g, s, m, o, d);
    if m == n { SpliceElsewhere(Buffers(g, s)[n], o, d, offset, |data|); }
    OverwriteHolds(g, s, g.Offset(m) + o, d, n, offset, data);
  }

  lemma StrayKeeps(g: Geometry, s: Store, at: nat, d: Bytes, n: Node, offset: nat, data: Bytes)
    requires Inv(g, s.view) && Holds(g, s, n, offset, data)
    requires at + |d| <= g.Offset(n) + offset || g.Offset(n) + offset + |data| <= at
    ensures Holds(g, s.(file := Overwrite(s.file, at, d)), n, offset, data)
  {
    AnyWriteRefines(g, s, at, d);
    PatchedElsewhere(Buffers(g, s)[n], g.Offset(n), at, d, offset, |data|);
    OverwriteHolds(g, s, at, d, n, offset, data);
  }

  /** A write after which the buffer still has the bytes. */
  lemma OverwriteHolds(g: Geometry, s: Store, at: nat, d: Bytes, n: Node, offset: nat, data: Bytes)
    requires Inv(g, s.view) && Holds(g, s, n, offset, data)
    requires var s' := s.(file := Overwrite(s.file, at, d));
             n in Buffers(g, s') && |Buffers(g, s')[n]| == g.Size(n.level) &&
             Buffers(g, s')[n][offset..offset + |data|] == data
    ensures Holds(g, s.(file := Overwrite(s.file, at, d)), n, offset, data)
  {
    OverwriteBytes(s.file, at, d, 0);
    FileHolds(g, s.(file := Overwrite(s.file, at, d)), n, offset, data);
  }

  /** A range that a splice does not touch keeps its bytes. */
  lemma SpliceElsewhere(b: Bytes, at: nat, d: Bytes, offset: nat, size: nat)
    requires at + |d| <= |b| && offset + size <= |b|
    requires at + |d| <= offset || offset + size <= at
    ensures Splice(b, at, d)[offset..offset + size] == b[offset..offset + size]
  {
  }

  lemma PatchedElsewhere(b: Bytes, base: nat, at: nat, d: Bytes, offset: nat, size: nat)
    requires offset + size <= |b|
    requires at + |d| <= base + offset || base + offset + size <= at
    ensures Patched(b, base, at, d)[offset..offset + size] == b[offset..offset + size]
  {
  }

  /**
   * Read-back: over any legal run after a write, the written range holds its bytes, in the
   * private buffer and in the file, until the block is released or the range is rewritten.
   */
  lemma {:induction false} ReadBack(g: Geometry, s: Store, n: Node, offset: nat, data: Bytes, ops: seq<StoreOp>)
    requires Inv(g, s.view) && LegalOp(g, s, Write(n, offset, data))
    requires LegalStoreRun(g, StoreStep(g, s, Write(n, offset, data)), ops)
    requires forall op :: op in ops ==> LeavesAlone(g, op, n, offset, |data|)
    ensures Holds(g, StoreRun(g, StoreStep(g, s, Write(n, offset, data)), ops), n, offset, data)
  {
    WriteHolds(g, s, n, offset, data);
    RunHolds(g, StoreStep(g, s, Write(n, offset, data)), n, offset, data, ops);
  }

  lemma {:induction false} RunHolds(g: Geometry, s: Store, n: Node, offset: nat, data: Bytes, ops: seq<StoreOp>)
    requires Inv(g, s.view) && LegalStoreRun(g, s, ops) && Holds(g, s, n, offset, data)
    requires forall op :: op in ops ==> LeavesAlone(g, op, n, offset, |data|)
    ensures Holds(g, StoreRun(g, s, ops), n, offset, data)
    decreases |ops|
  {
    if ops != [] {
      StepHolds(g, s, ops[0], n, offset, data);
      RunHolds(g, StoreStep(g, s, ops[0]), n, offset, data, ops[1..]);
    }
  }
}

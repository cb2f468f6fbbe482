/** The storage manager: an allocator and a backing file shared by all its blocks. */
module StorageManager {
  import opened Bits
  import opened BuddyPartition
  import opened BuddyState
  import opened RamFile
  import opened Sizes
  import opened Status
  import opened StoreState
  import opened Tree
  import Allocator = BuddyAllocator
  import Runs = BuddyRuns

  /** The handle given to the caller: it names a block of the allocator. */
  datatype StoreBlock = StoreBlock(block: nat)

  /** A sum in 32-bit arithmetic. */
  function Sum32(a: uint32, b: uint32): (r: uint32)
    ensures r == (a + b) % 0x1_0000_0000
  {
    if a + b < WORD then a + b else a + b - WORD
  }

  ghost function Written(s: Store, at: nat, data: Bytes): Store {
    s.(file := Overwrite(s.file, at, data))
  }

  /**
   * The outcome of a write through the handle of `n`. It succeeds exactly for data that ends
   * inside the pool, and then every buffer gets the bytes that fall into it; a failing one
   * changes nothing. A write that stays inside its block always succeeds, is the write step
   * of the runs, and changes that block's buffer only.
   */
  ghost predicate WriteOutcome(g: Geometry, s: Store, s': Store, n: Node, offset: uint32, data: Bytes, rc: Code)
    requires Inv(g, s.view) && Inv(g, s'.view) && IsLive(s.view.tree, n) && g.Has(n) && g.Offset(n) < WORD
  {
    var at := Sum32(g.Offset(n), offset);
    && (rc == SUCCESS <==> data != [] && at + |data| <= g.Pool())
    && (rc != SUCCESS ==> s' == s && rc == Some(if data == [] then EINVAL else EFBIG))
    && (rc == SUCCESS ==>
          && s' == Written(s, at, data) && Buffers(g, s') == PatchedAll(g, Buffers(g, s), at, data)
          && LegalOp(g, s, Stray(at, data)) && s' == StoreStep(g, s, Stray(at, data)))
    && (data != [] && offset + |data| <= g.Size(n.level) ==>
          && rc == SUCCESS
          && LegalOp(g, s, Write(n, offset, data)) && s' == StoreStep(g, s, Write(n, offset, data))
          && n in Buffers(g, s) && offset + |data| <= |Buffers(g, s)[n]|
          && Buffers(g, s') == Buffers(g, s)[n := Splice(Buffers(g, s)[n], offset, data)])
  }

  lemma WriteFacts(g: Geometry, s: Store, s': Store, n: Node, offset: uint32, data: Bytes, rc: Code)
    requires Inv(g, s.view) && Inv(g, s'.view) && IsLive(s.view.tree, n) && g.Has(n) && g.Offset(n) < WORD
    requires rc == SUCCESS <==> data != [] && Sum32(g.Offset(n), offset) + |data| <= g.Pool()
    requires rc == SUCCESS ==> s' == Written(s, Sum32(g.Offset(n), offset), data)
    requires rc != SUCCESS ==> s' == s && rc == Some(if data == [] then EINVAL else EFBIG)
    ensures WriteOutcome(g, s, s', n, offset, data, rc)
  {
    assert n in LiveSet(s.view.tree);
    assert n in Buffers(g, s);
    AnyWriteRefines(g, s, Sum32(g.Offset(n), offset), data);
    if data != [] && offset + |data| <= g.Size(n.level) { InBlockWrite(g, s, n, offset, data); }
  }

  /** What a buffer holds can be read: the access ends inside pool and file and finds these bytes. */
  lemma HeldIsReadable(g: Geometry, s: Store, n: Node, offset: nat, data: Bytes)
    requires Inv(g, s.view) && Holds(g, s, n, offset, data) && data != []
    ensures offset < WORD && g.Offset(n) < WORD
    ensures var at := Sum32(g.Offset(n), offset);
            at + |data| <= g.Pool() && at + |data| <= |s.file| && s.file[at..at + |data|] == data
  {
    ReadRefines(g, s, n, offset, |data|);
  }

  class StorageManager {
    const alloc: Allocator.BuddyAllocator
    const file: RamFile

    ghost predicate Valid()
      reads alloc, alloc.slots, alloc.freeList
    {
      alloc.Valid() && file.maxFileSize == alloc.Geo().Pool()
    }

    function Geo(): Geometry { alloc.Geo() }

    ghost function State(): Store
      reads alloc, file
    {
      Store(alloc.view, file.content)
    }

    /** The live blocks with their private buffers. */
    ghost function Contents(): map<Node, Bytes>
      requires Valid()
      reads alloc, alloc.slots, alloc.freeList, file
    {
      Buffers(Geo(), State())
    }

    /** The block named by a handle is live. */
    ghost predicate IsHandle(h: StoreBlock)
      reads alloc
    {
      Geo().Has(NodeAt(h.block)) && IsLive(alloc.view.tree, NodeAt(h.block))
    }

    /** Opens the backing file, limited to the pool, over whatever it already holds. */
    constructor (allocator: Allocator.BuddyAllocator, total: uint32, existing: Bytes)
      requires allocator.Valid() && allocator.Geo().Pool() == total > 0
      ensures alloc == allocator && fresh(file) && file.content == existing
      ensures Valid()
    {
      alloc := allocator;
      file := new RamFile(existing, total);
    }

    static method Create(total: uint32, minBlock: uint32, existing: Bytes) returns (r: Result<StorageManager>)
      ensures r.Ok? <==> IsPow2(total) && IsPow2(minBlock) && minBlock <= total
      ensures r.Err? ==> r.error == EINVAL
      ensures r.Ok? ==> fresh(r.value) && r.value.Valid() && r.value.Contents() == map[]
                        && r.value.file.content == existing && r.value.alloc.view == Init(r.value.Geo())
                        && r.value.Geo().minBlock == minBlock && r.value.Geo().Pool() == total
      ensures r.Ok? ==> forall size: nat ::
                Served(r.value.Geo(), size) <==> minBlock < 2 * size && size <= total
    {
      var b := Allocator.BuddyAllocator.Create(total, minBlock);
      if b.Err? { return Err(b.error); }
      var m := new StorageManager(b.value, total, existing);
      assert LiveSet(m.alloc.view.tree) == {};
      forall size: nat
        ensures Served(m.Geo(), size) <==> minBlock < 2 * size && size <= total
      {
        FitsExists(m.Geo(), size);
      }
      return Ok(m);
    }

    /** Adds one block whose size is the least that holds the request; nothing else changes. */
    method BlockAlloc(fileSize: uint32) returns (r: Result<StoreBlock>)
      requires Valid()
      modifies alloc.slots, alloc.freeList, alloc`view
      ensures Valid() && State() == StoreStep(Geo(), old(State()), Alloc(fileSize))
      ensures alloc.view == Runs.Step(Geo(), old(alloc.view), Runs.Request(fileSize))
      ensures r.Err? ==> Contents() == old(Contents()) && alloc.Memory() == old(alloc.Memory())
      ensures r.Ok? ==>
                var n := NodeAt(r.value.block);
                && IsHandle(r.value) && n !in old(Contents()) && Fits(Geo(), fileSize, n.level)
                && Contents() == old(Contents())[n := Buffer(Geo(), file.content, n)]
      ensures r == Err(EINVAL) <==> forall l :: !Fits(Geo(), fileSize, l)
      ensures forall l | Fits(Geo(), fileSize, l) ::
                r == Err(ENFILE) <==> Exhausted(Geo(), LiveSet(old(alloc.view).tree), l)
    {
      ghost var s := State();
      var b := alloc.Allocate(fileSize);
      if b.Err? { return Err(b.error); }
      AllocateRefines(Geo(), s, NodeAt(b.value), alloc.view);
      return Ok(StoreBlock(b.value));
    }

    /** Removes the block of a live handle; the buffers of all others stay. */
    method BlockFree(h: StoreBlock) returns (rc: Code)
      requires Valid() && IsHandle(h)
      modifies alloc.slots, alloc.freeList, alloc`view
      ensures rc == SUCCESS && Valid()
      ensures NodeAt(h.block) in old(Contents()) && State() == StoreStep(Geo(), old(State()), Drop(NodeAt(h.block)))
      ensures alloc.view == Release(old(alloc.view), NodeAt(h.block))
      ensures Contents() == old(Contents()) - {NodeAt(h.block)}
    {
      ReleaseRefines(Geo(), State(), NodeAt(h.block));
      Allocator.HandleOf(Geo(), alloc.slots[..], alloc.view, NodeAt(h.block));
      rc := alloc.Free(h.block);
    }

    /** Where an access through a handle lands in the file, in 32-bit arithmetic. */
    ghost function Target(h: StoreBlock, fileOffset: uint32): uint32
      requires Geo().Has(NodeAt(h.block)) && Geo().Offset(NodeAt(h.block)) < WORD
    {
      Sum32(Geo().Offset(NodeAt(h.block)), fileOffset)
    }

    /** Reads the block's place from the allocator and adds the offset inside the block. */
    method Locate(h: StoreBlock, fileOffset: uint32) returns (totalOffset: uint32)
      requires Valid() && IsHandle(h)
      ensures Geo().Has(NodeAt(h.block)) && Geo().Offset(NodeAt(h.block)) < WORD
      ensures totalOffset == Target(h, fileOffset)
    {
      Allocator.HandleOf(Geo(), alloc.slots[..], alloc.view, NodeAt(h.block));
      var blockOffset := alloc.GetBlockOffset(h.block);
      totalOffset := Sum32(blockOffset, fileOffset);
    }

    /** Writes at the place of the access; `WriteOutcome` says what comes of it. */
    method BlockWrite(h: StoreBlock, fileOffset: uint32, data: Bytes) returns (rc: Code)
      requires Valid() && IsHandle(h) && |data| < WORD
      modifies file
      ensures Valid() && Geo().Offset(NodeAt(h.block)) < WORD
      ensures WriteOutcome(Geo(), old(State()), State(), NodeAt(h.block), fileOffset, data, rc)
    {
      ghost var s := State();
      var totalOffset := Locate(h, fileOffset);
      rc := file.Write(totalOffset, data);
      WriteFacts(Geo(), s, State(), NodeAt(h.block), fileOffset, data, rc);
    }

    /**
     * Succeeds exactly for a range inside pool and file, with the bytes of the file; inside
     * the block these are the bytes of its buffer. A short read delivers what there is.
     */
    method BlockRead(h: StoreBlock, fileOffset: uint32, buffer: array<byte>, readSize: uint32) returns (rc: Code)
      requires Valid() && IsHandle(h) && readSize <= buffer.Length < 0x8000_0000_0000_0000
      modifies buffer
      ensures Geo().Has(NodeAt(h.block)) && NodeAt(h.block) in old(Contents())
      ensures Geo().Offset(NodeAt(h.block)) < WORD
      ensures rc == SUCCESS <==>
              && readSize > 0
              && Target(h, fileOffset) + readSize <= Geo().Pool()
              && Target(h, fileOffset) + readSize <= |file.content|
      ensures rc != SUCCESS ==>
                rc == Some(if readSize == 0 then EINVAL
                           else if Target(h, fileOffset) + readSize > Geo().Pool() then EFBIG else EIO)
      ensures rc == SUCCESS || rc == Some(EIO) ==>
                forall i: nat :: i < readSize ==>
                  buffer[i] == if Target(h, fileOffset) + i < |file.content|
                               then file.content[Target(h, fileOffset) + i] else old(buffer[i])
      ensures forall i :: 0 <= i < buffer.Length && (readSize <= i || rc == Some(EINVAL) || rc == Some(EFBIG)) ==>
                buffer[i] == old(buffer[i])
      ensures fileOffset + readSize <= |old(Contents())[NodeAt(h.block)]| && rc == SUCCESS ==>
                buffer[..readSize] == old(Contents())[NodeAt(h.block)][fileOffset..fileOffset + readSize]
    {
      ghost var n, o: nat, b := NodeAt(h.block), fileOffset, Contents();
      assert n in LiveSet(alloc.view.tree);
      ReadRefines(Geo(), State(), n, o, readSize);
      var totalOffset := Locate(h, fileOffset);
      rc := file.Read(totalOffset, buffer, readSize);
      assert rc == SUCCESS ==> forall i :: 0 <= i < readSize ==> buffer[..readSize][i] == buffer[i];
    }
  }
}

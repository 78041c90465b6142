/**
 * The memory pool behind Comm: 4096-byte blocks of eight 512-byte chunks
 * tracked by a 32-bit allocation map, a pool of allocation descriptors with a free
 * list, and linear sub-allocation inside an allocation that moves to a
 * malloc'd ("external") buffer once it runs out of room.
 *
 * An allocation handle (a MemPool_Alloc pointer) is its index in the
 * descriptor pool. Bytes that C leaves indeterminate (a fresh chunk, the
 * tail of a malloc or realloc) are modelled as zeros.
 */
module MemPool {
  import opened Wrappers
  import opened LibC

  const DefaultAllocation: nat := 512
  const BlockSize: nat := 4096
  const DescriptorPoolGrow: nat := 8
  /** Bits in alloc_map (uint32_t). */
  const MapBits: nat := 32
  /** The 512-byte chunks a 4096-byte block holds. */
  const ChunksPerBlock: nat := BlockSize / DefaultAllocation
  /** write_index is a uint16_t. */
  const WriteIndexModulus: nat := 0x1_0000
  /** alloc_map with every chunk of the block taken. */
  const AllTaken: bv32 := 0xFF
  /** alloc_map with all 32 bits set. */
  const AllSet: bv32 := 0xFFFF_FFFF

  /** The mask 1 << i of chunk i. */
  function Bit(i: nat): bv32
    requires i < MapBits
  {
    (1 as bv32) << i
  }

  predicate Taken(bits: bv32, i: nat)
    requires i < MapBits
  {
    bits & Bit(i) != 0
  }

  /** The first chunk at or above lo whose bit is clear, 32 when there is none. */
  function ClearFrom(bits: bv32, lo: nat): (i: nat)
    requires lo <= MapBits
    ensures lo <= i <= MapBits
    ensures forall j :: lo <= j < i ==> Taken(bits, j)
    ensures i < MapBits ==> !Taken(bits, i)
    decreases MapBits - lo
  {
    if lo == MapBits then MapBits
    else if !Taken(bits, lo) then lo
    else ClearFrom(bits, lo + 1)
  }

  /** The chunk MemPool_alloc's search loop stops at: the lowest clear bit, or 32. */
  function LowestClear(bits: bv32): (i: nat)
    ensures i <= MapBits
    ensures forall j :: 0 <= j < i ==> Taken(bits, j)
    ensures i < MapBits ==> !Taken(bits, i)
  {
    ClearFrom(bits, 0)
  }

  /** alloc_map marks no chunk past the end of the block. */
  predicate InBlock(bits: bv32) {
    bits & !AllTaken == 0
  }

  /** A map of the block's chunks with every one of them taken is the full map. */
  lemma EveryChunkTaken(bits: bv32)
    requires InBlock(bits)
    requires forall j :: 0 <= j < ChunksPerBlock ==> Taken(bits, j)
    ensures bits == AllTaken
  {
    assert
        Taken(bits, 0) && Taken(bits, 1) && Taken(bits, 2) && Taken(bits, 3) &&
        Taken(bits, 4) && Taken(bits, 5) && Taken(bits, 6) && Taken(bits, 7);
  }

  /** Setting a chunk's bit takes that chunk, and a chunk of the block keeps the map inside it. */
  lemma SetTakes(bits: bv32, i: nat)
    requires i < MapBits
    ensures Taken(bits | Bit(i), i)
    ensures InBlock(bits) && i < ChunksPerBlock ==> InBlock(bits | Bit(i))
  {
  }

  /** A map of the block's chunks that is not full has a free chunk inside the block. */
  lemma FreeChunkExists(bits: bv32)
    requires InBlock(bits) && bits != AllTaken
    ensures LowestClear(bits) < ChunksPerBlock
  {
    if LowestClear(bits) >= ChunksPerBlock {
      EveryChunkTaken(bits);
    }
  }

  /**
   * MemPool_alloc's take as written: the chunk index i the loop leaves, the
   * bits with m set, and the full flag, which is raised only when m << 1
   * overflows, that is when m is bit 31.
   */
  function TakeAsWritten(bits: bv32, full: bool): (r: (nat, bv32, bool))
    ensures r.0 == LowestClear(bits)
    ensures r.2 <==> full || r.0 >= MapBits - 1
  {
    var i := LowestClear(bits);
    // After a search that finds nothing, m keeps the last mask tried.
    var j := if i < MapBits then i else MapBits - 1;
    ShiftsOut(j);
    (i, bits | Bit(j), full || Bit(j) << 1 == 0)
  }

  /** m << 1 is zero for the mask of chunk 31 and for no other. */
  lemma ShiftsOut(i: nat)
    requires i < MapBits
    ensures Bit(i) << 1 == 0 <==> i == MapBits - 1
  {
  }

  /**
   * The full flag as written does not mean "all bits taken": freeing a low
   * chunk of a block with all 32 bits set and taking it back leaves every
   * bit set but the flag clear, and the next take hands out chunk 32, past
   * the bits.
   */
  lemma TakeAsWrittenOverruns()
    ensures var bits := AllSet & !Bit(5);
      var first := TakeAsWritten(bits, false);
      first == (5, AllSet, false) && TakeAsWritten(first.1, first.2).0 == MapBits
  {
    var bits := AllSet & !Bit(5);
    assert forall j :: 0 <= j < 5 ==> Taken(bits, j);
    assert !Taken(bits, 5);
  }

  /**
   * The search as written runs over all 32 bits, but a block holds only
   * eight chunks: once chunks 0 to 7 are taken the flag is still clear, and
   * the next take hands out chunk 8, whose 512 bytes start at offset 4096,
   * the end of the block.
   */
  lemma NinthChunkOutsideBlock()
    ensures ChunksPerBlock == 8
    ensures var next := TakeAsWritten(AllTaken, false);
      next == (8, AllTaken | Bit(8), false) && next.0 * DefaultAllocation == BlockSize
  {
    assert forall j :: 0 <= j < 8 ==> Taken(AllTaken, j);
    assert !Taken(AllTaken, 8);
  }

  /**
   * The block MemPool_getBlockForAlloc returns, as written: the first block
   * that is not full, else (the loop's last value) the last block, and a new
   * block (None) only when there are no blocks at all.
   */
  function BlockForAllocAsWritten(full: seq<bool>): (r: Option<nat>)
    ensures r.None? <==> full == []
    ensures r.Some? ==> r.value < |full|
  {
    if full == [] then None
    else var i := FirstNotFull(full); Some(if i < |full| then i else |full| - 1)
  }

  /**
   * When there are blocks and every one is full, the block returned as
   * written is the last one, and it is full.
   */
  lemma BlockForAllocAsWrittenReturnsFull(full: seq<bool>)
    requires full != [] && forall i :: 0 <= i < |full| ==> full[i]
    ensures BlockForAllocAsWritten(full) == Some(|full| - 1)
    ensures full[BlockForAllocAsWritten(full).value]
  {
    assert FirstNotFull(full) == |full|;
  }

  /** The index of the first block that is not full, |full| when all are. */
  function FirstNotFull(full: seq<bool>): (i: nat)
    ensures i <= |full|
    ensures forall j :: 0 <= j < i ==> full[j]
    ensures i < |full| ==> !full[i]
  {
    if full == [] then 0
    else if !full[0] then 0
    else 1 + FirstNotFull(full[1..])
  }

  /** realloc(p, n): the first min(n, |s|) bytes kept. */
  function Realloc(s: seq<Byte>, n: nat): (r: seq<Byte>)
    ensures |r| == n
    ensures forall i :: 0 <= i < n && i < |s| ==> r[i] == s[i]
  {
    if n <= |s| then s[..n] else s + Zeros(n - |s|)
  }

  /** A backing block; its chunks are the bits of allocMap. */
  class Block {
    var allocMap: bv32
    var full: bool
    /** The block's position in the blocks list. */
    const index: nat

    /** Only the block's own chunks are marked, and the full flag says whether every one is taken. */
    ghost predicate Valid()
      reads this
    {
      InBlock(allocMap) && (full <==> allocMap == AllTaken)
    }

    /** MemPool_allocNewBlock's initial state. */
    constructor(index: nat)
      ensures Valid() && allocMap == 0 && !full && this.index == index
    {
      allocMap := 0;
      full := false;
      this.index := index;
    }

    /**
     * The search loop and bits update of MemPool_alloc, with the full flag
     * raised when the block's last free chunk goes rather than when chunk
     * 31 does.
     */
    method Take() returns (chunk: nat)
      requires Valid() && !full
      modifies this
      ensures Valid()
      ensures chunk == LowestClear(old(allocMap)) && chunk < ChunksPerBlock
      ensures allocMap == old(allocMap) | Bit(chunk) && Taken(allocMap, chunk)
    {
      FreeChunkExists(allocMap);
      chunk := FindClear();
      SetTakes(allocMap, chunk);
      allocMap := allocMap | Bit(chunk);
      full := allocMap == AllTaken;
    }

    /** MemPool_alloc's search loop: step over the taken chunks from chunk 0 up. */
    method FindClear() returns (i: nat)
      ensures i == LowestClear(allocMap)
    {
      i := 0;
      while i < MapBits && Taken(allocMap, i)
        invariant 0 <= i <= MapBits
        invariant ClearFrom(allocMap, i) == LowestClear(allocMap)
      {
        i := i + 1;
      }
    }

    /** MemPool_releaseChunk: clear the chunk's bit and the full flag. */
    method Release(chunk: nat)
      requires Valid() && chunk < ChunksPerBlock
      modifies this
      ensures Valid() && !full
      ensures allocMap == old(allocMap) & !Bit(chunk)
      ensures !Taken(allocMap, chunk)
    {
      allocMap := allocMap & !Bit(chunk);
      full := false;
    }
  }

  /** A MemPool_Alloc descriptor. */
  class Alloc {
    /** The chunk of the block that base points into, for an internal allocation. */
    var chunk: nat
    var writeIndex: nat
    var size: nat
    var blockIndex: nat
    var external: bool
    /** The bytes from base on: the chunk, or the malloc'd buffer. */
    var memory: seq<Byte>

    ghost predicate Valid()
      reads this
    {
      writeIndex < WriteIndexModulus && size == DefaultAllocation &&
      writeIndex <= |memory| && DefaultAllocation <= |memory| &&
      (!external ==> |memory| == DefaultAllocation && writeIndex < DefaultAllocation && chunk < ChunksPerBlock)
    }

    /** The descriptor set-up at the end of MemPool_alloc. */
    method Assign(blockIndex: nat, chunk: nat)
      requires chunk < ChunksPerBlock
      modifies this
      ensures Valid() && !external && writeIndex == 0 && size == DefaultAllocation
      ensures this.blockIndex == blockIndex && this.chunk == chunk
      ensures memory == Zeros(DefaultAllocation)
    {
      this.chunk := chunk;
      writeIndex := 0;
      size := DefaultAllocation;
      this.blockIndex := blockIndex;
      external := false;
      memory := Zeros(DefaultAllocation);
    }

    /** A descriptor the pool has not handed out yet. */
    constructor()
      ensures Valid() && external && writeIndex == 0
    {
      chunk := 0;
      writeIndex := 0;
      size := DefaultAllocation;
      blockIndex := 0;
      external := true;
      memory := Zeros(DefaultAllocation);
    }
  }

  /** The pool's static state: the blocks list, the descriptor pool and its free list. */
  class Pool {
    var blocks: seq<Block>
    var descriptors: seq<Alloc>
    /** free_descriptors, head first, as indices into the descriptor pool. */
    var freeList: seq<nat>

    ghost predicate Valid()
      reads this, blocks, descriptors
    {
      (forall i :: 0 <= i < |blocks| ==> blocks[i].index == i && blocks[i].Valid()) &&
      (forall i, j :: 0 <= i < j < |blocks| ==> blocks[i] != blocks[j]) &&
      (forall d :: 0 <= d < |descriptors| ==> descriptors[d].Valid()) &&
      (forall d :: 0 <= d < |descriptors| && !descriptors[d].external ==> descriptors[d].blockIndex < |blocks|) &&
      (forall d, e :: 0 <= d < e < |descriptors| ==> descriptors[d] != descriptors[e]) &&
      (forall k :: 0 <= k < |freeList| ==> freeList[k] < |descriptors|)
    }

    /** The full flags of the blocks, in list order. */
    ghost function FullFlags(): (r: seq<bool>)
      reads this, blocks
      ensures |r| == |blocks| && forall i :: 0 <= i < |blocks| ==> r[i] == blocks[i].full
    {
      seq(|blocks|, i reads this, blocks requires 0 <= i < |blocks| => blocks[i].full)
    }

    /** MemPool_init: no blocks, an empty descriptor pool. */
    constructor()
      ensures Valid() && blocks == [] && descriptors == [] && freeList == []
    {
      blocks := [];
      descriptors := [];
      freeList := [];
    }

    /** MemPool_allocNewBlock: an empty block whose index is its position, appended. */
    method AllocNewBlock() returns (b: Block)
      requires Valid()
      modifies this
      ensures Valid() && fresh(b)
      ensures blocks == old(blocks) + [b] && b.allocMap == 0 && !b.full
      ensures descriptors == old(descriptors) && freeList == old(freeList)
    {
      b := new Block(|blocks|);
      blocks := blocks + [b];
    }

    /**
     * MemPool_getBlockForAlloc: the first block that is not full, or a new
     * block when every block is full.
     */
    method GetBlockForAlloc() returns (b: Block)
      requires Valid()
      modifies this
      ensures Valid() && b in blocks && !b.full && b.index < |blocks|
      ensures descriptors == old(descriptors) && freeList == old(freeList)
      ensures FirstNotFull(old(FullFlags())) < |old(blocks)| ==>
        blocks == old(blocks) && b == blocks[FirstNotFull(old(FullFlags()))]
      ensures FirstNotFull(old(FullFlags())) == |old(blocks)| ==>
        fresh(b) && blocks == old(blocks) + [b] && b.allocMap == 0
    {
      ghost var flags := FullFlags();
      var i := 0;
      while i < |blocks|
        invariant 0 <= i <= |blocks|
        invariant forall j :: 0 <= j < i ==> blocks[j].full
      {
        if !blocks[i].full {
          assert FirstNotFull(flags) == i;
          return blocks[i];
        }
        i := i + 1;
      }
      assert FirstNotFull(flags) == |blocks|;
      b := AllocNewBlock();
    }

    /** MemPool_setDescriptorFree: push onto the free list. */
    method SetDescriptorFree(d: nat)
      requires Valid() && d < |descriptors|
      modifies this
      ensures Valid()
      ensures freeList == [d] + old(freeList)
      ensures blocks == old(blocks) && descriptors == old(descriptors)
    {
      freeList := [d] + freeList;
    }

    /**
     * MemPool_getDescriptor: pop the free list, first adding 8 new
     * descriptors (pushed in order, so the last one is popped) when it is
     * empty.
     */
    method GetDescriptor() returns (d: nat)
      requires Valid()
      modifies this
      ensures Valid() && d < |descriptors|
      ensures blocks == old(blocks)
      ensures d < |old(descriptors)| ==> descriptors[d] == old(descriptors)[d]
      ensures d >= |old(descriptors)| ==> fresh(descriptors[d])
      ensures old(freeList) != [] ==>
        descriptors == old(descriptors) && d == old(freeList)[0] && freeList == old(freeList)[1..]
      ensures old(freeList) == [] ==>
        |descriptors| == |old(descriptors)| + DescriptorPoolGrow &&
        descriptors[..|old(descriptors)|] == old(descriptors) &&
        d == |descriptors| - 1 &&
        freeList == Countdown(|descriptors| - 2, |old(descriptors)|)
    {
      if freeList == [] {
        var oldSize := |descriptors|;
        var newSize := oldSize + DescriptorPoolGrow;
        GrowDescriptors();
        var i := oldSize;
        while i < newSize
          invariant oldSize <= i <= newSize == |descriptors|
          invariant Valid() && blocks == old(blocks)
          invariant descriptors[..oldSize] == old(descriptors)
          invariant forall e :: oldSize <= e < |descriptors| ==> fresh(descriptors[e])
          invariant freeList == Countdown(i - 1, oldSize)
        {
          SetDescriptorFree(i);
          i := i + 1;
        }
      }
      d := freeList[0];
      freeList := freeList[1..];
    }

    /** The realloc of the descriptor pool: 8 new descriptors at the end. */
    method GrowDescriptors()
      requires Valid()
      modifies this
      ensures Valid()
      ensures |descriptors| == |old(descriptors)| + DescriptorPoolGrow
      ensures descriptors[..|old(descriptors)|] == old(descriptors)
      ensures forall e :: |old(descriptors)| <= e < |descriptors| ==> fresh(descriptors[e])
      ensures blocks == old(blocks) && freeList == old(freeList)
    {
      var i := 0;
      while i < DescriptorPoolGrow
        invariant 0 <= i <= DescriptorPoolGrow
        invariant Valid() && blocks == old(blocks) && freeList == old(freeList)
        invariant |descriptors| == |old(descriptors)| + i
        invariant descriptors[..|old(descriptors)|] == old(descriptors)
        invariant forall e :: |old(descriptors)| <= e < |descriptors| ==> fresh(descriptors[e])
      {
        var a := new Alloc();
        descriptors := descriptors + [a];
        i := i + 1;
      }
    }

    /**
     * MemPool_alloc: take the lowest free chunk of a block with room and
     * fill in a descriptor for it: write index 0, size 512, internal. The
     * block is the first one that is not full, or a new one appended when
     * every block is full; the descriptor is popped off the free list,
     * which is refilled with 8 new descriptors when empty. No other block
     * and no other descriptor changes.
     */
    method Allocate() returns (d: nat)
      requires Valid()
      modifies this, blocks, descriptors
      ensures Valid() && d < |descriptors|
      ensures !descriptors[d].external && descriptors[d].writeIndex == 0
      ensures descriptors[d].size == DefaultAllocation
      ensures descriptors[d].memory == Zeros(DefaultAllocation)
      ensures descriptors[d].blockIndex == FirstNotFull(old(FullFlags())) < |blocks|
      ensures |old(blocks)| <= |blocks| && blocks[..|old(blocks)|] == old(blocks)
      ensures var i := descriptors[d].blockIndex;
        var before: bv32 := if i < |old(blocks)| then old(blocks[i].allocMap) else 0;
        descriptors[d].chunk == LowestClear(before) && !Taken(before, descriptors[d].chunk) &&
        blocks[i].allocMap == before | Bit(descriptors[d].chunk)
      ensures forall j :: 0 <= j < |old(blocks)| && j != descriptors[d].blockIndex ==>
        blocks[j].allocMap == old(blocks[j].allocMap)
      ensures |old(descriptors)| <= |descriptors| && descriptors[..|old(descriptors)|] == old(descriptors)
      ensures old(freeList) != [] ==> d == old(freeList)[0] && freeList == old(freeList)[1..]
      ensures old(freeList) == [] ==> d == |descriptors| - 1 == |old(descriptors)| + DescriptorPoolGrow - 1
      ensures forall e :: 0 <= e < |old(descriptors)| && e != d ==> unchanged(descriptors[e])
    {
      var blockIndex, chunk := TakeChunk();
      d := Describe(blockIndex, chunk);
    }

    /**
     * The second half of MemPool_alloc: pop a descriptor and fill it in for
     * the chunk; no block and no other descriptor changes.
     */
    method Describe(blockIndex: nat, chunk: nat) returns (d: nat)
      requires Valid() && blockIndex < |blocks| && chunk < ChunksPerBlock
      modifies this, descriptors
      ensures Valid() && d < |descriptors| && blocks == old(blocks)
      ensures !descriptors[d].external && descriptors[d].writeIndex == 0
      ensures descriptors[d].size == DefaultAllocation
      ensures descriptors[d].memory == Zeros(DefaultAllocation)
      ensures descriptors[d].blockIndex == blockIndex && descriptors[d].chunk == chunk
      ensures |old(descriptors)| <= |descriptors| && descriptors[..|old(descriptors)|] == old(descriptors)
      ensures old(freeList) != [] ==> d == old(freeList)[0] && freeList == old(freeList)[1..]
      ensures old(freeList) == [] ==> d == |descriptors| - 1 == |old(descriptors)| + DescriptorPoolGrow - 1
      ensures forall e :: 0 <= e < |old(descriptors)| && e != d ==> unchanged(descriptors[e])
    {
      d := GetDescriptor();
      descriptors[d].Assign(blockIndex, chunk);
    }

    /**
     * The first half of MemPool_alloc: pick the first block that is not
     * full (a new, empty one when all are) and take its lowest free chunk;
     * no other block changes.
     */
    method TakeChunk() returns (blockIndex: nat, chunk: nat)
      requires Valid()
      modifies this, blocks
      ensures Valid() && descriptors == old(descriptors) && freeList == old(freeList)
      ensures blockIndex == FirstNotFull(old(FullFlags())) < |blocks| && chunk < ChunksPerBlock
      ensures |old(blocks)| <= |blocks| && blocks[..|old(blocks)|] == old(blocks)
      ensures var before: bv32 := if blockIndex < |old(blocks)| then old(blocks[blockIndex].allocMap) else 0;
        chunk == LowestClear(before) && !Taken(before, chunk) && blocks[blockIndex].allocMap == before | Bit(chunk)
      ensures forall j :: 0 <= j < |old(blocks)| && j != blockIndex ==> blocks[j].allocMap == old(blocks[j].allocMap)
    {
      var block := GetBlockForAlloc();
      chunk := block.Take();
      blockIndex := block.index;
    }

    /** MemPool_releaseChunk for descriptor d: clear its chunk's bit, and nothing else. */
    method ReleaseChunk(d: nat)
      requires Valid() && d < |descriptors| && !descriptors[d].external
      modifies blocks
      ensures Valid()
      ensures var i := descriptors[d].blockIndex;
        blocks[i].allocMap == old(blocks[i].allocMap) & !Bit(descriptors[d].chunk) &&
        !Taken(blocks[i].allocMap, descriptors[d].chunk)
      ensures forall j :: 0 <= j < |blocks| && j != descriptors[d].blockIndex ==> blocks[j].allocMap == old(blocks[j].allocMap)
    {
      var a := descriptors[d];
      blocks[a.blockIndex].Release(a.chunk);
    }

    /** MemPool_free: give back the chunk (or drop the buffer) and free the descriptor. */
    method Free(d: nat)
      requires Valid() && d < |descriptors|
      modifies this, blocks
      ensures blocks == old(blocks) && descriptors == old(descriptors)
      ensures Valid()
      ensures freeList == [d] + old(freeList)
      ensures !descriptors[d].external ==>
        var i := descriptors[d].blockIndex;
        blocks[i].allocMap == old(blocks[i].allocMap) & !Bit(descriptors[d].chunk) &&
        !Taken(blocks[i].allocMap, descriptors[d].chunk)
      ensures forall j :: 0 <= j < |blocks| && (descriptors[d].external || j != descriptors[d].blockIndex) ==>
        blocks[j].allocMap == old(blocks[j].allocMap)
    {
      if !descriptors[d].external {
        ReleaseChunk(d);
      }
      SetDescriptorFree(d);
    }

    /**
     * MemPool_reserve: hand out size bytes at the write index. When they do
     * not fit below the allocation size, an external buffer is resized, and
     * an internal allocation moves its bytes to a new buffer and gives back
     * its chunk.
     */
    method Reserve(d: nat, n: nat) returns (p: nat)
      requires Valid() && d < |descriptors|
      modifies blocks, descriptors[d]
      ensures Valid()
      ensures p == old(descriptors[d].writeIndex) && p <= |old(descriptors[d].memory)|
      ensures descriptors[d].writeIndex == (p + n) % WriteIndexModulus
      ensures p + n <= |descriptors[d].memory|
      ensures descriptors[d].memory[..p] == old(descriptors[d].memory[..p])
      ensures descriptors[d].external == (old(descriptors[d].external) || p + n >= DefaultAllocation)
      ensures !old(descriptors[d].external) && p + n >= DefaultAllocation ==>
        descriptors[d].blockIndex < |blocks| && descriptors[d].chunk < ChunksPerBlock &&
        !Taken(blocks[descriptors[d].blockIndex].allocMap, descriptors[d].chunk)
    {
      MakeRoom(d, n);
      var a := descriptors[d];
      p := a.writeIndex;
      a.writeIndex := (a.writeIndex + n) % WriteIndexModulus;
    }

    /**
     * The branches of MemPool_reserve: nothing when n more bytes fit below
     * the allocation size, else a realloc of an external buffer or the move
     * of an internal allocation out of its chunk.
     */
    method MakeRoom(d: nat, n: nat)
      requires Valid() && d < |descriptors|
      modifies blocks, descriptors[d]
      ensures Valid()
      ensures descriptors[d].writeIndex == old(descriptors[d].writeIndex)
      ensures descriptors[d].writeIndex + n <= |descriptors[d].memory|
      ensures descriptors[d].memory[..descriptors[d].writeIndex] == old(descriptors[d].memory[..descriptors[d].writeIndex])
      ensures descriptors[d].external == (old(descriptors[d].external) || descriptors[d].writeIndex + n >= DefaultAllocation)
      ensures !old(descriptors[d].external) && descriptors[d].writeIndex + n >= DefaultAllocation ==>
        descriptors[d].blockIndex < |blocks| && descriptors[d].chunk < ChunksPerBlock &&
        !Taken(blocks[descriptors[d].blockIndex].allocMap, descriptors[d].chunk)
    {
      var a := descriptors[d];
      if a.writeIndex + n < a.size {
      } else if a.external {
        a.memory := Realloc(a.memory, a.writeIndex + n);
      } else {
        MoveOut(d, a.writeIndex + n);
      }
    }

    /**
     * The move of an internal allocation to a malloc'd buffer of m bytes:
     * the written bytes are copied and the chunk is given back.
     */
    method MoveOut(d: nat, m: nat)
      requires Valid() && d < |descriptors| && !descriptors[d].external
      requires descriptors[d].writeIndex <= m && DefaultAllocation <= m
      modifies blocks, descriptors[d]
      ensures Valid() && descriptors[d].external
      ensures descriptors[d].memory == Realloc(old(descriptors[d].memory[..descriptors[d].writeIndex]), m)
      ensures descriptors[d].writeIndex == old(descriptors[d].writeIndex)
      ensures descriptors[d].blockIndex == old(descriptors[d].blockIndex) < |blocks|
      ensures descriptors[d].chunk == old(descriptors[d].chunk) < ChunksPerBlock
      ensures !Taken(blocks[descriptors[d].blockIndex].allocMap, descriptors[d].chunk)
    {
      var a := descriptors[d];
      var temp := Realloc(a.memory[..a.writeIndex], m);
      ReleaseChunk(d);
      a.memory := temp;
      a.external := true;
    }

    /** MemPool_write: reserve |data| bytes and copy data there. */
    method Write(d: nat, data: seq<Byte>) returns (p: nat)
      requires Valid() && d < |descriptors|
      modifies blocks, descriptors[d]
      ensures Valid()
      ensures p == old(descriptors[d].writeIndex) && p <= |old(descriptors[d].memory)|
      ensures descriptors[d].writeIndex == (p + |data|) % WriteIndexModulus
      ensures p + |data| <= |descriptors[d].memory|
      ensures descriptors[d].memory[..p] == old(descriptors[d].memory[..p])
      ensures descriptors[d].memory[p..p + |data|] == data
    {
      p := Reserve(d, |data|);
      var a := descriptors[d];
      a.memory := a.memory[..p] + data + a.memory[p + |data|..];
    }

    /** MemPool_strdup: write the string and its NUL terminator. */
    method Strdup(d: nat, s: seq<Byte>) returns (p: nat)
      requires Valid() && d < |descriptors| && 0 !in s
      modifies blocks, descriptors[d]
      ensures Valid()
      ensures p == old(descriptors[d].writeIndex) && p <= |old(descriptors[d].memory)|
      ensures descriptors[d].writeIndex == (p + |s| + 1) % WriteIndexModulus
      ensures p + |s| + 1 <= |descriptors[d].memory|
      ensures descriptors[d].memory[..p] == old(descriptors[d].memory[..p])
      ensures descriptors[d].memory[p..p + |s|] == s && descriptors[d].memory[p + |s|] == 0
    {
      p := Write(d, s + [0]);
      ghost var m := descriptors[d].memory;
      ghost var written := m[p..p + |s| + 1];
      assert written == s + [0];
      assert m[p..p + |s|] == written[..|s|];
      assert written[..|s|] == s;
    }
  }

  /** [hi, hi - 1, ..., lo]: the free list after pushing lo..hi in order. */
  function Countdown(hi: int, lo: nat): (r: seq<nat>)
    ensures |r| == if hi < lo then 0 else hi - lo + 1
    ensures forall k :: 0 <= k < |r| ==> r[k] == hi - k
    decreases hi - lo
  {
    if hi < lo then [] else [hi as nat] + Countdown(hi - 1, lo)
  }
}

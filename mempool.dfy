/**
 * `MemoryPool<T>` of mempool/fixedsizepool.cpp: a free-list allocator that carves
 * blocks of 64 chunks. A chunk is named by its block and its slot in that block;
 * its address is `slot * chunk_size_` bytes into the block. The free list is the
 * sequence of chunks linked from `free_list_`, head first.
 */
module MemPool {

  /** `BLOCK_SIZE`: chunks per block. */
  const BlockSize: nat := 64

  /** What the pool hands out: null, or a chunk. */
  datatype Ptr = Null | Chunk(block: nat, slot: nat)

  /** `chunk_size_`: the larger of `sizeof(T)` and `sizeof(Chunk)`. */
  function ChunkSize(objectSize: nat, linkSize: nat): (r: nat)
    ensures r >= objectSize && r >= linkSize
    ensures r == objectSize || r == linkSize
  {
    if objectSize > linkSize then objectSize else linkSize
  }

  /** The byte offset of slot `slot` in its block. */
  function ChunkOffset(slot: nat, stride: nat): nat
  {
    slot * stride
  }

  /** Chunks of different slots do not overlap: the one of the lower slot ends
      before the other begins. */
  lemma ChunksDisjoint(j: nat, k: nat, stride: nat)
    requires j < k
    ensures ChunkOffset(j, stride) + stride <= ChunkOffset(k, stride)
  {
    assert k * stride == j * stride + (k - j) * stride;
    assert (k - j) * stride >= stride by {
      MulAtLeastOne(k - j, stride);
    }
  }

  lemma MulAtLeastOne(m: nat, stride: nat)
    requires m >= 1
    ensures m * stride >= stride
  {
    assert m * stride == stride + (m - 1) * stride;
  }

  /** Every chunk of a block lies inside the `BLOCK_SIZE * chunk_size_` bytes of the block. */
  lemma ChunkInBlock(slot: nat, stride: nat)
    requires slot < BlockSize
    ensures ChunkOffset(slot, stride) + stride <= BlockSize * stride
  {
    ChunksDisjoint(slot, BlockSize, stride);
  }

  /** The chunks that carving block `b` links in front of the free list after its
      first `n` steps: slots `n - 1` down to 0. */
  function Carved(b: nat, n: nat): (r: seq<Ptr>)
    ensures |r| == n
  {
    if n == 0 then [] else [Chunk(b, n - 1)] + Carved(b, n - 1)
  }

  /** Position `k` of the carved chunks holds slot `n - 1 - k`. */
  lemma {:induction false} CarvedAt(b: nat, n: nat, k: nat)
    requires k < n
    ensures Carved(b, n)[k] == Chunk(b, n - 1 - k)
  {
    if k > 0 {
      CarvedAt(b, n - 1, k - 1);
    }
  }

  /** One more carving step links the next slot in front. */
  lemma CarvedStep(b: nat, i: nat, rest: seq<Ptr>)
    ensures [Chunk(b, i)] + (Carved(b, i) + rest) == Carved(b, i + 1) + rest
  {
    assert Carved(b, i + 1) == [Chunk(b, i)] + Carved(b, i);
  }

  /** No element occurs twice in `s`. */
  ghost predicate Distinct(s: seq<Ptr>)
  {
    forall j, k :: 0 <= j < k < |s| ==> s[j] != s[k]
  }

  class MemoryPool {
    /** `chunk_size_`. */
    const stride: nat
    var freeList: seq<Ptr>
    /** The number of blocks in `blocks_`. */
    var blocks: nat
    var allocatedCount: nat
    /** The chunks handed out and not yet given back. */
    ghost var outstanding: set<Ptr>

    /** `p` is a chunk of one of the blocks. */
    ghost predicate InPool(p: Ptr)
      reads this
    {
      p.Chunk? && p.block < blocks && p.slot < BlockSize
    }

    /** Every chunk of every block is either on the free list, once, or outstanding;
        the counter counts the outstanding ones. */
    ghost predicate Valid()
      reads this
    {
      stride > 0 &&
      (forall k :: 0 <= k < |freeList| ==> InPool(freeList[k]) && freeList[k] !in outstanding) &&
      Distinct(freeList) &&
      (forall p :: p in outstanding ==> InPool(p)) &&
      allocatedCount == |outstanding| &&
      |freeList| + allocatedCount == BlockSize * blocks
    }

    /** `MemoryPool()`: no blocks, an empty free list, nothing allocated. */
    constructor (objectSize: nat, linkSize: nat)
      requires linkSize > 0
      ensures Valid()
      ensures stride == ChunkSize(objectSize, linkSize)
      ensures freeList == [] && blocks == 0 && allocatedCount == 0 && outstanding == {}
    {
      stride := ChunkSize(objectSize, linkSize);
      freeList := [];
      blocks := 0;
      allocatedCount := 0;
      outstanding := {};
    }

    /** `allocate_block()`: appends a block and links its 64 chunks, slot 0 first, in
        front of the free list, so that slot 63 ends up at the head. */
    method AllocateBlock()
      requires Valid()
      modifies this
      ensures Valid()
      ensures blocks == old(blocks) + 1
      ensures freeList == Carved(old(blocks), BlockSize) + old(freeList)
      ensures allocatedCount == old(allocatedCount) && outstanding == old(outstanding)
    {
      var b := blocks;
      blocks := blocks + 1;
      Carve(b);
      CarvedValid(b);
    }

    /** The loop of `allocate_block()`: `current` walks the block in steps of
        `chunk_size_`, and each chunk is linked in at the head of the free list. */
    method Carve(b: nat)
      modifies this`freeList
      ensures freeList == Carved(b, BlockSize) + old(freeList)
    {
      var current := 0;
      var i := 0;
      while i < BlockSize
        invariant 0 <= i <= BlockSize
        invariant current == ChunkOffset(i, stride)
        invariant freeList == Carved(b, i) + old(freeList)
      {
        freeList := [Chunk(b, i)] + freeList;
        CarvedStep(b, i, old(freeList));
        current := current + stride;
        i := i + 1;
      }
    }

    /** The free list after carving block `old(blocks)` keeps the pool valid. */
    lemma CarvedValid(b: nat)
      requires stride > 0 && blocks == b + 1
      requires |freeList| >= BlockSize && freeList[..BlockSize] == Carved(b, BlockSize)
      requires forall k :: BlockSize <= k < |freeList| ==>
                 freeList[k].Chunk? && freeList[k].block < b && freeList[k].slot < BlockSize &&
                 freeList[k] !in outstanding
      requires forall j, k :: BlockSize <= j < k < |freeList| ==> freeList[j] != freeList[k]
      requires forall p :: p in outstanding ==> p.Chunk? && p.block < b && p.slot < BlockSize
      requires allocatedCount == |outstanding|
      requires |freeList| - BlockSize + allocatedCount == BlockSize * b
      ensures Valid()
    {
      forall k | 0 <= k < BlockSize ensures freeList[k] == Chunk(b, BlockSize - 1 - k) {
        assert freeList[k] == freeList[..BlockSize][k];
        CarvedAt(b, BlockSize, k);
      }
    }

    /** `allocate()`: when the free list is empty, carves a block first; then unlinks
        the head of the free list and counts it. */
    method Allocate() returns (p: Ptr)
      requires Valid()
      modifies this
      ensures Valid()
      ensures p.Chunk? && p !in old(outstanding)
      ensures outstanding == old(outstanding) + {p}
      ensures allocatedCount == old(allocatedCount) + 1
      ensures old(freeList) != [] ==>
                blocks == old(blocks) && p == old(freeList[0]) && freeList == old(freeList[1..])
      ensures old(freeList) == [] ==>
                blocks == old(blocks) + 1 && p == Chunk(old(blocks), BlockSize - 1) &&
                freeList == Carved(old(blocks), BlockSize - 1)
    {
      if freeList == [] {
        AllocateBlock();
        assert freeList == [Chunk(old(blocks), BlockSize - 1)] + Carved(old(blocks), BlockSize - 1);
      }
      p := freeList[0];
      assert freeList[0] !in outstanding;
      freeList := freeList[1..];
      allocatedCount := allocatedCount + 1;
      outstanding := outstanding + {p};
    }

    /** `deallocate(ptr)`: nothing for null; otherwise links the chunk back in at the
        head of the free list and uncounts it. Only a chunk handed out and not yet given
        back may be passed. */
    method Deallocate(p: Ptr)
      requires Valid() && (p == Null || p in outstanding)
      modifies this
      ensures Valid()
      ensures p == Null ==> freeList == old(freeList) && allocatedCount == old(allocatedCount) &&
                            outstanding == old(outstanding)
      ensures p != Null ==> freeList == [p] + old(freeList) && allocatedCount == old(allocatedCount) - 1 &&
                            outstanding == old(outstanding) - {p}
      ensures blocks == old(blocks)
    {
      if p == Null {
        return;
      }
      freeList := [p] + freeList;
      allocatedCount := allocatedCount - 1;
      outstanding := outstanding - {p};
    }

    /** `construct(args...)`: `allocate()`, then the object is built in the chunk. */
    method Construct() returns (p: Ptr)
      requires Valid()
      modifies this
      ensures Valid()
      ensures p.Chunk? && p !in old(outstanding)
      ensures outstanding == old(outstanding) + {p}
      ensures allocatedCount == old(allocatedCount) + 1
      ensures old(freeList) != [] ==>
                blocks == old(blocks) && p == old(freeList[0]) && freeList == old(freeList[1..])
      ensures old(freeList) == [] ==> blocks == old(blocks) + 1
    {
      p := Allocate();
    }

    /** `destroy(ptr)`: for a chunk, the object is destroyed and the chunk deallocated;
        nothing for null. */
    method Destroy(p: Ptr)
      requires Valid() && (p == Null || p in outstanding)
      modifies this
      ensures Valid()
      ensures p == Null ==> freeList == old(freeList) && allocatedCount == old(allocatedCount) &&
                            outstanding == old(outstanding)
      ensures p != Null ==> freeList == [p] + old(freeList) && allocatedCount == old(allocatedCount) - 1 &&
                            outstanding == old(outstanding) - {p}
      ensures blocks == old(blocks)
    {
      if p != Null {
        Deallocate(p);
      }
    }

    /** `allocated_count()`. */
    method AllocatedCount() returns (c: nat)
      requires Valid()
      ensures c == |outstanding|
      ensures c == BlockSize * blocks - |freeList|
    {
      c := allocatedCount;
    }
  }

  /** LIFO reuse: a chunk given back is the next one handed out, and no block is added. */
  method DeallocateThenAllocate(pool: MemoryPool, p: Ptr) returns (q: Ptr)
    requires pool.Valid() && p in pool.outstanding
    modifies pool
    ensures pool.Valid()
    ensures q == p && pool.blocks == old(pool.blocks) && pool.freeList == old(pool.freeList)
    ensures pool.outstanding == old(pool.outstanding) && pool.allocatedCount == old(pool.allocatedCount)
  {
    pool.Deallocate(p);
    q := pool.Allocate();
  }

  /** `simple_test()`: two constructs give two distinct chunks and a count of 2, two
      destroys bring the count back to 0. */
  method SimpleTest() returns (obj1: Ptr, obj2: Ptr, countAfterConstruct: nat, countAfterDestroy: nat)
    ensures obj1.Chunk? && obj2.Chunk? && obj1 != obj2
    ensures countAfterConstruct == 2 && countAfterDestroy == 0
  {
    var pool := new MemoryPool(32, 8);
    obj1 := pool.Construct();
    obj2 := pool.Construct();
    countAfterConstruct := pool.AllocatedCount();
    pool.Destroy(obj1);
    pool.Destroy(obj2);
    countAfterDestroy := pool.AllocatedCount();
  }

  /** The first loop of `test_memory_pool()`: `n` constructs on a new pool, at most
      one block's worth, give `n` distinct chunks from a single block. */
  method ConstructMany(pool: MemoryPool, n: nat) returns (objects: seq<Ptr>)
    requires pool.Valid() && pool.blocks == 0 && pool.freeList == [] && pool.allocatedCount == 0
    requires 0 < n <= BlockSize
    modifies pool
    ensures pool.Valid() && |objects| == n && Distinct(objects)
    ensures forall p :: p in pool.outstanding <==> p in objects
    ensures pool.allocatedCount == n && pool.blocks == 1
  {
    objects := [];
    var i := 0;
    while i < n
      invariant 0 <= i <= n && |objects| == i
      invariant pool.Valid()
      invariant Distinct(objects)
      invariant forall p :: p in pool.outstanding <==> p in objects
      invariant pool.allocatedCount == i
      invariant i > 0 ==> pool.blocks == 1 && |pool.freeList| == BlockSize - i
      invariant i == 0 ==> pool.blocks == 0 && pool.freeList == []
    {
      var obj := pool.Construct();
      objects := objects + [obj];
      i := i + 1;
    }
  }

  /** The second loop of `test_memory_pool()`: destroying every outstanding chunk
      brings the count to 0. */
  method DestroyAll(pool: MemoryPool, objects: seq<Ptr>)
    requires pool.Valid() && Distinct(objects)
    requires forall p :: p in pool.outstanding <==> p in objects
    modifies pool
    ensures pool.Valid() && pool.allocatedCount == 0
  {
    var j := 0;
    while j < |objects|
      invariant 0 <= j <= |objects|
      invariant pool.Valid()
      invariant forall p :: p in pool.outstanding <==> p in objects[j..]
    {
      assert objects[j] in objects[j..];
      pool.Destroy(objects[j]);
      assert forall p :: p in objects[j..] <==> p == objects[j] || p in objects[j + 1..] by {
        assert objects[j..] == [objects[j]] + objects[j + 1..];
      }
      assert objects[j] !in objects[j + 1..];
      j := j + 1;
    }
    assert pool.outstanding == {};
  }

  /** `test_memory_pool()`: ten constructs give ten distinct chunks from a single block;
      destroying them all brings the count back to 0. */
  method TestMemoryPool() returns (objects: seq<Ptr>, finalCount: nat, blocksUsed: nat)
    ensures |objects| == 10 && Distinct(objects)
    ensures finalCount == 0 && blocksUsed == 1
  {
    // `sizeof(Chunk)` is 64: `Chunk` takes the 64-byte alignment of `CacheAlignedData`.
    var pool := new MemoryPool(128, 64);
    objects := ConstructMany(pool, 10);
    blocksUsed := pool.blocks;
    DestroyAll(pool, objects);
    finalCount := pool.AllocatedCount();
  }

  /** The loop of `performance_comparison()` over the pool: a construct right after a
      destroy reuses the chunk just given back, so however many rounds run, one block
      suffices and the same chunk is handed out every round. */
  method ReuseLoop(count: nat) returns (blocksUsed: nat, chunks: seq<Ptr>)
    ensures |chunks| == count
    ensures count > 0 ==> blocksUsed == 1
    ensures forall k :: 0 <= k < |chunks| ==> chunks[k] == chunks[0]
  {
    // `sizeof(Chunk)` is 64: `Chunk` takes the 64-byte alignment of `CacheAlignedData`.
    var pool := new MemoryPool(128, 64);
    chunks := [];
    var i := 0;
    while i < count
      invariant 0 <= i <= count && |chunks| == i
      invariant pool.Valid() && fresh(pool)
      invariant pool.allocatedCount == 0
      invariant i > 0 ==> pool.blocks == 1 && pool.freeList != [] && pool.freeList[0] == chunks[0]
      invariant i == 0 ==> pool.blocks == 0 && pool.freeList == []
      invariant forall k :: 0 <= k < i ==> chunks[k] == chunks[0]
    {
      var obj := pool.Construct();
      pool.Destroy(obj);
      chunks := chunks + [obj];
      i := i + 1;
    }
    blocksUsed := pool.blocks;
  }
}

// The fixed-size pool allocator (src/memory/pool_allocator.cpp).
//
// Addresses are naturals.  A chunk is a node header of NodeSize bytes (the
// free list's `next` pointer) followed by the caller's block.  Obtaining a
// new buffer from the system heap is the parameter `freshBase` of Allocate:
// the caller supplies the address `new unsigned char[]` would return.  The
// ghost sets Chunks and Live give every chunk ever carved and those handed
// out and not yet freed.

module PoolAllocation {
  import opened StackLinkedLists

  /** `sizeof(Node)`: one pointer. */
  const NodeSize: nat := 8

  /** The node addresses of one buffer of `count` chunks of `size` bytes at `base`. */
  function BufferChunks(base: nat, count: nat, size: nat): (s: set<nat>)
    ensures forall c :: c in s <==> exists i :: 0 <= i < count && c == base + i * size
  {
    set i | 0 <= i < count :: base + i * size
  }

  /** The nodes on a free list, as a set. */
  ghost function Elements(chain: seq<nat>): set<nat>
  {
    set c | c in chain
  }

  lemma MulStrict(a: nat, b: nat, k: nat)
    requires a < b && k > 0
    ensures a * k < b * k
  {
  }

  /** A chunk below the last one of its buffer ends inside the buffer. */
  lemma {:induction false} ChunkInside(i: nat, n: nat, k: nat)
    requires i < n
    ensures i * k + k <= n * k
  {
    assert n * k == i * k + k + (n - i - 1) * k;
  }

  lemma TotalSizeStep(b: nat, n: nat, k: nat)
    ensures (b + 1) * n * k == b * n * k + n * k
  {
  }

  /** Every chunk of a buffer lies in it, after its base. */
  lemma NewChunksFit(base: nat, n: nat, k: nat)
    ensures forall c :: c in BufferChunks(base, n, k) ==> base <= c && c + k <= base + n * k
  {
    forall c | c in BufferChunks(base, n, k)
      ensures base <= c && c + k <= base + n * k
    {
      var i :| 0 <= i < n && c == base + i * k;
      ChunkInside(i, n, k);
    }
  }

  /** The free list a new buffer leaves: its chunks from the last one down to the first. */
  function DescendingChunks(base: nat, count: nat, size: nat): (s: seq<nat>)
    ensures |s| == count
    ensures forall k :: 0 <= k < count ==> s[k] == base + (count - 1 - k) * size
  {
    if count == 0 then [] else [base + (count - 1) * size] + DescendingChunks(base, count - 1, size)
  }

  /** Every chunk already pushed lies below the next one. */
  lemma DescendingChunksBelow(base: nat, count: nat, size: nat)
    requires size > 0
    ensures forall c :: c in DescendingChunks(base, count, size) ==> c < base + count * size
  {
    var s := DescendingChunks(base, count, size);
    forall k | 0 <= k < count
      ensures s[k] < base + count * size
    {
      MulStrict(count - 1 - k, count, size);
    }
  }

  /** The free list of a new buffer holds exactly the buffer's chunks. */
  lemma DescendingChunksElements(base: nat, count: nat, size: nat)
    ensures Elements(DescendingChunks(base, count, size)) == BufferChunks(base, count, size)
  {
    var s := DescendingChunks(base, count, size);
    forall c | c in BufferChunks(base, count, size)
      ensures c in Elements(s)
    {
      var i :| 0 <= i < count && c == base + i * size;
      assert s[count - 1 - i] == c;
    }
  }

  class PoolAllocator {
    const numChunks: nat
    var chunkSize: nat
    var totalSize: nat
    var used: int
    const freeList: StackLinkedList
    var buffers: seq<nat>
    ghost var Chunks: set<nat>
    ghost var Live: set<nat>

    ghost predicate Valid()
      reads this, freeList
    {
      && freeList.Valid()
      && Chunks == Live + Elements(freeList.Chain)
      && Live !! Elements(freeList.Chain)
      && 0 !in Chunks
      && (numChunks == 0 ==> Chunks == {})
      && (buffers == [] ==> Chunks == {} && chunkSize == 0)
      && (buffers != [] ==> chunkSize >= NodeSize)
      && (forall c :: c in Chunks ==> c + chunkSize <= Top())
      && totalSize == |buffers| * numChunks * chunkSize
    }

    /** One past the highest byte of every buffer: the next buffer starts at or after it. */
    ghost function Top(): nat
      reads this
    {
      if buffers == [] then 0 else buffers[|buffers| - 1] + numChunks * chunkSize
    }

    constructor (numChunks: nat)
      ensures Valid() && fresh(freeList)
      ensures this.numChunks == numChunks && chunkSize == 0 && buffers == []
      ensures Live == {} && used == 0
    {
      this.numChunks := numChunks;
      chunkSize := 0;
      totalSize := 0;
      used := 0;
      freeList := new StackLinkedList();
      buffers := [];
      Chunks := {};
      Live := {};
    }

    /**
     * Hands out the block of the free list's head.  When the list is empty a
     * buffer of numChunks chunks is carved first; with numChunks == 0 the list
     * stays empty and the address returned is that of a null node.
     */
    method Allocate(allocationSize: nat, freshBase: nat) returns (address: nat)
      requires Valid()
      requires buffers == [] || NodeSize + allocationSize == chunkSize
      requires freshBase > 0 && Top() <= freshBase
      requires buffers != [] ==> buffers[|buffers| - 1] < freshBase
      modifies this, freeList
      ensures Valid()
      ensures chunkSize == NodeSize + allocationSize
      ensures used == old(used) + chunkSize
      ensures old(freeList.Chain) != [] ==>
        address == old(freeList.Chain)[0] + NodeSize && buffers == old(buffers)
        && freeList.Chain == old(freeList.Chain)[1..]
      ensures old(freeList.Chain) == [] ==>
        buffers == old(buffers) + [freshBase] && totalSize == old(totalSize) + numChunks * chunkSize
      ensures old(freeList.Chain) == [] && numChunks > 0 ==>
        address == freshBase + (numChunks - 1) * chunkSize + NodeSize && |freeList.Chain| == numChunks - 1
      ensures numChunks > 0 ==>
        address - NodeSize !in old(Live) && Live == old(Live) + {address - NodeSize}
      ensures numChunks == 0 ==> address == NodeSize && Live == old(Live)
    {
      var node := PopFree();
      if node == 0 {
        AddPool(allocationSize, freshBase);
        node := PopFree();
      }
      used := used + chunkSize;
      address := node + NodeSize;
    }

    /** `free_list_.pop()` inside Allocate: the node popped, if any, becomes live. */
    method PopFree() returns (node: nat)
      requires Valid()
      modifies this, freeList
      ensures Valid()
      ensures old(freeList.Chain) == [] ==> node == 0 && freeList.Chain == [] && Live == old(Live)
      ensures old(freeList.Chain) != [] ==>
        && node == old(freeList.Chain)[0] && freeList.Chain == old(freeList.Chain)[1..]
        && node !in old(Live) && Live == old(Live) + {node}
      ensures buffers == old(buffers) && chunkSize == old(chunkSize)
      ensures totalSize == old(totalSize) && used == old(used)
    {
      node := freeList.Pop();
      if node != 0 {
        Live := Live + {node};
      }
    }

    /** The branch of Allocate taken when the free list is empty: a new buffer, every chunk of it free. */
    method AddPool(allocationSize: nat, freshBase: nat)
      requires Valid() && freeList.Chain == []
      requires buffers == [] || NodeSize + allocationSize == chunkSize
      requires freshBase > 0 && Top() <= freshBase
      requires buffers != [] ==> buffers[|buffers| - 1] < freshBase
      modifies this, freeList
      ensures Valid()
      ensures chunkSize == NodeSize + allocationSize && Live == old(Live) && used == old(used)
      ensures buffers == old(buffers) + [freshBase] && totalSize == old(totalSize) + numChunks * chunkSize
      ensures |freeList.Chain| == numChunks
      ensures numChunks > 0 ==> freeList.Chain[0] == freshBase + (numChunks - 1) * chunkSize
    {
      if buffers == [] {
        chunkSize := NodeSize + allocationSize;
      }
      totalSize := totalSize + numChunks * chunkSize;
      TotalSizeStep(|buffers|, numChunks, chunkSize);
      var base := AllocateBuffer(freshBase);
      PushBufferChunks(base);
      NewChunksFit(base, numChunks, chunkSize);
      assert Top() == base + numChunks * chunkSize;
      assert Chunks == Live + Elements(freeList.Chain);
    }

    /** The loop of Allocate that puts every chunk of the new buffer on the free list. */
    method PushBufferChunks(base: nat)
      requires freeList.Valid() && freeList.Chain == []
      requires chunkSize >= NodeSize && base > 0
      requires forall c :: c in Chunks ==> c < base
      modifies this`Chunks, freeList
      ensures freeList.Valid()
      ensures freeList.Chain == DescendingChunks(base, numChunks, chunkSize)
      ensures Elements(freeList.Chain) == BufferChunks(base, numChunks, chunkSize)
      ensures Chunks == old(Chunks) + Elements(freeList.Chain)
    {
      var i := 0;
      while i < numChunks
        modifies freeList
        invariant 0 <= i <= numChunks
        invariant freeList.Valid()
        invariant freeList.Chain == DescendingChunks(base, i, chunkSize)
      {
        var c := base + i * chunkSize;
        DescendingChunksBelow(base, i, chunkSize);
        freeList.Push(c);
        i := i + 1;
      }
      DescendingChunksElements(base, numChunks, chunkSize);
      Chunks := Chunks + Elements(freeList.Chain);
    }

    /** Pushes the block's node back; the block must be one handed out and not yet freed. */
    method Free(address: nat)
      requires Valid()
      requires address >= NodeSize && address - NodeSize in Live
      modifies this, freeList
      ensures Valid()
      ensures freeList.Chain == [address - NodeSize] + old(freeList.Chain)
      ensures Live == old(Live) - {address - NodeSize}
      ensures used == old(used) - chunkSize
      ensures buffers == old(buffers) && chunkSize == old(chunkSize)
    {
      used := used - chunkSize;
      var node := address - NodeSize;
      freeList.Push(node);
      Live := Live - {node};
    }

    /** Records a new buffer of numChunks * chunkSize bytes at the given address. */
    method AllocateBuffer(freshBase: nat) returns (base: nat)
      modifies this
      ensures base == freshBase && buffers == old(buffers) + [freshBase]
      ensures chunkSize == old(chunkSize) && totalSize == old(totalSize) && used == old(used)
      ensures Chunks == old(Chunks) && Live == old(Live)
    {
      buffers := buffers + [freshBase];
      base := freshBase;
    }

    function NumChunks(): (n: nat)
      reads this
      ensures n == numChunks
    {
      numChunks
    }
  }

  /** The allocator test: a freed block is the next one handed out, and live blocks stay distinct. */
  method FreedBlockIsReused() returns (reused: bool, distinct: bool)
    ensures reused && distinct
  {
    var alloc := new PoolAllocator(4);
    var p1 := alloc.Allocate(4, 1000);
    var p2 := alloc.Allocate(4, 2000);
    alloc.Free(p2);
    var p2again := alloc.Allocate(4, 2000);
    var p3 := alloc.Allocate(4, 2000);
    reused := p2again == p2;
    distinct := p1 != p2 && p3 != p1 && p3 != p2again;
  }
}

/**
 The memory pool: a list of chunks, the newest serving requests by bumping the bytes used in it. Blocks handed
 out stay aligned, inside their chunk and apart from one another, and keep their contents.
 */
module Allocators {
  import opened Text

  const TWO_64: nat := 0x1_0000_0000_0000_0000

  predicate Aligned(n: nat) {
    n % 8 == 0
  }

  lemma AlignedSum(a: nat, b: nat)
    requires Aligned(a) && Aligned(b)
    ensures Aligned(a + b) && Aligned(a + HEADER)
  {}

  lemma WrapsOrNot(a: nat, b: nat)
    requires a < TWO_64 && b < TWO_64
    ensures (a + b) % TWO_64 == if a + b < TWO_64 then a + b else a + b - TWO_64
  {}

  lemma AlignedAfter(address: nat, offset: nat)
    requires Aligned(offset)
    ensures Aligned(address + HEADER + offset) <==> Aligned(address)
  {}

  lemma AlignedDifference(a: nat, b: nat)
    requires Aligned(a) && Aligned(b) && b <= a
    ensures Aligned(a - b)
  {}

  /** Rounded up to the alignment, in 64 bits. */
  function Align(size: nat): (r: nat)
    ensures Aligned(r) && r < TWO_64
  {
    (size + 7) % TWO_64 / 8 * 8
  }

  lemma AlignFits(size: nat)
    requires size <= TWO_64 - 8
    ensures size <= Align(size) < size + 8
  {}

  /** No multiple of eight that is at least the size is below it rounded up. */
  lemma AlignLeast(size: nat, n: nat)
    requires size <= n < TWO_64 - 8 && Aligned(n)
    ensures size <= Align(size) <= n
  {
    AlignFits(size);
  }

  /** Size of a chunk's header, aligned. */
  const HEADER: nat := 24

  /** The test that decides whether the newest chunk serves a request, in 64 bits. */
  predicate Serves(used: nat, capacity: nat, size: nat) {
    !((used + Align(size)) % TWO_64 > capacity)
  }

  /** The request neither rounds up past 64 bits nor takes the bytes used past them. */
  predicate NoWrap(used: nat, size: nat) {
    size <= TWO_64 - 8 && used + Align(size) < TWO_64
  }

  /** A chunk that passes the test has room for the request exactly when nothing wraps around. */
  lemma ServesSoundly(used: nat, capacity: nat, size: nat)
    requires used <= capacity < TWO_64 && Aligned(used) && 0 < size < TWO_64 && Serves(used, capacity, size)
    ensures NoWrap(used, size) <==> Align(size) >= size && used + Align(size) <= capacity
  {
    if size <= TWO_64 - 8 {
      AlignFits(size);
    }
  }

  /** Where nothing wraps around, a chunk serves just the requests for which some multiple of eight fits what is unused. */
  lemma ServesIff(used: nat, capacity: nat, size: nat)
    requires NoWrap(used, size)
    ensures Serves(used, capacity, size) <==> exists n: nat :: Aligned(n) && size <= n && used + n <= capacity
  {
    AlignFits(size);
    if Serves(used, capacity, size) {
      assert Aligned(Align(size));
    }
    forall n: nat | Aligned(n) && size <= n
      ensures Align(size) <= n
    {
    }
  }

  // --------------------------------------------------------------- Requests

  /** What the newest chunk has: bytes used, and bytes in all. */
  datatype Room = Room(used: nat, capacity: nat)

  predicate Needs(head: Option<Room>, size: nat) {
    head.None? || !Serves(head.value.used, head.value.capacity, size)
  }

  /** Capacity of the chunk added when the newest one cannot serve. */
  function NewCapacity(chunkCapacity: nat, size: nat): nat {
    if chunkCapacity > Align(size) then chunkCapacity else Align(size)
  }

  /** It is the larger of what the pool was told and what the request needs. */
  lemma NewCapacityIs(chunkCapacity: nat, size: nat)
    requires size <= TWO_64 - 8
    ensures NewCapacity(chunkCapacity, size) >= chunkCapacity && NewCapacity(chunkCapacity, size) >= size
    ensures NewCapacity(chunkCapacity, size) == chunkCapacity || (chunkCapacity < size + 8 && NewCapacity(chunkCapacity, size) < size + 8)
  {
    AlignFits(size);
  }

  /** Bytes asked of the base allocator for a chunk, in 64 bits. */
  function Request(capacity: nat): nat {
    (HEADER + capacity) % TWO_64
  }

  /** None of the three sums wraps around: the rounding, the bytes used, and the header of a chunk that is needed. */
  predicate Sound(head: Option<Room>, chunkCapacity: nat, size: nat) {
    && size <= TWO_64 - 8
    && (head.Some? ==> head.value.used + Align(size) < TWO_64)
    && (Needs(head, size) ==> HEADER + NewCapacity(chunkCapacity, size) < TWO_64)
  }

  /** Bytes that were granted by the base allocator, or by the user, for the chunk that serves the request. */
  function Grant(head: Option<Room>, chunkCapacity: nat, size: nat): nat {
    if Needs(head, size) then Request(NewCapacity(chunkCapacity, size)) else HEADER + head.value.capacity
  }

  /** Where the block starts after the header of that chunk. */
  function Offset(head: Option<Room>, size: nat): nat {
    if Needs(head, size) then 0 else head.value.used
  }

  ghost predicate IsRoom(head: Option<Room>) {
    head.Some? ==> head.value.used <= head.value.capacity && Aligned(head.value.used) && HEADER + head.value.capacity < TWO_64
  }

  /** A request is served with a block inside what was granted exactly when none of the sums wraps around. */
  lemma SoundIff(head: Option<Room>, chunkCapacity: nat, size: nat)
    requires IsRoom(head) && chunkCapacity < TWO_64 && 0 < size < TWO_64
    ensures Sound(head, chunkCapacity, size) <==> HEADER + Offset(head, size) + size <= Grant(head, chunkCapacity, size)
    ensures Sound(head, chunkCapacity, size) ==>
              size <= Align(size) && HEADER + Offset(head, size) + Align(size) <= Grant(head, chunkCapacity, size)
  {
    if size <= TWO_64 - 8 {
      AlignFits(size);
    } else {
      assert (size + 7) % TWO_64 == size + 7 - TWO_64 < 8;
      assert Align(size) == 0;
    }
  }

  /**
   One failing request for each sum: 2^64 - 4 bytes round to none; 2^64 - 16 bytes round to themselves, but with a
   header 8 bytes are asked for; and so few are asked for any request when the chunk capacity is that large.
   */
  lemma FailingRequests()
    ensures Align(TWO_64 - 4) == 0 && Request(NewCapacity(65536, TWO_64 - 4)) == 65560 && !Sound(None, 65536, TWO_64 - 4)
    ensures Align(TWO_64 - 16) == TWO_64 - 16 && Request(NewCapacity(65536, TWO_64 - 16)) == 8 && !Sound(None, 65536, TWO_64 - 16)
    ensures Request(NewCapacity(TWO_64 - 16, 1)) == 8 && !Sound(None, TWO_64 - 16, 1)
    ensures
      var head := Some(Room(64, 65536));
      Serves(64, 65536, TWO_64 - 16) && !Sound(head, 65536, TWO_64 - 16)
  {}

  class Chunk {
    const address: nat
    const capacity: nat
    ghost const granted: nat
    const next: Chunk?
    var size: nat

    /** A chunk at the start of a region of `granted` bytes. */
    constructor (address: nat, capacity: nat, ghost granted: nat, next: Chunk?)
      ensures this.address == address && this.capacity == capacity && this.granted == granted && this.next == next && size == 0
    {
      this.address, this.capacity, this.granted, this.next, size := address, capacity, granted, next, 0;
    }
  }

  /** A block handed out: where it lies in its chunk, and its aligned size. */
  datatype Block = Block(chunk: Chunk, offset: nat, size: nat)

  function Address(b: Block): nat {
    b.chunk.address + HEADER + b.offset
  }

  /** The chunks' regions, headers included, do not meet. */
  ghost predicate Separate(c: Chunk, d: Chunk) {
    c.address + c.granted <= d.address || d.address + d.granted <= c.address
  }

  /** In one chunk the blocks do not meet. */
  predicate Apart(b: Block, c: Block) {
    b.chunk == c.chunk ==> b.offset + b.size <= c.offset || c.offset + c.size <= b.offset
  }

  /** The chunk records the capacity it was given, and no more of it is used. */
  ghost predicate SoundChunk(c: Chunk)
    reads c
  {
    && c.address > 0 && Aligned(c.size) && c.size <= c.capacity
    && HEADER + c.capacity == c.granted && c.address + c.granted < TWO_64
  }

  /** All chunks but the user's are where a base allocator puts them. */
  ghost predicate BaseAligned(chunks: seq<Chunk>, user: Chunk?) {
    forall i | 0 <= i < |chunks| && chunks[i] != user :: Aligned(chunks[i].address)
  }

  predicate SoundBlock(b: Block)
    reads b.chunk
  {
    Aligned(b.offset) && Aligned(b.size) && b.size > 0 && b.offset + b.size <= b.chunk.size
  }

  function SumSize(chunks: seq<Chunk>): nat
    reads chunks
  {
    if chunks == [] then 0 else chunks[0].size + SumSize(chunks[1..])
  }

  function SumCapacity(chunks: seq<Chunk>): nat {
    if chunks == [] then 0 else chunks[0].capacity + SumCapacity(chunks[1..])
  }

  ghost predicate ChunksSound(chunks: seq<Chunk>)
    reads chunks
  {
    && (forall i | 0 <= i < |chunks| :: SoundChunk(chunks[i]))
    && (forall i, j | 0 <= i < j < |chunks| :: Separate(chunks[i], chunks[j]))
  }

  ghost predicate BlocksSound(chunks: seq<Chunk>, blocks: seq<Block>)
    reads chunks
  {
    && (forall i | 0 <= i < |blocks| :: blocks[i].chunk in chunks && SoundBlock(blocks[i]))
    && (forall i, j | 0 <= i < j < |blocks| :: Apart(blocks[i], blocks[j]))
  }

  ghost function Nth(chunks: seq<Chunk>, k: nat): Chunk? {
    if k < |chunks| then chunks[k] else null
  }

  ghost predicate IsList(chunks: seq<Chunk>) {
    forall i | 0 <= i < |chunks| :: chunks[i].next == Nth(chunks, i + 1)
  }

  lemma ChunkAdded(chunks: seq<Chunk>, blocks: seq<Block>, chunk: Chunk)
    requires ChunksSound(chunks) && BlocksSound(chunks, blocks) && IsList(chunks) && chunk.next == Nth(chunks, 0)
    requires SoundChunk(chunk) && forall i | 0 <= i < |chunks| :: Separate(chunk, chunks[i])
    ensures ChunksSound([chunk] + chunks) && BlocksSound([chunk] + chunks, blocks) && IsList([chunk] + chunks)
  {
    hide SoundChunk, SoundBlock, Separate, Apart;
    var more := [chunk] + chunks;
    forall i | 0 <= i < |more| ensures SoundChunk(more[i]) && more[i].next == Nth(more, i + 1) {
      if i > 0 {
        assert more[i] == chunks[i - 1] && Nth(more, i + 1) == Nth(chunks, i);
      }
    }
    forall i, j | 0 <= i < j < |more| ensures Separate(more[i], more[j]) {
      assert more[j] == chunks[j - 1];
    }
    forall i | 0 <= i < |blocks| ensures blocks[i].chunk in more {
      var k :| 0 <= k < |chunks| && chunks[k] == blocks[i].chunk;
      assert more[k + 1] == blocks[i].chunk;
    }
  }

  lemma ChunkDropped(chunks: seq<Chunk>)
    requires ChunksSound(chunks) && IsList(chunks) && chunks != []
    ensures ChunksSound(chunks[1..]) && IsList(chunks[1..]) && chunks[0].next == Nth(chunks[1..], 0)
    ensures BlocksSound(chunks[1..], [])
  {
    hide SoundChunk, Separate;
    var rest := chunks[1..];
    forall i | 0 <= i < |rest| ensures SoundChunk(rest[i]) && rest[i].next == Nth(rest, i + 1) {
      assert rest[i] == chunks[i + 1] && Nth(rest, i + 1) == Nth(chunks, i + 2);
    }
    forall i, j | 0 <= i < j < |rest| ensures Separate(rest[i], rest[j]) {
      assert Separate(chunks[i + 1], chunks[j + 1]);
    }
  }

  /** The chunk has room for that many bytes more. */
  ghost predicate Usable(head: Chunk, n: nat, chunks: seq<Chunk>, blocks: seq<Block>)
    reads head, chunks
  {
    && head in chunks && Aligned(n) && head.size + n <= head.capacity && SoundChunk(head)
    && ChunksSound(chunks) && BlocksSound(chunks, blocks)
  }

  /** More bytes of a chunk are used, in 64 bits: where there is room for them, chunks and blocks stay sound. */
  method Use(head: Chunk, n: nat, ghost chunks: seq<Chunk>, ghost blocks: seq<Block>)
    modifies head
    ensures head.size == (old(head.size) + n) % TWO_64
    ensures old(Usable(head, n, chunks, blocks)) ==>
              && head.size == old(head.size) + n && SoundChunk(head)
              && ChunksSound(chunks) && BlocksSound(chunks, blocks)
              && forall i | 0 <= i < |blocks| && blocks[i].chunk == head :: blocks[i].offset + blocks[i].size <= old(head.size)
  {
    hide Aligned, Separate, Apart;
    ghost var usable := Usable(head, n, chunks, blocks);
    if usable {
      AlignedSum(head.size, n);
      assert forall i | 0 <= i < |blocks| :: SoundBlock(blocks[i]);
      assert forall i | 0 <= i < |chunks| :: SoundChunk(chunks[i]);
    }
    head.size := (head.size + n) % TWO_64;
    if usable {
      forall i | 0 <= i < |blocks| ensures SoundBlock(blocks[i]) {
        assert old(SoundBlock(blocks[i]));
      }
      forall i | 0 <= i < |chunks| ensures SoundChunk(chunks[i]) {
        assert old(SoundChunk(chunks[i]));
      }
    }
  }

  /** One more block, after all others in its chunk. */
  lemma AppendSound(chunks: seq<Chunk>, blocks: seq<Block>, b: Block)
    requires BlocksSound(chunks, blocks) && b.chunk in chunks && SoundBlock(b)
    requires forall i | 0 <= i < |blocks| && blocks[i].chunk == b.chunk :: blocks[i].offset + blocks[i].size <= b.offset
    ensures BlocksSound(chunks, blocks + [b])
  {
    hide SoundBlock;
    var more := blocks + [b];
    forall i, j | 0 <= i < j < |more| ensures Apart(more[i], more[j]) {
      if j < |blocks| {
        assert Apart(blocks[i], blocks[j]);
      }
    }
  }

  /** The last block of a chunk takes the bytes after it. */
  lemma LastGrows(chunks: seq<Chunk>, blocks: seq<Block>, i: nat, n: nat)
    requires BlocksSound(chunks, blocks) && i < |blocks| && Aligned(n)
    requires blocks[i].offset + blocks[i].size + n == blocks[i].chunk.size
    requires forall k | 0 <= k < |blocks| && blocks[k].chunk == blocks[i].chunk ::
               blocks[k].offset + blocks[k].size <= blocks[i].offset + blocks[i].size
    ensures BlocksSound(chunks, blocks[i := Block(blocks[i].chunk, blocks[i].offset, blocks[i].size + n)])
  {
    hide Aligned;
    var b := Block(blocks[i].chunk, blocks[i].offset, blocks[i].size + n);
    var next := blocks[i := b];
    AlignedSum(blocks[i].size, n);
    assert SoundBlock(blocks[i]) && SoundBlock(b);
    forall k | 0 <= k < |next| ensures next[k].chunk in chunks && SoundBlock(next[k]) {
      assert SoundBlock(blocks[k]);
    }
    forall k, l | 0 <= k < l < |next| ensures Apart(next[k], next[l]) {
      assert Apart(blocks[k], blocks[l]) && SoundBlock(blocks[k]) && SoundBlock(blocks[l]);
    }
  }

  class MemoryPool {
    const chunkCapacity: nat
    const userBuffer: Chunk?
    var chunkHead: Chunk?
    var memory: nat -> Byte
    ghost var chunks: seq<Chunk>
    ghost var blocks: seq<Block>

    /** The chunks are the list from the head on. */
    ghost predicate Linked()
      reads this
    {
      && chunkHead == Nth(chunks, 0)
      && IsList(chunks)
      && (userBuffer != null ==> chunks != [] && chunks[|chunks| - 1] == userBuffer)
    }

    ghost predicate Valid()
      reads this, chunks
    {
      && Linked() && chunkCapacity < TWO_64 && ChunksSound(chunks) && BlocksSound(chunks, blocks)
      && BaseAligned(chunks, userBuffer)
    }

    /** What a base allocator may answer: a region that meets no chunk. */
    ghost predicate FreeRegion(p: nat, n: nat)
      reads this
    {
      p > 0 && Aligned(p) && p + n < TWO_64
      && forall i | 0 <= i < |chunks| ::
           p + n <= chunks[i].address || chunks[i].address + chunks[i].granted <= p
    }

    constructor (capacity: nat, memory: nat -> Byte)
      requires capacity < TWO_64
      ensures Valid() && chunks == [] && blocks == [] && userBuffer == null && chunkCapacity == capacity
    {
      chunkCapacity, userBuffer, chunkHead, this.memory, chunks, blocks := capacity, null, null, memory, [], [];
    }

    constructor FromBuffer(buffer: nat, size: nat, capacity: nat, memory: nat -> Byte)
      requires capacity < TWO_64 && buffer > 0 && HEADER < size && buffer + size < TWO_64
      ensures Valid() && fresh(chunks) && chunks == [userBuffer] && blocks == [] && chunkCapacity == capacity
    {
      var chunk := new Chunk(buffer, size - HEADER, size, null);
      chunkCapacity, userBuffer, chunkHead, this.memory, chunks, blocks := capacity, chunk, chunk, memory, [chunk], [];
    }

    /** Blocks lie inside what their chunk was granted, no two of them share an address, and they are aligned as it is. */
    lemma BlocksAreApart(i: nat, j: nat)
      requires Valid() && i < |blocks| && j < |blocks| && i != j
      ensures Aligned(Address(blocks[i])) <==> Aligned(blocks[i].chunk.address)
      ensures blocks[i].chunk != userBuffer ==> Aligned(Address(blocks[i]))
      ensures Address(blocks[i]) + blocks[i].size <= blocks[i].chunk.address + blocks[i].chunk.granted
      ensures Address(blocks[i]) + blocks[i].size <= Address(blocks[j]) || Address(blocks[j]) + blocks[j].size <= Address(blocks[i])
    {
      hide Aligned;
      var b, c := blocks[i], blocks[j];
      assert SoundBlock(b) && SoundBlock(c);
      assert Apart(b, c) by {
        if i < j { assert Apart(b, c); } else { assert Apart(c, b); }
      }
      if b.chunk != c.chunk {
        var k :| 0 <= k < |chunks| && chunks[k] == b.chunk;
        var l :| 0 <= l < |chunks| && chunks[l] == c.chunk;
        assert SoundChunk(chunks[k]) && SoundChunk(chunks[l]);
        if k < l { assert Separate(chunks[k], chunks[l]); } else { assert Separate(chunks[l], chunks[k]); }
      }
      var k :| 0 <= k < |chunks| && chunks[k] == b.chunk;
      assert SoundChunk(chunks[k]);
      AlignedAfter(b.chunk.address, b.offset);
    }

    /** A chunk of the region offered. Its header asks for 24 bytes more than its capacity, in 64 bits. */
    method AddChunk(capacity: nat, offer: Option<nat>) returns (ok: bool)
      requires Valid() && capacity < TWO_64 && (offer.Some? ==> FreeRegion(offer.value, Request(capacity)))
      modifies this
      ensures ok == offer.Some? && blocks == old(blocks) && memory == old(memory)
      ensures !ok ==> chunks == old(chunks) && chunkHead == old(chunkHead)
      ensures ok ==> |chunks| == |old(chunks)| + 1 && chunks[1..] == old(chunks) && fresh(chunks[0]) && chunkHead == chunks[0]
                     && chunks[0].capacity == capacity && chunks[0].size == 0
                     && chunks[0].address == offer.value && chunks[0].granted == Request(capacity)
      ensures Valid() <==> !ok || HEADER + capacity < TWO_64
    {
      hide BlocksSound, IsList, FreeRegion, Separate;
      ok := offer.Some?;
      if ok {
        var chunk := new Chunk(offer.value, capacity, Request(capacity), chunkHead);
        ghost var before := chunks;
        if HEADER + capacity < TWO_64 {
          NewChunk(chunk);
          ChunkAdded(before, blocks, chunk);
        }
        chunks := [chunk] + chunks;
        chunkHead := chunk;
        assert chunks[0] == chunk && chunks[1..] == before;
        assert ChunksSound(chunks) ==> SoundChunk(chunks[0]);
      }
    }

    lemma NewChunk(chunk: Chunk)
      requires FreeRegion(chunk.address, chunk.granted) && chunk.granted == HEADER + chunk.capacity && chunk.size == 0
      ensures SoundChunk(chunk) && Aligned(chunk.address) && forall i | 0 <= i < |chunks| :: Separate(chunk, chunks[i])
    {}

    /** Bytes used in the newest chunk. */
    function Used(): nat
      reads this, chunkHead
    {
      if chunkHead == null then 0 else chunkHead.size
    }

    function Head(): Option<Room>
      reads this, chunkHead
    {
      if chunkHead == null then None else Some(Room(chunkHead.size, chunkHead.capacity))
    }

    /**
     A block for any size, with every sum in 64 bits. It lies inside what was granted exactly when no sum wraps
     around; then it is at least of the size asked for, and all that was handed out before stays as it is. There is
     no block exactly for no bytes, and when a chunk was needed and refused.
     */
    method Malloc(size: nat, offer: Option<nat>) returns (p: Option<nat>)
      requires Valid() && size < TWO_64
      requires offer.Some? ==> FreeRegion(offer.value, Request(NewCapacity(chunkCapacity, size)))
      modifies this, chunkHead
      ensures memory == old(memory)
      ensures p.None? <==> size == 0 || (Needs(old(Head()), size) && offer.None?)
      ensures p.None? ==> Valid() && blocks == old(blocks) && chunks == old(chunks) && Head() == old(Head())
      ensures p.Some? ==> chunkHead != null && p.value == chunkHead.address + HEADER + Offset(old(Head()), size)
                          && chunkHead.granted == Grant(old(Head()), chunkCapacity, size)
      ensures p.Some? ==>
                (Sound(old(Head()), chunkCapacity, size) <==> p.value + size <= chunkHead.address + chunkHead.granted)
      ensures p.Some? && Sound(old(Head()), chunkCapacity, size) ==>
                && Valid() && |blocks| == |old(blocks)| + 1 && blocks[..|old(blocks)|] == old(blocks)
                && blocks[|old(blocks)|].size == Align(size) >= size
                && p.value == Address(blocks[|old(blocks)|])
    {
      if size == 0 {
        return None;
      }
      ghost var head := Head();
      if chunkHead != null {
        HeadSound();
      }
      SoundIff(head, chunkCapacity, size);
      hide Valid, Align, FreeRegion, Serves, SoundChunk;
      if chunkHead == null || !Serves(chunkHead.size, chunkHead.capacity, size) {
        var ok := AddChunk(NewCapacity(chunkCapacity, size), offer);
        if !ok {
          return None;
        }
      }
      var address := Bump(Align(size));
      p := Some(address);
    }

    /** Takes the next bytes of the newest chunk. */
    method Bump(aligned: nat) returns (p: nat)
      requires chunkHead != null
      modifies this`blocks, chunkHead
      ensures p == chunkHead.address + HEADER + old(chunkHead.size)
      ensures old(Valid() && aligned > 0 && Aligned(aligned) && chunkHead.size + aligned <= chunkHead.capacity) ==>
                && Valid() && |blocks| == |old(blocks)| + 1 && blocks[..|old(blocks)|] == old(blocks)
                && blocks[|old(blocks)|].size == aligned && p == Address(blocks[|old(blocks)|])
    {
      hide Aligned, ChunksSound, BlocksSound;
      var head := chunkHead;
      ghost var b := Block(head, head.size, aligned);
      p := head.address + HEADER + head.size;
      ghost var roomy := Valid() && aligned > 0 && Aligned(aligned) && head.size + aligned <= head.capacity;
      if roomy {
        HeadSound();
      }
      Use(head, aligned, chunks, blocks);
      if roomy {
        blocks := blocks + [b];
        AppendSound(chunks, old(blocks), b);
      }
    }

    lemma HeadSound()
      requires Valid() && chunkHead != null
      ensures chunks != [] && chunkHead == chunks[0] && chunkHead in chunks && SoundChunk(chunkHead)
    {}

    /** What the caller of a reallocation must know: the block, and no more than its size. */
    ghost predicate IsBlock(p: nat, size: nat, i: nat)
      reads this
    {
      i < |blocks| && Address(blocks[i]) == p && size <= blocks[i].size
    }

    /** An address that many bytes before the end of what is used can only be that of the newest chunk's last block. */
    lemma LastBlock(p: nat, i: nat, size: nat)
      requires Valid() && chunkHead != null && IsBlock(p, size, i)
      requires p + Align(size) == chunkHead.address + HEADER + chunkHead.size
      ensures blocks[i].chunk == chunkHead && Align(size) == blocks[i].size
      ensures blocks[i].offset + blocks[i].size == chunkHead.size
    {
      BlockFacts(p, size, i);
      hide Aligned, Align;
      var b := blocks[i];
      assert SoundBlock(b) && SoundChunk(chunks[0]) && chunks[0] == chunkHead;
      var k :| 0 <= k < |chunks| && chunks[k] == b.chunk;
      assert SoundChunk(chunks[k]);
      if k > 0 {
        assert false;
      }
    }

    lemma HeadRoom()
      requires Valid()
      ensures IsRoom(Head()) && chunkCapacity < TWO_64
    {
      if chunkHead != null {
        HeadSound();
      }
    }

    /** The block ends where the bytes used in the newest chunk do. */
    predicate IsLast(p: nat, originalSize: nat)
      reads this, chunkHead
    {
      chunkHead != null && p + Align(originalSize) == chunkHead.address + HEADER + chunkHead.size
    }

    /** The test that the last block can be extended, in 64 bits. */
    predicate Expands(p: nat, originalSize: nat, newSize: nat)
      reads this, chunkHead
    {
      && IsLast(p, originalSize) && Align(originalSize) < Align(newSize)
      && (chunkHead.size + (Align(newSize) - Align(originalSize))) % TWO_64 <= chunkHead.capacity
    }

    /** The block is given back as it is, or extended. */
    predicate Stays(p: nat, originalSize: nat, newSize: nat)
      reads this, chunkHead
    {
      Align(originalSize) >= Align(newSize) || Expands(p, originalSize, newSize)
    }

    /** None of the sums made for the reallocation wraps around. */
    predicate ReallocSound(p: Option<nat>, originalSize: nat, newSize: nat)
      reads this, chunkHead
    {
      if p.None? then Sound(Head(), chunkCapacity, newSize)
      else
        && newSize <= TWO_64 - 8
        && (if Expands(p.value, originalSize, newSize) then
              Used() + (Align(newSize) - Align(originalSize)) < TWO_64
            else
              Align(originalSize) >= Align(newSize) || Sound(Head(), chunkCapacity, newSize))
    }

    /** There is nothing to hand out, or a chunk is needed and refused. */
    predicate ReallocFails(p: Option<nat>, originalSize: nat, newSize: nat, offer: Option<nat>)
      reads this, chunkHead
    {
      newSize == 0 || (offer.None? && (p.Some? ==> !Stays(p.value, originalSize, newSize)) && Needs(Head(), newSize))
    }

    /**
     A larger block with the same contents: the same one, extended if it is the last, else a copy. It lies inside
     what its chunk was granted exactly when no sum wraps around.
     */
    method Realloc(p: Option<nat>, originalSize: nat, newSize: nat, offer: Option<nat>, ghost i: nat) returns (q: Option<nat>)
      requires Valid() && newSize < TWO_64 && (p.Some? ==> IsBlock(p.value, originalSize, i))
      requires offer.Some? ==> FreeRegion(offer.value, Request(NewCapacity(chunkCapacity, newSize)))
      modifies this, chunkHead
      ensures q.None? <==> old(ReallocFails(p, originalSize, newSize, offer))
      ensures q.None? ==> Valid() && blocks == old(blocks) && memory == old(memory)
      ensures q.Some? ==>
                var stays := p.Some? && old(Stays(p.value, originalSize, newSize));
                && (stays ==> q == p) && (!stays ==> chunkHead != null)
                && var chunk := if stays then old(blocks)[i].chunk else chunkHead;
                   old(ReallocSound(p, originalSize, newSize)) <==> q.value + newSize <= chunk.address + chunk.granted
      ensures q.Some? && old(ReallocSound(p, originalSize, newSize)) ==>
                && Valid()
                && if p.None? then
                     && memory == old(memory) && |blocks| == |old(blocks)| + 1 && blocks[..|old(blocks)|] == old(blocks)
                     && blocks[|old(blocks)|].size >= newSize && q.value == Address(blocks[|old(blocks)|])
                   else if old(Stays(p.value, originalSize, newSize)) then
                     && memory == old(memory) && |blocks| == |old(blocks)| && blocks[i].size >= newSize
                     && Address(blocks[i]) == p.value && forall k | 0 <= k < |blocks| && k != i :: blocks[k] == old(blocks)[k]
                   else
                     && |blocks| == |old(blocks)| + 1 && blocks[..|old(blocks)|] == old(blocks)
                     && blocks[|old(blocks)|].size >= newSize && q.value == Address(blocks[|old(blocks)|])
                     && Copied(old(memory), memory, p.value, q.value, Align(originalSize))
                     && forall k | 0 <= k < |old(blocks)| :: Untouched(old(memory), memory, blocks[k])
    {
      hide Valid, Align, Copied, FreeRegion, IsBlock, Sound, Needs, Serves;
      AlignTwice(newSize);
      if p.None? {
        q := Malloc(newSize, offer);
        return;
      }
      if newSize == 0 {
        return None;
      }
      BlockFacts(p.value, originalSize, i);
      if Stays(p.value, originalSize, newSize) {
        KeptOrNot(p.value, originalSize, newSize, i);
      }
      var original, aligned := Align(originalSize), Align(newSize);
      if original >= aligned {
        return p;
      }
      if p.value + original == chunkHead.address + HEADER + chunkHead.size {
        LastBlock(p.value, i, originalSize);
        var increment := aligned - original;
        AlignedDifference(aligned, original);
        if (chunkHead.size + increment) % TWO_64 <= chunkHead.capacity {
          Extend(i, increment);
          return p;
        }
      }
      q := Move(p.value, originalSize, newSize, offer, i);
    }

    /** A block of the new size, and in it a copy of the old one. */
    method Move(p: nat, originalSize: nat, newSize: nat, offer: Option<nat>, ghost i: nat) returns (q: Option<nat>)
      requires Valid() && IsBlock(p, originalSize, i) && 0 < newSize <= TWO_64 - 8 && Align(originalSize) < Align(newSize)
      requires offer.Some? ==> FreeRegion(offer.value, Request(NewCapacity(chunkCapacity, newSize)))
      modifies this, chunkHead
      ensures q.None? <==> Needs(old(Head()), newSize) && offer.None?
      ensures q.None? ==> Valid() && blocks == old(blocks) && memory == old(memory)
      ensures q.Some? ==> chunkHead != null
      ensures q.Some? ==>
                (Sound(old(Head()), chunkCapacity, newSize) <==> q.value + newSize <= chunkHead.address + chunkHead.granted)
      ensures q.Some? && Sound(old(Head()), chunkCapacity, newSize) ==>
                && Valid() && |blocks| == |old(blocks)| + 1 && blocks[..|old(blocks)|] == old(blocks)
                && blocks[|old(blocks)|].size >= newSize && q.value == Address(blocks[|old(blocks)|])
                && Copied(old(memory), memory, p, q.value, Align(originalSize))
                && forall k | 0 <= k < |old(blocks)| :: Untouched(old(memory), memory, blocks[k])
    {
      hide Valid, Align, Copied, FreeRegion, IsBlock, Sound, Needs, Serves, Untouched;
      AlignTwice(newSize);
      HeadRoom();
      SoundIff(Head(), chunkCapacity, newSize);
      q := Malloc(Align(newSize), offer);
      if q.Some? {
        ghost var was, n := memory, |blocks| - 1;
        Copy(p, q.value, Align(originalSize));
        if Sound(old(Head()), chunkCapacity, newSize) {
          forall k | 0 <= k < n ensures Untouched(was, memory, blocks[k]) {
            CopyKeeps(was, p, n, Align(originalSize), k);
          }
        }
      }
    }

    /** A block that stays has room for the new size exactly when neither the rounding nor the extension wraps around. */
    lemma KeptOrNot(p: nat, originalSize: nat, newSize: nat, i: nat)
      requires Valid() && newSize < TWO_64 && IsBlock(p, originalSize, i) && Stays(p, originalSize, newSize)
      ensures ReallocSound(Some(p), originalSize, newSize) <==>
              p + newSize <= blocks[i].chunk.address + blocks[i].chunk.granted
    {
      hide Valid, Align, IsBlock, SoundChunk, Needs, Sound;
      BlockFacts(p, originalSize, i);
      InsideGrant(i);
      AlignTwice(newSize);
      if Expands(p, originalSize, newSize) {
        LastBlock(p, i, originalSize);
        HeadGrant();
        WrapsOrNot(chunkHead.size, Align(newSize) - Align(originalSize));
      }
    }

    /** A block is extended in place exactly when it is the newest chunk's last and the chunk has room for its new size. */
    lemma ExpandsIff(p: nat, originalSize: nat, newSize: nat, i: nat)
      requires Valid() && chunkHead != null && IsBlock(p, originalSize, i)
      requires originalSize < newSize <= TWO_64 - 8 && Align(originalSize) < Align(newSize)
      requires chunkHead.size + (Align(newSize) - Align(originalSize)) < TWO_64
      ensures Expands(p, originalSize, newSize) <==>
              && blocks[i].chunk == chunkHead && blocks[i].offset + Align(originalSize) == chunkHead.size
              && blocks[i].offset + Align(newSize) <= chunkHead.capacity
    {
      hide Valid, Align;
      BlockFacts(p, originalSize, i);
      if IsLast(p, originalSize) {
        LastBlock(p, i, originalSize);
      }
    }

    lemma HeadGrant()
      requires Valid() && chunkHead != null
      ensures chunkHead.size <= chunkHead.capacity && chunkHead.granted == HEADER + chunkHead.capacity
    {
      HeadSound();
    }

    lemma InsideGrant(i: nat)
      requires Valid() && i < |blocks|
      ensures Address(blocks[i]) + blocks[i].size <= blocks[i].chunk.address + blocks[i].chunk.granted < TWO_64
    {
      assert SoundBlock(blocks[i]);
      var k :| 0 <= k < |chunks| && chunks[k] == blocks[i].chunk;
      assert SoundChunk(chunks[k]);
    }

    /** Copying into the last block touches no other. */
    lemma CopyKeeps(was: nat -> Byte, p: nat, n: nat, size: nat, k: nat)
      requires Valid() && n < |blocks| && k < |blocks| && k != n && size <= blocks[n].size
      requires Copied(was, memory, p, Address(blocks[n]), size)
      ensures Untouched(was, memory, blocks[k])
    {
      BlocksAreApart(k, n);
    }

    /** Copies bytes to a block that holds none of them. */
    method Copy(source: nat, target: nat, size: nat)
      modifies this`memory
      ensures (old(Valid()) ==> Valid()) && Copied(old(memory), memory, source, target, size)
    {
      hide ChunksSound, BlocksSound, IsList;
      var was := memory;
      memory := (a: nat) => if target <= a < target + size then was(source + (a - target)) else was(a);
    }

    lemma BlockFacts(p: nat, size: nat, i: nat)
      requires Valid() && IsBlock(p, size, i)
      ensures i < |blocks| && Address(blocks[i]) == p && size <= Align(size) <= blocks[i].size
      ensures chunkHead != null && chunkHead == Nth(chunks, 0) && SoundChunk(chunkHead)
    {
      hide Align, Separate, Apart;
      assert SoundBlock(blocks[i]);
      var k :| 0 <= k < |chunks| && chunks[k] == blocks[i].chunk;
      assert SoundChunk(chunks[k]);
      assert SoundChunk(chunks[0]);
      AlignLeast(size, blocks[i].size);
    }

    lemma AlignTwice(size: nat)
      requires size < TWO_64
      ensures Align(Align(size)) == Align(size) < TWO_64
      ensures if size <= TWO_64 - 8 then size <= Align(size) < size + 8 else Align(size) == 0
      ensures Needs(Head(), Align(size)) == Needs(Head(), size) && NewCapacity(chunkCapacity, Align(size)) == NewCapacity(chunkCapacity, size)
      ensures size <= TWO_64 - 8 ==> Sound(Head(), chunkCapacity, Align(size)) == Sound(Head(), chunkCapacity, size)
    {
      if size <= TWO_64 - 8 {
        AlignFits(size);
      }
    }

    /** The last block of the newest chunk grows. */
    method Extend(ghost i: nat, increment: nat)
      requires chunkHead != null
      modifies this`blocks, chunkHead
      ensures old(Extensible(i, increment)) ==>
                && Valid() && |blocks| == |old(blocks)|
                && blocks[i] == Block(chunkHead, old(blocks)[i].offset, old(blocks)[i].size + increment)
                && forall k | 0 <= k < |blocks| && k != i :: blocks[k] == old(blocks)[k]
    {
      hide Aligned, ChunksSound, BlocksSound;
      ghost var before, extensible := blocks, Extensible(i, increment);
      if extensible {
        HeadSound();
      }
      Use(chunkHead, increment, chunks, blocks);
      if extensible {
        blocks := blocks[i := Block(chunkHead, blocks[i].offset, blocks[i].size + increment)];
        LastGrows(chunks, before, i, increment);
      }
    }

    /** The block is the last of the newest chunk, which has room for its extension. */
    ghost predicate Extensible(i: nat, increment: nat)
      reads this, chunks, chunkHead
    {
      && Valid() && chunkHead != null && i < |blocks| && blocks[i].chunk == chunkHead && Aligned(increment)
      && blocks[i].offset + blocks[i].size == chunkHead.size && chunkHead.size + increment <= chunkHead.capacity
    }

    /** Total of the capacities, by a walk over the list. */
    method Capacity() returns (capacity: nat)
      requires Valid()
      ensures capacity == SumCapacity(chunks)
    {
      capacity := 0;
      var c := chunkHead;
      ghost var k := 0;
      assert chunks[0..] == chunks;
      while c != null
        invariant 0 <= k <= |chunks| && c == Nth(chunks, k)
        invariant capacity + SumCapacity(chunks[k..]) == SumCapacity(chunks)
        decreases |chunks| - k
      {
        assert chunks[k..][0] == c && chunks[k..][1..] == chunks[k + 1..];
        capacity := capacity + c.capacity;
        c := c.next;
        k := k + 1;
      }
      assert chunks[k..] == [];
    }

    /** Total of the bytes used, never more than the total of the capacities. */
    method Size() returns (size: nat)
      requires Valid()
      ensures size == SumSize(chunks) <= SumCapacity(chunks)
    {
      size := 0;
      var c := chunkHead;
      ghost var k := 0;
      assert chunks[0..] == chunks;
      UsedWithinCapacity(chunks);
      while c != null
        invariant 0 <= k <= |chunks| && c == Nth(chunks, k)
        invariant size + SumSize(chunks[k..]) == SumSize(chunks)
        decreases |chunks| - k
      {
        assert chunks[k..][0] == c && chunks[k..][1..] == chunks[k + 1..];
        size := size + c.size;
        c := c.next;
        k := k + 1;
      }
      assert chunks[k..] == [];
    }

    /** Gives every chunk back but the user's buffer, which is emptied. */
    method Clear()
      requires Valid()
      modifies this, chunks
      ensures Valid() && blocks == [] && SumSize(chunks) == 0
      ensures chunks == if userBuffer == null then [] else [userBuffer]
    {
      hide ChunksSound, IsList;
      blocks := [];
      while chunkHead != null && chunkHead != userBuffer
        invariant Valid() && blocks == [] && |chunks| <= |old(chunks)|
        invariant chunks == old(chunks)[|old(chunks)| - |chunks|..]
        decreases |chunks|
      {
        ChunkDropped(chunks);
        chunkHead := chunkHead.next;
        chunks := chunks[1..];
      }
      if chunkHead != null && chunkHead == userBuffer {
        OnlyUserBuffer();
        EmptyBuffer();
      }
    }

    method EmptyBuffer()
      requires Valid() && chunkHead != null && chunks == [chunkHead] && blocks == []
      modifies chunkHead
      ensures Valid() && SumSize(chunks) == 0
    {
      assert SoundChunk(chunks[0]);
      chunkHead.size := 0;
    }

    /** When the newest chunk is the user's buffer it is the only one. */
    lemma OnlyUserBuffer()
      requires Valid() && chunkHead != null && chunkHead == userBuffer
      ensures chunks == [userBuffer]
    {
      var n := |chunks| - 1;
      if n > 0 {
        assert false;
      }
    }
  }

  lemma {:induction false} UsedWithinCapacity(chunks: seq<Chunk>)
    requires forall i | 0 <= i < |chunks| :: SoundChunk(chunks[i])
    ensures SumSize(chunks) <= SumCapacity(chunks)
  {
    if chunks != [] {
      assert SoundChunk(chunks[0]);
      forall i | 0 <= i < |chunks| - 1 ensures SoundChunk(chunks[1..][i]) {
        assert chunks[1..][i] == chunks[i + 1];
      }
      UsedWithinCapacity(chunks[1..]);
    }
  }

  /** `size` bytes at `q` are those that were at `p`, and no other byte has changed. */
  ghost predicate Copied(was: nat -> Byte, now: nat -> Byte, p: nat, q: nat, size: nat) {
    && (forall a: nat | q <= a < q + size :: now(a) == was(p + (a - q)))
    && (forall a: nat | !(q <= a < q + size) :: now(a) == was(a))
  }

  /** No byte of the block has changed. */
  ghost predicate Untouched(was: nat -> Byte, now: nat -> Byte, b: Block) {
    forall a: nat | Address(b) <= a < Address(b) + b.size :: now(a) == was(a)
  }
}

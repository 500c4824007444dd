/** The bump allocator sbrk(), and the profiler's allocator that cuts records out of slabs it takes
    from there. Addresses are 32-bit. */
module Heap {
  import opened Arithmetic
  import opened Bits
  import opened Common

  /** (caddr_t) -1. */
  const NO_MEMORY := 0xFFFF_FFFF
  const SLAB := 1020

  datatype Block = Block(addr: nat, size: nat)

  predicate Apart(a: Block, b: Block) {
    a.addr + a.size <= b.addr || b.addr + b.size <= a.addr
  }

  /** Rounding up to a word boundary. */
  function Aligned(a: nat): nat {
    (a + 3) / 4 * 4
  }

  lemma AlignedBounds(a: nat)
    ensures a <= Aligned(a) < a + 4 && Aligned(a) % 4 == 0
  {
  }

  lemma AlignedBelow(a: nat, b: nat)
    requires a <= Aligned(b)
    ensures Aligned(a) <= Aligned(b)
  {
  }

  /** Whether sbrk() grants a request: the sum is taken in 32 bits. */
  predicate Grants(heapEnd: nat, limit: nat, incr: int) {
    (Aligned(heapEnd) + incr) % WRAP <= limit
  }

  /** A request is granted exactly if the new end is an address up to the limit, or the sum wraps, above the
      last address or below the first, to one that is; so for limits below 2^31 exactly if it is one itself. */
  lemma GrantedIff(heapEnd: nat, limit: nat, incr: int)
    requires heapEnd <= Aligned(limit) && limit + 8 <= WRAP && -0x8000_0000 <= incr < 0x8000_0000
    ensures Grants(heapEnd, limit, incr) <==>
      || 0 <= Aligned(heapEnd) + incr <= limit
      || WRAP <= Aligned(heapEnd) + incr <= WRAP + limit
      || Aligned(heapEnd) + incr <= limit - WRAP
    ensures limit < 0x8000_0000 ==> (Grants(heapEnd, limit, incr) <==> 0 <= Aligned(heapEnd) + incr <= limit)
  {
    AlignedBelow(heapEnd, limit);
    AlignedBounds(limit);
    var sum := Wrapped(Aligned(heapEnd), incr);
  }

  /** An address moved by a signed number of bytes, as a 32-bit pointer. */
  function Wrapped(a: nat, b: int): (c: nat)
    ensures 0 <= a + b < WRAP ==> c == a + b
    ensures WRAP <= a + b < 2 * WRAP ==> c == a + b - WRAP
    ensures 0 <= a + b + WRAP < WRAP ==> c == a + b + WRAP
  {
    (a + b) % WRAP
  }

  /** The blocks that end by `end`, in order. */
  function Below(blocks: seq<Block>, end: nat): seq<Block> {
    if blocks == [] then []
    else (if blocks[0].addr + blocks[0].size <= end then [blocks[0]] else []) + Below(blocks[1..], end)
  }

  lemma {:induction false} BelowMembers(blocks: seq<Block>, end: nat, b: Block)
    ensures b in Below(blocks, end) <==> b in blocks && b.addr + b.size <= end
    decreases |blocks|
  {
    if blocks != [] {
      BelowMembers(blocks[1..], end, b);
      assert b in blocks <==> b == blocks[0] || b in blocks[1..];
    }
  }

  /** They stay inside, and apart from each other and from any block that was clear of all. */
  lemma {:induction false} BelowIsSound(blocks: seq<Block>, start: nat, was: nat, end: nat, limit: nat)
    requires Sound(blocks, start, was, limit)
    ensures Sound(Below(blocks, end), start, end, limit)
    decreases |blocks|
  {
    if blocks != [] {
      var b, rest := blocks[0], Below(blocks[1..], end);
      SoundRest(blocks, start, was, limit);
      BelowIsSound(blocks[1..], start, was, end, limit);
      forall k | 0 <= k < |rest| ensures Apart(b, rest[k]) {
        BelowMembers(blocks[1..], end, rest[k]);
        var j :| 0 <= j < |blocks[1..]| && blocks[1..][j] == rest[k];
        assert blocks[j + 1] == rest[k];
      }
    }
  }

  lemma SoundRest(blocks: seq<Block>, start: nat, end: nat, limit: nat)
    requires blocks != [] && Sound(blocks, start, end, limit)
    ensures Sound(blocks[1..], start, end, limit)
  {
  }

  lemma BelowIsClear(blocks: seq<Block>, end: nat, b: Block)
    requires Clear(blocks, b)
    ensures Clear(Below(blocks, end), b)
  {
    var rest := Below(blocks, end);
    forall k | 0 <= k < |rest| ensures Apart(rest[k], b) {
      BelowMembers(blocks, end, rest[k]);
      var j :| 0 <= j < |blocks| && blocks[j] == rest[k];
    }
  }

  /** A request that is granted without room. */
  lemma GrantedWithoutRoom()
    ensures Grants(0xC000_0000, 0xF000_0000, 0x7FFF_FFFF) && 0xC000_0000 + 0x7FFF_FFFF > 0xF000_0000
  {
    GrantedIff(0xC000_0000, 0xF000_0000, 0x7FFF_FFFF);
  }

  /** The blocks handed out are word aligned, inside the heap, and apart from each other. */
  ghost predicate Sound(blocks: seq<Block>, start: nat, end: nat, limit: nat) {
    && (forall k :: 0 <= k < |blocks| ==> Inside(blocks[k], start, end, limit))
    && (forall j, k :: 0 <= j < k < |blocks| ==> Apart(blocks[j], blocks[k]))
  }

  predicate Inside(b: Block, start: nat, end: nat, limit: nat) {
    b.addr % 4 == 0 && start <= b.addr && b.addr + b.size <= end && b.addr + b.size <= limit
  }

  ghost predicate Clear(blocks: seq<Block>, b: Block) {
    forall k :: 0 <= k < |blocks| ==> Apart(blocks[k], b)
  }

  class Allocator {
    const start: nat
    const limit: nat
    var heapEnd: nat
    var slabPtr: nat
    var slabSize: nat
    /** Every block and record handed out so far. */
    ghost var blocks: seq<Block>

    ghost predicate Valid()
      reads this
    {
      && limit + 8 <= WRAP
      && start <= heapEnd <= Aligned(limit)
      && Sound(blocks, start, heapEnd, limit)
      && slabSize % 4 == 0
      && (slabSize > 0 ==> Inside(Slab(), start, heapEnd, limit) && Clear(blocks, Slab()))
    }

    ghost function Slab(): Block
      reads this
    {
      Block(slabPtr, slabSize)
    }

    constructor (start: nat, limit: nat)
      requires start <= limit && limit + 8 <= WRAP
      ensures Valid() && blocks == [] && this.start == start && this.limit == limit
    {
      this.start, this.limit := start, limit;
      heapEnd, slabPtr, slabSize, blocks := start, 0, 0, [];
    }

    /** There is room for `incr` more bytes. */
    predicate Room(incr: int)
      reads this
    {
      incr >= 0 && Aligned(heapEnd) + incr <= limit
    }

    /** The test of sbrk(), which compares 32-bit pointers. */
    predicate Granted(incr: int)
      reads this
    {
      Grants(heapEnd, limit, incr)
    }

    /** Rounds the end of the heap up to a word boundary. */
    method Align()
      requires Valid()
      modifies this`heapEnd
      ensures Valid() && heapEnd == Aligned(old(heapEnd)) && old(heapEnd) <= heapEnd && heapEnd % 4 == 0
    {
      AlignedBounds(heapEnd);
      AlignedBounds(limit);
      AlignedBelow(heapEnd, limit);
      RoundDown(heapEnd + 3);
      heapEnd := And(heapEnd + 3, 0xFFFF_FFFC);
    }

    /** sbrk(). The end of the heap is rounded up even if the request fails. If the sum wraps to an address
        that passes the test, the request is granted without room, and the end of the heap moves back. */
    method Move(incr: int) returns (prev: nat)
      requires Valid() && -0x8000_0000 <= incr < 0x8000_0000
      modifies this`heapEnd
      ensures prev == NO_MEMORY <==> !old(Granted(incr))
      ensures old(Granted(incr)) ==> prev == Aligned(old(heapEnd)) && heapEnd == Wrapped(prev, incr) && heapEnd <= limit
      ensures !old(Granted(incr)) ==> Valid() && heapEnd == Aligned(old(heapEnd))
      ensures old(Room(incr)) ==> Valid() && old(heapEnd) <= heapEnd && heapEnd == prev + incr
      ensures old(Room(incr)) ==>
        && Inside(Block(prev, incr), start, heapEnd, limit)
        && Clear(blocks, Block(prev, incr)) && (slabSize > 0 ==> Apart(Slab(), Block(prev, incr)))
      ensures incr >= 0 && old(Granted(incr)) && !old(Room(incr)) ==> heapEnd < prev && limit < prev + incr
    {
      GrantedIff(heapEnd, limit, incr);
      Align();
      var end := Wrapped(heapEnd, incr);
      if end > limit {
        return NO_MEMORY;
      }
      prev := heapEnd;
      heapEnd := end;
    }

    /** A request of the application. One that asks for memory gets a new block exactly if there is room, and
        -1 exactly if it is not granted, which is the same unless the sum wraps. One that gives memory back
        cuts off the blocks beyond the new end; as there is no test for the lower end of the heap, nor for
        the slab, all is well exactly if both are left standing. */
    method Sbrk(incr: int) returns (prev: nat)
      requires Valid() && -0x8000_0000 <= incr < 0x8000_0000
      modifies this`heapEnd, this`blocks
      ensures prev == NO_MEMORY <==> !old(Granted(incr))
      ensures old(Room(incr)) ==> Valid() && blocks == old(blocks) + [Block(prev, incr)]
      ensures !old(Granted(incr)) ==> Valid() && blocks == old(blocks)
      ensures incr >= 0 && old(Granted(incr)) && !old(Room(incr)) ==> heapEnd < prev && limit < prev + incr
      ensures incr < 0 && old(Granted(incr)) ==>
        && prev == Aligned(old(heapEnd)) && heapEnd == Wrapped(prev, incr) && blocks == Below(old(blocks), heapEnd)
        && (Valid() <==> start <= heapEnd && (slabSize > 0 ==> slabPtr + slabSize <= heapEnd))
    {
      ghost var room, was := Room(incr), heapEnd;
      prev := Move(incr);
      if room {
        blocks := blocks + [Block(prev, incr)];
      } else if incr < 0 && prev != NO_MEMORY {
        GiveBack(was);
      }
    }

    /** Cuts off the blocks beyond the end of the heap. */
    ghost method GiveBack(was: nat)
      requires Sound(blocks, start, was, limit) && limit + 8 <= WRAP && heapEnd <= limit && slabSize % 4 == 0
      requires slabSize > 0 ==> Inside(Slab(), start, was, limit) && Clear(blocks, Slab())
      modifies this`blocks
      ensures blocks == Below(old(blocks), heapEnd)
      ensures Valid() <==> start <= heapEnd && (slabSize > 0 ==> slabPtr + slabSize <= heapEnd)
    {
      BelowIsSound(blocks, start, was, heapEnd, limit);
      if slabSize > 0 {
        BelowIsClear(blocks, heapEnd, Slab());
      }
      AlignedBounds(limit);
      blocks := Below(blocks, heapEnd);
    }

    /** A record can be had from the slab, or from a new one. */
    predicate CanAllocate(size: nat)
      reads this
    {
      size <= slabSize || Room(SLAB)
    }

    /** The first half of mcount_allocate(). */
    method Refill(size: nat)
      requires (Valid() || size <= slabSize) && 0 < size <= SLAB
      modifies this`heapEnd, this`slabPtr, this`slabSize
      ensures slabSize == if size <= old(slabSize) then old(slabSize) else SLAB
      ensures size <= old(slabSize) ==> heapEnd == old(heapEnd) && slabPtr == old(slabPtr)
      ensures old(Valid() && CanAllocate(size)) ==> Valid()
      ensures !old(CanAllocate(size)) ==> slabPtr == NO_MEMORY || heapEnd < slabPtr
    {
      if size > slabSize {
        slabPtr := Move(SLAB);
        slabSize := SLAB;
      }
    }

    /** mcount_allocate(): a record is a new block like any other exactly if the slab has room for it
        or sbrk() for another slab. The result of sbrk() is not tested: otherwise the record handed out
        is at address -1, or beyond an end of the heap that has moved back, and later ones are cut from
        behind it. */
    method Allocate(size: nat) returns (data: nat)
      requires (Valid() || size <= slabSize) && 0 < size <= SLAB && size % 4 == 0
      modifies this
      ensures slabSize == (if size <= old(slabSize) then old(slabSize) else SLAB) - size
      ensures size <= old(slabSize) ==> data == old(slabPtr) && heapEnd == old(heapEnd)
      ensures blocks == old(blocks) || blocks == old(blocks) + [Block(data, size)]
      ensures old(Valid() && CanAllocate(size)) ==> Valid() && blocks == old(blocks) + [Block(data, size)]
      ensures !old(Valid()) ==> blocks == old(blocks)
      ensures !old(CanAllocate(size)) ==> (data == NO_MEMORY || heapEnd < data) && blocks == old(blocks)
    {
      Refill(size);
      data := Cut(size);
    }

    /** The second half: a record off the front of the slab. */
    method Cut(size: nat) returns (data: nat)
      requires 0 < size <= slabSize && size % 4 == 0
      modifies this`slabPtr, this`slabSize, this`blocks
      ensures data == old(slabPtr) && slabSize == old(slabSize) - size
      ensures blocks == if old(Valid()) then old(blocks) + [Block(data, size)] else old(blocks)
      ensures old(Valid()) ==> Valid()
    {
      data := slabPtr;
      if Valid() {
        SplitBlock(blocks, Slab(), size, start, heapEnd, limit);
        blocks := blocks + [Block(data, size)];
      }
      slabPtr := Wrapped(slabPtr, size);
      slabSize := slabSize - size;
    }
  }

  /** Cutting a record off the front of a block. */
  lemma SplitBlock(blocks: seq<Block>, b: Block, size: nat, start: nat, end: nat, limit: nat)
    requires Sound(blocks, start, end, limit) && Inside(b, start, end, limit) && Clear(blocks, b)
    requires 0 < size <= b.size && size % 4 == 0
    ensures var cut, rest := Block(b.addr, size), Block(b.addr + size, b.size - size);
      && Sound(blocks + [cut], start, end, limit)
      && Inside(rest, start, end, limit) && Clear(blocks + [cut], rest)
  {
    var cut, rest := Block(b.addr, size), Block(b.addr + size, b.size - size);
    var more := blocks + [cut];
    forall k | 0 <= k < |more|
      ensures Inside(more[k], start, end, limit) && Apart(more[k], rest)
    {
      assert k < |blocks| ==> more[k] == blocks[k] && Apart(blocks[k], b);
    }
    forall j, k | 0 <= j < k < |more|
      ensures Apart(more[j], more[k])
    {
      assert Apart(blocks[j], b);
    }
  }
}

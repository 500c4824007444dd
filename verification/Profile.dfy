/** The call graph of the profiler: lists of functions, each with the list of its callers, grown by
    __mcount_record() with records from the slab allocator. */
module Profile {
  import opened Common
  import opened Heap

  /** The size of both kinds of record: three words. */
  const RECORD := 12

  datatype Arc = Arc(addr: nat, fromPc: nat, count: nat)

  datatype Entry = Entry(addr: nat, selfPc: nat, arcs: seq<Arc>)

  /** The lists are newest first, as following the links from their heads gives them. */
  function WithArc(list: seq<Entry>, at: nat, arc: Arc): seq<Entry>
    requires at < |list|
  {
    list[at := list[at].(arcs := [arc] + list[at].arcs)]
  }

  function Arcs(list: seq<Entry>): nat {
    if list == [] then 0 else |list[0].arcs| + Arcs(list[1..])
  }

  /** Where each record of a list is. */
  function Records(list: seq<Entry>): multiset<Block> {
    if list == [] then multiset{}
    else multiset{Block(list[0].addr, RECORD)} + ArcRecords(list[0].arcs) + Records(list[1..])
  }

  function ArcRecords(arcs: seq<Arc>): multiset<Block> {
    if arcs == [] then multiset{} else multiset{Block(arcs[0].addr, RECORD)} + ArcRecords(arcs[1..])
  }

  lemma {:induction false} WithArcAdds(list: seq<Entry>, at: nat, arc: Arc)
    requires at < |list|
    ensures Arcs(WithArc(list, at, arc)) == Arcs(list) + 1
    ensures Records(WithArc(list, at, arc)) == Records(list) + multiset{Block(arc.addr, RECORD)}
    decreases at
  {
    if at > 0 {
      WithArcAdds(list[1..], at - 1, arc);
      assert WithArc(list, at, arc)[1..] == WithArc(list[1..], at - 1, arc);
    } else {
      assert ([arc] + list[0].arcs)[1..] == list[0].arcs;
      assert WithArc(list, 0, arc)[1..] == list[1..];
    }
  }

  lemma NewEntryAdds(list: seq<Entry>, addr: nat, selfPc: nat, arc: Arc)
    ensures var more := [Entry(addr, selfPc, [arc])] + list;
      && Arcs(more) == Arcs(list) + 1
      && Records(more) == Records(list) + multiset{Block(addr, RECORD), Block(arc.addr, RECORD)}
  {
    var more := [Entry(addr, selfPc, [arc])] + list;
    assert more[1..] == list;
    assert [arc][1..] == [];
    assert ArcRecords([arc]) == multiset{Block(arc.addr, RECORD)};
  }

  /** A list that has grown by one arc, of count 1, in front of a function's others, and by nothing
      else: in a known function, or in a new one at the head. */
  predicate Grown(was: seq<Entry>, list: seq<Entry>, selfPc: nat, fromPc: nat, entry: Option<nat>)
    requires entry.Some? ==> entry.value < |was|
  {
    match entry
    case None =>
      |list| == 1 + |was| && list[1..] == was && list[0].selfPc == selfPc
      && |list[0].arcs| == 1 && list[0].arcs[0].fromPc == fromPc && list[0].arcs[0].count == 1
    case Some(at) =>
      |list| == |was| && (forall k :: 0 <= k < |list| && k != at ==> list[k] == was[k])
      && list[at].selfPc == was[at].selfPc && list[at].addr == was[at].addr
      && |list[at].arcs| == 1 + |was[at].arcs| && list[at].arcs[1..] == was[at].arcs
      && list[at].arcs[0].fromPc == fromPc && list[at].arcs[0].count == 1
  }

  /** The records a list has gained are these blocks. */
  predicate Gained(was: seq<Entry>, list: seq<Entry>, blocks: multiset<Block>) {
    Arcs(list) == Arcs(was) + 1 && Records(list) == Records(was) + blocks
  }

  class Graph {
    const heap: Allocator
    /** One of the 64 lists of functions; the others are not touched by a record for this one. */
    var list: seq<Entry>

    constructor (heap: Allocator)
      ensures this.heap == heap && list == []
    {
      this.heap := heap;
      list := [];
    }

    method AddFunction(selfPc: nat, fromPc: nat)
      requires heap.Valid()
      modifies this, heap
      ensures old(heap.blocks) <= heap.blocks
      ensures if old(heap.CanAllocate(2 * RECORD))
        then heap.Valid() && Gained(old(list), list, multiset(heap.blocks[|old(heap.blocks)|..]))
        else |heap.blocks| < |old(heap.blocks)| + 2
      ensures Grown(old(list), list, selfPc, fromPc, None)
    {
      ghost var before := heap.blocks;
      var addr := heap.Allocate(RECORD);
      var arcAddr := heap.Allocate(RECORD);
      NewEntryAdds(list, addr, selfPc, Arc(arcAddr, fromPc, 1));
      list := [Entry(addr, selfPc, [Arc(arcAddr, fromPc, 1)])] + list;
      assert |heap.blocks| == |before| + 2 ==> heap.blocks[|before|..] == [Block(addr, RECORD), Block(arcAddr, RECORD)];
    }

    method AddCaller(selfPc: nat, fromPc: nat, at: nat)
      requires heap.Valid() && at < |list|
      modifies this, heap
      ensures old(heap.blocks) <= heap.blocks
      ensures if old(heap.CanAllocate(RECORD))
        then heap.Valid() && Gained(old(list), list, multiset(heap.blocks[|old(heap.blocks)|..]))
        else heap.blocks == old(heap.blocks)
      ensures Grown(old(list), list, selfPc, fromPc, Some(at))
    {
      ghost var before := heap.blocks;
      var arcAddr := heap.Allocate(RECORD);
      WithArcAdds(list, at, Arc(arcAddr, fromPc, 1));
      list := WithArc(list, at, Arc(arcAddr, fromPc, 1));
      assert heap.blocks != before ==> heap.blocks[|before|..] == [Block(arcAddr, RECORD)];
    }

    /** __mcount_record(), for a known function or (None) a new one: exactly one arc is added, and every
        earlier entry and arc stays. Each of its one or two new records is a new block of the heap exactly
        if there is memory for them; it does not test for that. */
    method Record(selfPc: nat, fromPc: nat, entry: Option<nat>)
      requires heap.Valid() && (entry.Some? ==> entry.value < |list|)
      modifies this, heap
      ensures old(heap.blocks) <= heap.blocks
      ensures var records := if entry.None? then 2 else 1;
        if old(heap.CanAllocate(records * RECORD))
        then heap.Valid() && Gained(old(list), list, multiset(heap.blocks[|old(heap.blocks)|..]))
        else |heap.blocks| < |old(heap.blocks)| + records
      ensures Grown(old(list), list, selfPc, fromPc, entry)
    {
      if entry.None? {
        AddFunction(selfPc, fromPc);
      } else {
        AddCaller(selfPc, fromPc, entry.value);
      }
    }
  }
}

/** include/utility/list.h: Grouping_List; include/utility/heap.h: Heap_Base over it. */
module Heaps {
  import opened Sequences
  import opened Lists
  import opened HeapMachine

  function BlockOf(e: Element<int>): Block
    reads e
  {
    Block(e.obj, e.size)
  }

  class GroupingList {
    const base: List<int>
    var groupedSize: int
    ghost var free: seq<Block>  // the blocks of base.nodes, in order

    constructor ()
      ensures Valid() && free == [] && fresh(base) && base.nodes == []
    {
      base := new List<int>();
      groupedSize := 0;
      free := [];
    }

    ghost predicate Tied()
      reads this`free, base, base.nodes
    {
      && base.Valid()
      && |free| == |base.nodes|
      && forall i :: 0 <= i < |free| ==> free[i] == BlockOf(base.nodes[i])
    }

    ghost predicate Valid()
      reads this, base, base.nodes
    {
      Tied() && groupedSize == Sizes(free)
    }

    /** The first block that fits, or null. */
    method SearchSize(s: int) returns (e: Element?<int>, ghost i: nat)
      requires Tied() && 0 <= s < LIMIT
      ensures Tied() && i == FirstFit(free, s)
      ensures if i < |free| then e == base.nodes[i] else e == null
    {
      e := base.head;
      i := 0;
      while e != null && e.size < (HEADER + s) % LIMIT && e.size != s
        invariant 0 <= i <= |free|
        invariant if i < |free| then e == base.nodes[i] else e == null
        invariant i <= FirstFit(free, s) && FirstFit(free, s) == i + FirstFit(free[i..], s)
        decreases |free| - i
      {
        base.Links(i);
        assert free[i..][1..] == free[i + 1..];
        e := e.next;
        i := i + 1;
      }
    }

    /** The block that ends at an address, or null. */
    method SearchLeft(a: int) returns (e: Element?<int>, ghost i: nat)
      requires Tied()
      ensures Tied() && i == EndingAt(free, a)
      ensures if i < |free| then e == base.nodes[i] else e == null
    {
      e := base.head;
      i := 0;
      while e != null && e.obj + e.size != a
        invariant 0 <= i <= |free|
        invariant if i < |free| then e == base.nodes[i] else e == null
        invariant i <= EndingAt(free, a) && EndingAt(free, a) == i + EndingAt(free[i..], a)
        decreases |free| - i
      {
        base.Links(i);
        assert free[i..][1..] == free[i + 1..];
        e := e.next;
        i := i + 1;
      }
    }

    /** Search, told which block it found. */
    method SearchRight(a: int) returns (e: Element?<int>, ghost i: nat)
      requires Tied() && Scattered(free)
      ensures Tied() && i == StartingAt(free, a)
      ensures if i < |free| then e == base.nodes[i] else e == null
    {
      i := StartingAt(free, a);
      assert i < |free| ==> base.nodes[i] in base.nodes && base.nodes[i].obj == a;
      e := base.Search(a);
      if e != null {
        OneStart(free, Index(base.nodes, e), a);
      }
    }

    /** A new size for e, which is at position i or not in the list. */
    method Resize(e: Element<int>, size: nat, ghost i: nat)
      requires Tied() && if i < |free| then e == base.nodes[i] else e !in base.nodes
      modifies this`free, e`size
      ensures Tied() && e.size == size
      ensures free == if i < |old(free)| then old(free)[i := Block(e.obj, size)] else old(free)
    {
      if i < |free| {
        base.Links(i);
      }
      e.size := size;
      if i < |free| {
        free := free[i := Block(e.obj, size)];
      }
    }

    method Drop(e: Element<int>, ghost i: nat)
      requires Tied() && i < |free| && e == base.nodes[i]
      modifies this`free, base, base.nodes`prev, base.nodes`next
      ensures Tied() && free == Without(old(free), i) && base.nodes == Without(old(base.nodes), i)
    {
      base.Links(i);
      ghost var nodes := base.nodes;
      var k := base.Remove(e);
      WithoutAt(nodes, i);
      WithoutAt(free, i);
      hide Without, List.Valid;
      free := Without(free, i);
    }

    method Push(e: Element<int>)
      requires Tied() && e !in base.nodes
      modifies this`free, base, base.nodes`next, e`prev, e`next
      ensures Tied() && free == old(free) + [BlockOf(e)] && base.nodes == old(base.nodes) + [e]
    {
      hide List.Valid;
      base.InsertTail(e);
      free := free + [BlockOf(e)];
    }

    /** e grows by r, which leaves the list. */
    method Absorb(e: Element<int>, r: Element<int>, ghost ri: nat, ghost at: nat)
      requires Tied() && ri < |free| && r == base.nodes[ri] && ri != at
      requires if at < |free| then e == base.nodes[at] else e !in base.nodes
      modifies this`free, base, base.nodes`prev, base.nodes`next, e`size
      ensures Tied() && e.size == old(e.size) + old(r.size) && base.nodes == Without(old(base.nodes), ri)
      ensures var f := old(free);
        free == Without(if at < |f| then f[at := Block(e.obj, e.size)] else f, ri)
    {
      hide List.Valid, Without;
      Resize(e, e.size + r.size, at);
      Drop(r, ri);
    }

    /** e has no left neighbour: it goes to the tail and absorbs its right neighbour there. */
    method MergeAtTail(e: Element<int>, r: Element?<int>, ghost ri: nat)
      requires Tied() && e !in base.nodes && ri <= |free| && (if ri < |free| then r == base.nodes[ri] else r == null)
      modifies this`free, base, base.nodes`prev, base.nodes`next, base.nodes`size, e`prev, e`next, e`size
      ensures Tied() && free == MergeWith(old(free), old(BlockOf(e)), |old(free)|, ri)
      ensures forall n :: n in base.nodes ==> n in old(base.nodes) || n == e
    {
      hide List.Valid, Without;
      ghost var f, nodes := free, base.nodes;
      Push(e);
      if r != null {
        Absorb(e, r, ri, |f|);
        assert (f + [old(BlockOf(e))])[|f| := Block(e.obj, e.size)] == f + [Block(e.obj, e.size)];
        WithoutMembers(nodes + [e], ri);
      }
    }

    /** e's left neighbour absorbs e, with e's right neighbour in it. */
    method MergeLeft(e: Element<int>, l: Element<int>, r: Element?<int>, ghost li: nat, ghost ri: nat)
      requires Tied() && e !in base.nodes && li < |free| && l == base.nodes[li] && li != ri
      requires ri <= |free| && (if ri < |free| then r == base.nodes[ri] else r == null)
      modifies this`free, base, base.nodes`prev, base.nodes`next, base.nodes`size, e`prev, e`next, e`size
      ensures Tied() && free == MergeWith(old(free), old(BlockOf(e)), li, ri)
      ensures forall n :: n in base.nodes ==> n in old(base.nodes) || n == e
    {
      ghost var f, nodes, b := free, base.nodes, BlockOf(e);
      MergeLeftIs(f, b, li, ri);
      hide List.Valid, Without, MergeWith;
      if r != null {
        WithoutAt(f, ri);
        WithoutAt(nodes, ri);
        WithoutMembers(nodes, ri);
        Absorb(e, r, ri, |f|);
      }
      Resize(l, l.size + e.size, if ri < li then li - 1 else li);
    }

    /** Link e up with the neighbours found, null where there is none. */
    method Link(e: Element<int>, l: Element?<int>, r: Element?<int>, ghost li: nat, ghost ri: nat)
      requires Tied() && e !in base.nodes && li <= |free| && ri <= |free| && (li == ri ==> li == |free|)
      requires if li < |free| then l == base.nodes[li] else l == null
      requires if ri < |free| then r == base.nodes[ri] else r == null
      modifies this`free, base, base.nodes`prev, base.nodes`next, base.nodes`size, e`prev, e`next, e`size
      ensures Tied() && free == MergeWith(old(free), old(BlockOf(e)), li, ri)
      ensures forall n :: n in base.nodes ==> n in old(base.nodes) || n == e
    {
      assert l == null <==> li == |free|;
      hide *;
      if l == null {
        MergeAtTail(e, r, ri);
      } else {
        MergeLeft(e, l, r, li, ri);
      }
    }

    /** The free neighbours of a block, null where there is none. */
    method Neighbours(start: int, size: int)
      returns (l: Element?<int>, r: Element?<int>, ghost li: nat, ghost ri: nat)
      requires Tied() && Scattered(free)
      ensures Tied() && li == EndingAt(free, start) && ri == StartingAt(free, start + size)
      ensures if li < |free| then l == base.nodes[li] else l == null
      ensures if ri < |free| then r == base.nodes[ri] else r == null
    {
      hide *;
      r, ri := SearchRight(start + size);
      l, li := SearchLeft(start);
    }

    method Join(e: Element<int>)
      requires Tied() && e !in base.nodes && Fitting(free, BlockOf(e))
      modifies this`free, base, base.nodes`prev, base.nodes`next, base.nodes`size, e`prev, e`next, e`size
      ensures Tied() && free == Merge(old(free), old(BlockOf(e)))
      ensures forall n :: n in base.nodes ==> n in old(base.nodes) || n == e
    {
      MergePlan(free, BlockOf(e));
      hide Tied, List.Valid, Merge, MergeWith, Fitting, StartingAt, EndingAt, Scattered;
      var l, r, li, ri := Neighbours(e.obj, e.size);
      Link(e, l, r, li, ri);
    }

    /** Put a block into the list, merged with the neighbours it touches. */
    method InsertMerging(e: Element<int>)
      requires Valid() && e !in base.nodes && Fitting(free, BlockOf(e))
      modifies this, base, base.nodes`prev, base.nodes`next, base.nodes`size, e`prev, e`next, e`size
      ensures Valid() && free == Merge(old(free), old(BlockOf(e)))
      ensures groupedSize == old(groupedSize) + old(e.size) < LIMIT
      ensures forall n :: n in base.nodes ==> n in old(base.nodes) || n == e
    {
      MergePlan(free, BlockOf(e));
      hide Tied, List.Valid, Merge, Fitting, Sizes, Scattered;
      groupedSize := groupedSize + e.size;
      Join(e);
    }

    /** A new element for the block. The source builds it in the first words of the block, where `HeaderWritesSpare`
        keeps it off everything live. */
    method InsertBlock(start: int, size: nat)
      requires Valid() && Fitting(free, Block(start, size))
      modifies this, base, base.nodes`prev, base.nodes`next, base.nodes`size
      ensures Valid() && free == Merge(old(free), Block(start, size))
    {
      hide List.Valid, Merge, Fitting, Sizes;
      var e := new Element<int>(start, 0);
      e.size := size;
      InsertMerging(e);
    }

    /** The last s units of e go, in unsigned long arithmetic, and e with them if nothing is left. */
    method Shrink(e: Element<int>, s: int, ghost i: nat)
      requires Tied() && i < |free| && e == base.nodes[i] && e.size < LIMIT && 0 <= s < LIMIT
      modifies this`free, base, base.nodes`prev, base.nodes`next, base.nodes`size
      ensures Tied() && free == Take(old(free), i, s) && (e.obj + e.size) % LIMIT == Taken(old(free), i, s).start
      ensures forall n :: n in base.nodes ==> n in old(base.nodes)
    {
      ghost var f := free;
      WithoutMembers(base.nodes, i);
      UpdatedOut(f, i, Block(e.obj, 0));
      LeftIs(e.size, s);
      TakenStart(f, i, s);
      hide List.Valid, Without, Left, Taken;
      Resize(e, Left(e.size, s), i);
      if e.size == 0 {
        Drop(e, i);
      }
    }

    /** Take the end of the first block that fits, and drop the block if nothing is left of it. A request that is not
        servable makes the size left, and the grouped size, wrap. */
    method SearchDecrementing(s: int) returns (e: Element?<int>, ghost i: nat)
      requires Valid() && Scattered(free) && HEADER <= s < LIMIT
      modifies this, base, base.nodes`prev, base.nodes`next, base.nodes`size
      ensures Tied() && i == FirstFit(old(free), s)
      ensures groupedSize == if i < |old(free)| then (old(groupedSize) - s) % LIMIT else old(groupedSize)
      ensures i == |old(free)| ==> e == null && free == old(free) && base.nodes == old(base.nodes)
      ensures i < |old(free)| ==>
        && e != null && (e.obj + e.size) % LIMIT == Taken(old(free), i, s).start
        && free == Take(old(free), i, s)
      ensures Servable(old(free), s) ==> Valid()
      ensures forall n :: n in base.nodes ==> n in old(base.nodes)
    {
      e, i := SearchSize(s);
      if e != null {
        TakenSizes(free, i, s);
        assert free[i] == BlockOf(e);
        hide List.Valid, Tied, Sizes, Scattered, FirstFit, Take, Taken, Servable;
        groupedSize := (groupedSize - s) % LIMIT;
        Shrink(e, s, i);
      }
    }
  }

  /** The piece taken starts where what is left of the block ends. */
  lemma TakenStart(free: seq<Block>, i: nat, s: int)
    requires i < |free| && 0 <= free[i].size < LIMIT && 0 <= s < LIMIT
    ensures (free[i].start + Left(free[i].size, s)) % LIMIT == Taken(free, i, s).start
  {
    LeftIs(free[i].size, s);
    var x := free[i].End() - s;
    assert (x + LIMIT) % LIMIT == x % LIMIT;
  }

  lemma TakenSizes(free: seq<Block>, i: nat, s: int)
    requires Scattered(free) && i == FirstFit(free, s) < |free| && HEADER <= s < LIMIT
    ensures 0 <= free[i].size < LIMIT
    ensures Servable(free, s) ==> Sizes(Take(free, i, s)) == (Sizes(free) - s) % LIMIT
  {
    assert Sound(free[i]);
    ServableExactly(free, s);
    if Servable(free, s) {
      TakeSizes(free, i, s);
      TakeKeeps(free, i, s);
      SizesBound(Take(free, i, s));
      ModOnce(Sizes(free) - s);
    }
  }

  ghost predicate NoneFits(free: seq<Block>, n: int) {
    forall i :: 0 <= i < |free| ==> !Fits(free[i].size, n)
  }

  /** The words heaps write into the memory they hand out. */
  class Memory {
    var sizes: map<int, int>
    var owners: map<int, Heap>

    constructor ()
      ensures sizes == map[] && owners == map[]
    {
      sizes := map[];
      owners := map[];
    }
  }

  class Heap {
    const list: GroupingList
    const memory: Memory
    const typed: bool
    const unaligned: bool  // the processor takes unaligned accesses
    ghost var state: State

    /** Each live block carries its size and, in a typed heap, its heap in front of the payload. */
    ghost predicate Written(live: set<Block>, sizes: map<int, int>, owners: map<int, Heap>) {
      forall b :: b in live ==>
        && SizeAt(b) in sizes && sizes[SizeAt(b)] == b.size
        && (typed ==> b.start in owners && owners[b.start] == this)
    }

    lemma WrittenStill(live: set<Block>, sizes: map<int, int>, owners: map<int, Heap>)
      requires Written(state.live, sizes, owners) && live <= state.live
      ensures Written(live, sizes, owners)
    {
    }

    lemma WrittenMore(b: Block, sizes: map<int, int>, owners: map<int, Heap>)
      requires Written(state.live, sizes, owners) && ApartFromLive(b)
      ensures Written(state.live + {b}, sizes[SizeAt(b) := b.size], owners[b.start := this])
      ensures !typed ==> Written(state.live + {b}, sizes[SizeAt(b) := b.size], owners)
    {
    }

    function SizeAt(b: Block): int {
      b.start + Prefix(typed) - WORD
    }

    function Payload(b: Block): int {
      b.start + Prefix(typed)
    }

    ghost predicate Consistent()
      reads this, list`free, memory
    {
      list.free == state.free && Inv(state) && Written(state.live, memory.sizes, memory.owners)
    }

    ghost predicate Valid()
      reads this, list, list.base, list.base.nodes, memory
    {
      Consistent() && list.Valid()
    }

    /** A region the heap may be given, or a live block of it. */
    ghost predicate Acceptable(b: Block)
      reads this
    {
      b in state.live || (Sound(b) && Addresses(b) !! state.owned)
    }

    constructor (addr: int, bytes: nat, typed: bool, unaligned: bool, memory: Memory)
      requires addr != 0 && bytes >= HEADER ==> Sound(Block(addr, bytes))
      ensures Valid() && this.typed == typed && this.unaligned == unaligned && this.memory == memory
      ensures fresh(list) && fresh(list.base)
      ensures state == if addr != 0 && bytes >= HEADER then Given(Block(addr, bytes)) else State([], {}, {})
    {
      list := new GroupingList();
      this.typed := typed;
      this.unaligned := unaligned;
      this.memory := memory;
      state := State([], {}, {});
      new;
      Free(addr, bytes);
    }

    /** free(ptr, bytes): regions at address 0 or too small for a header are ignored. */
    method Free(ptr: int, bytes: nat)
      requires Valid() && (ptr != 0 && bytes >= HEADER ==> Acceptable(Block(ptr, bytes)))
      modifies this, list, list.base, list.base.nodes`prev, list.base.nodes`next, list.base.nodes`size
      ensures Valid()
      ensures var b := Block(ptr, bytes); state == if ptr == 0 || bytes < HEADER then old(state)
        else Step(old(state), if b in old(state).live then Release(b) else Donate(b))
    {
      hide Inv, Fitting, Step, Merge, Acceptable, Written, GroupingList.Valid, GroupingList.Tied, List.Valid;
      if ptr != 0 && bytes >= HEADER {
        ghost var b := Block(ptr, bytes);
        ghost var next := Step(state, if b in state.live then Release(b) else Donate(b));
        AcceptableInv(b);
        WrittenStill(next.live, memory.sizes, memory.owners);
        list.InsertBlock(ptr, bytes);
        state := next;
      }
    }

    /** alloc(bytes): the payload of the first block that fits, or 0 if bytes is 0 or no block fits. If the size, grown
        to words, prefix and minimum, is not servable, what is handed out is not the heap's to give. */
    method Alloc(bytes: nat) returns (ptr: int)
      requires Valid() && bytes < LIMIT
      modifies this, list, list.base, list.base.nodes`prev, list.base.nodes`next, list.base.nodes`size, memory
      ensures var n := Gross(bytes, typed, unaligned);
        var i := FirstFit(old(state).free, n);
        && list.Tied() && list.free == state.free
        && (if bytes == 0 || NoneFits(old(state).free, n) then ptr == 0 && state == old(state)
            else i < |old(state).free| && state == Step(old(state), Obtain(n))
                 && ptr == Payload(Taken(old(state).free, i, n)) % LIMIT)
      ensures bytes == 0 || Servable(old(state).free, Gross(bytes, typed, unaligned)) ==>
        Valid() && (ptr == 0 <==> bytes == 0 || NoneFits(old(state).free, Gross(bytes, typed, unaligned)))
      ensures bytes != 0 && !Servable(old(state).free, Gross(bytes, typed, unaligned)) ==> !Inv(state)
    {
      hide Inv, Scattered, Take, Step, Written, FirstFit, Sizes, Servable, Taken, NoneFits;
      hide GroupingList.Valid, GroupingList.Tied, List.Valid;
      if bytes == 0 {
        ListTied();
        return 0;
      }
      var n := GrossSize(bytes);
      ghost var s, i := state, FirstFit(state.free, n);
      ObtainFacts(n);
      var e, _ := list.SearchDecrementing(n);
      if e == null {
        return 0;
      }
      var addr := (e.obj + e.size) % LIMIT;
      PrefixAt(Taken(s.free, i, n));
      if Servable(s.free, n) {
        WrittenMore(Taken(s.free, i, n), memory.sizes, memory.owners);
      }
      if typed {
        memory.owners := memory.owners[addr := this];
        addr := (addr + WORD) % LIMIT;
      }
      memory.sizes := memory.sizes[addr := n];
      ptr := (addr + WORD) % LIMIT;
      state := Step(s, Obtain(n));
    }

    lemma ListTied()
      requires list.Valid()
      ensures list.Tied()
    {
    }

    /** The words in front of the payload, in unsigned long arithmetic. */
    lemma PrefixAt(b: Block)
      requires 0 <= b.start < LIMIT
      ensures !typed ==> SizeAt(b) == b.start && (b.start + WORD) % LIMIT == Payload(b) % LIMIT
      ensures typed ==> ((b.start + WORD) % LIMIT + WORD) % LIMIT == Payload(b) % LIMIT
      ensures typed && Sound(b) ==> (b.start + WORD) % LIMIT == SizeAt(b)
      ensures Sound(b) ==> Payload(b) % LIMIT == Payload(b) > 0
    {
      ModOnce(b.start + WORD);
      ModOnce(Payload(b));
      ModOnce((if b.start + WORD == LIMIT then 0 else b.start + WORD) + WORD);
    }

    /** The size of the block for a request, in unsigned long arithmetic. */
    method GrossSize(bytes: nat) returns (n: int)
      requires bytes < LIMIT
      ensures n == Gross(bytes, typed, unaligned)
    {
      hide RoundUp;
      RoundUpBound(bytes);
      n := bytes;
      if !unaligned {
        n := Rounded(bytes);
      }
      TwoPrefixes(n);
      if typed {
        n := (n + WORD) % LIMIT;
      }
      n := (n + WORD) % LIMIT;
      if n < HEADER {
        n := HEADER;
      }
    }

    lemma TwoPrefixes(n: int)
      ensures ((n + WORD) % LIMIT + WORD) % LIMIT == (n + 2 * WORD) % LIMIT
    {
    }

    method Rounded(bytes: nat) returns (n: int)
      requires bytes < LIMIT
      ensures n == RoundUp(bytes) % LIMIT
    {
      hide RoundUp;
      RoundUpBound(bytes);
      n := bytes;
      while n % WORD != 0
        invariant (bytes <= n <= RoundUp(bytes) && n < LIMIT) || (n == 0 && RoundUp(bytes) == LIMIT)
        decreases if n == 0 then 0 else LIMIT - n
      {
        RoundUpNext(bytes, n);
        n := (n + 1) % LIMIT;
      }
      if n >= bytes {
        RoundUpNext(bytes, n);
      }
    }

    lemma ObtainFacts(n: int)
      requires Inv(state) && HEADER <= n < LIMIT
      ensures Scattered(state.free) && (Inv(Step(state, Obtain(n))) <==> Servable(state.free, n))
      ensures var i := FirstFit(state.free, n);
        && i <= |state.free| && (i == |state.free| <==> NoneFits(state.free, n))
        && (i == |state.free| ==> Servable(state.free, n))
        && (i < |state.free| ==>
              && 0 <= Taken(state.free, i, n).start < LIMIT && Taken(state.free, i, n).size == n
              && Step(state, Obtain(n)).free == Take(state.free, i, n)
              && Step(state, Obtain(n)).live == state.live + {Taken(state.free, i, n)}
              && (Servable(state.free, n) ==> ApartFromLive(Taken(state.free, i, n))))
    {
      ObtainExactly(state, n);
      if FirstFit(state.free, n) == |state.free| {
        NobodyFits(state.free, n);
      }
    }

    /** Apart from every live block. */
    ghost predicate ApartFromLive(b: Block)
      reads this
    {
      Sound(b) && forall c :: c in state.live ==> Disjoint(b, c) && Sound(c)
    }

    lemma AcceptableInv(b: Block)
      requires Inv(state) && Acceptable(b)
      ensures Fitting(state.free, b)
      ensures var next := Step(state, if b in state.live then Release(b) else Donate(b));
        Inv(next) && next.free == Merge(state.free, b) && next.live <= state.live
    {
      if b in state.live {
        ReleaseInv(state, b);
      } else {
        DonateInv(state, b);
        forall i | 0 <= i < |state.free|
          ensures Disjoint(state.free[i], b)
        {
          ApartIfNew(state, state.free[i], b);
        }
      }
    }

    /** untyped_free(heap, ptr): the size in front of the payload tells the block. */
    static method UntypedFree(heap: Heap, ptr: int, ghost b: Block)
      requires heap.Valid() && !heap.typed && b in heap.state.live && ptr == heap.Payload(b)
      modifies heap, heap.list, heap.list.base
      modifies heap.list.base.nodes`prev, heap.list.base.nodes`next, heap.list.base.nodes`size
      ensures heap.Valid() && heap.state == Step(old(heap.state), Release(b))
    {
      heap.LiveFacts(b);
      hide Inv, Step, GroupingList.Valid;
      var addr := ptr - WORD;
      var bytes := heap.memory.sizes[addr];
      heap.Free(addr, bytes);
    }

    /** typed_free(ptr): the words in front of the payload tell the size and the heap. */
    static method TypedFree(memory: Memory, ptr: int, ghost heap: Heap, ghost b: Block)
      requires heap.Valid() && heap.typed && heap.memory == memory
      requires b in heap.state.live && ptr == heap.Payload(b)
      modifies heap, heap.list, heap.list.base
      modifies heap.list.base.nodes`prev, heap.list.base.nodes`next, heap.list.base.nodes`size
      ensures heap.Valid() && heap.state == Step(old(heap.state), Release(b))
    {
      heap.LiveFacts(b);
      hide Inv, Step, GroupingList.Valid;
      var addr := ptr - WORD;
      var bytes := memory.sizes[addr];
      addr := addr - WORD;
      var owner := memory.owners[addr];
      owner.Free(addr, bytes);
    }

    lemma LiveFacts(b: Block)
      requires Valid() && b in state.live
      ensures Sound(b) && b == Block(b.start, b.size)
      ensures SizeAt(b) in memory.sizes && memory.sizes[SizeAt(b)] == b.size
      ensures typed ==> b.start in memory.owners && memory.owners[b.start] == this
    {
    }
  }

  lemma NobodyFits(free: seq<Block>, n: int)
    requires Scattered(free) && HEADER <= n < LIMIT && FirstFit(free, n) == |free|
    ensures Servable(free, n)
  {
    assert free != [] ==> Sound(free[0]);
    ServableExactly(free, n);
  }

  lemma WithoutMembers<T>(s: seq<T>, k: nat)
    requires k <= |s|
    ensures k < |s| ==> forall x :: x in Without(s, k) ==> x in s
  {
  }

  lemma UpdatedOut<T>(s: seq<T>, k: nat, x: T)
    requires k < |s|
    ensures Without(s[k := x], k) == Without(s, k)
  {
  }

  lemma MergePlan(f: seq<Block>, b: Block)
    requires Fitting(f, b)
    ensures var l, r := EndingAt(f, b.start), StartingAt(f, b.End());
      Merge(f, b) == MergeWith(f, b, l, r) && (l == r ==> l == |f|)
    ensures Sizes(Merge(f, b)) == Sizes(f) + b.size && Scattered(f) && b.End() == b.start + b.size
    ensures 0 <= Sizes(Merge(f, b)) < LIMIT
  {
    NeighboursOut(f, b, EndingAt(f, b.start), StartingAt(f, b.End()));
    MergeSizes(f, b);
    MergeKeeps(f, b);
    SizesBound(Merge(f, b));
  }

  lemma DistinctStarts(free: seq<Block>, i: nat, k: nat)
    requires Scattered(free) && i < |free| && k < |free| && i != k
    ensures free[i].start != free[k].start
  {
    assert Disjoint(free[i], free[k]);
  }

  lemma OneStart(free: seq<Block>, k: nat, a: int)
    requires Scattered(free) && k < |free| && free[k].start == a
    ensures StartingAt(free, a) == k
  {
    var i := StartingAt(free, a);
    if i < k {
      DistinctStarts(free, i, k);
    }
  }

  /** Growing the left neighbour and dropping the right one commute. */
  lemma MergeLeftIs(free: seq<Block>, b: Block, l: nat, r: nat)
    requires l < |free| && r <= |free| && l != r
    ensures MergeWith(free, b, l, r) == if r < |free|
      then Without(free, r)[if l < r then l else l - 1 := Block(free[l].start, free[l].size + (b.size + free[r].size))]
      else free[l := Block(free[l].start, free[l].size + b.size)]
  {
  }
}

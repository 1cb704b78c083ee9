/** include/utility/heap.h as a machine on values: free blocks, live blocks and the memory they share. */
module HeapMachine {
  import opened Sequences

  const WORD: nat := 8  // sizeof(void *) and sizeof(long)
  const HEADER: nat := 4 * WORD  // sizeof(Element): object, size, prev and next
  const LIMIT: int := 0x1_0000_0000_0000_0000  // unsigned long wraps here

  datatype Block = Block(start: int, size: int) {
    function End(): int {
      start + size
    }

    predicate Holds(x: int) {
      start <= x < End()
    }
  }

  /** free is in list order; owned is every address ever given to the heap. */
  datatype State = State(free: seq<Block>, live: set<Block>, owned: set<int>)

  // ---------------------------------------------------------------------
  // Sizes
  // ---------------------------------------------------------------------

  /** What a block carries in front of its payload: its size and, in a typed heap, its heap. */
  function Prefix(typed: bool): nat {
    if typed then 2 * WORD else WORD
  }

  function RoundUp(bytes: nat): (r: nat)
    ensures r % WORD == 0 && bytes <= r < bytes + WORD
  {
    (bytes + WORD - 1) / WORD * WORD
  }

  /** The size a request is turned into, in unsigned long arithmetic. */
  function Gross(bytes: nat, typed: bool, unaligned: bool): int
    requires bytes < LIMIT
  {
    var rounded := if unaligned then bytes else RoundUp(bytes) % LIMIT;
    var total := (rounded + Prefix(typed)) % LIMIT;
    if total < HEADER then HEADER else total
  }

  /** The request does not wrap on its way to the block size. */
  predicate Sane(bytes: nat, typed: bool, unaligned: bool) {
    (if unaligned then bytes else RoundUp(bytes)) + Prefix(typed) < LIMIT
  }

  /** The block has room for its prefix and the request exactly when the request does not wrap. */
  lemma GrossSuffices(bytes: nat, typed: bool, unaligned: bool)
    requires bytes < LIMIT
    ensures Gross(bytes, typed, unaligned) >= bytes + Prefix(typed) <==> Sane(bytes, typed, unaligned)
    ensures HEADER <= Gross(bytes, typed, unaligned) < LIMIT
    ensures !unaligned ==> Gross(bytes, typed, unaligned) % WORD == 0
  {
    hide RoundUp;
    RoundUpBound(bytes);
    var r := if unaligned then bytes else RoundUp(bytes);
    ModOnce(r);
    ModOnce((if r == LIMIT then 0 else r) + Prefix(typed));
  }

  /** A block of n bytes that holds an element when free, holds the request behind its own size and, in a typed heap,
      its heap, and keeps words aligned where the processor needs that. */
  predicate Serves(n: int, bytes: nat, typed: bool, unaligned: bool) {
    && n >= 32 && n >= bytes + (if typed then 16 else 8)
    && (unaligned || n % 8 == 0)
  }

  /** A request that does not wrap is turned into the least size that serves it. */
  lemma GrossLeast(bytes: nat, typed: bool, unaligned: bool)
    requires bytes + (if typed then 16 else 8) + (if unaligned then 0 else 7) < LIMIT
    ensures Serves(Gross(bytes, typed, unaligned), bytes, typed, unaligned)
    ensures forall n :: Serves(n, bytes, typed, unaligned) ==> Gross(bytes, typed, unaligned) <= n
  {
    var r := if unaligned then bytes else RoundUp(bytes);
    RoundUpLeast(bytes);
    hide RoundUp;
    ModOnce(r);
    ModOnce(r + Prefix(typed));
    forall n | Serves(n, bytes, typed, unaligned)
      ensures Gross(bytes, typed, unaligned) <= n
    {
      if !unaligned {
        RoundUpBelow(bytes, n - Prefix(typed));
      }
    }
  }

  lemma RoundUpLeast(bytes: nat)
    ensures RoundUp(bytes) % WORD == 0 && bytes <= RoundUp(bytes) <= bytes + 7
  {
  }

  lemma RoundUpBelow(bytes: nat, n: int)
    requires bytes <= n && n % WORD == 0
    ensures RoundUp(bytes) <= n
  {
  }

  /** 8 bytes below the wrap: the request is turned into the smallest block. */
  lemma GrossTooSmall(unaligned: bool)
    ensures Gross(LIMIT - 8, false, unaligned) == HEADER < LIMIT - 8 + Prefix(false)
  {
    assert RoundUp(LIMIT - 8) == LIMIT - 8;
  }

  /** The rounding loop: past a number that is not a multiple the next one follows, or 0 after the last. */
  lemma RoundUpNext(bytes: nat, n: int)
    requires bytes <= n <= RoundUp(bytes) <= LIMIT && n < LIMIT
    ensures n % WORD == 0 <==> n == RoundUp(bytes)
    ensures (n + 1) % LIMIT == if n + 1 == LIMIT then 0 else n + 1
  {
  }

  /** A sum of two words wraps once at most. */
  lemma ModOnce(x: int)
    requires 0 <= x < 2 * LIMIT
    ensures x % LIMIT == if x < LIMIT then x else x - LIMIT
  {
  }

  lemma RoundUpBound(bytes: nat)
    requires bytes < LIMIT
    ensures RoundUp(bytes) % WORD == 0 && bytes <= RoundUp(bytes) <= LIMIT
  {
  }

  /** search_size: a block fits exactly, or leaves room for its own header. */
  predicate Fits(size: int, s: int) {
    size == s || size >= (HEADER + s) % LIMIT
  }

  /** A fitting block that can hold a header is large enough exactly when the bound does not wrap; once it wraps every
      such block fits. */
  lemma FitsIsEnough(s: int)
    requires 0 <= s < LIMIT
    ensures (forall size :: HEADER <= size < LIMIT && Fits(size, s) ==> size == s || size >= s + HEADER) <==>
            HEADER + s < LIMIT
    ensures HEADER + s >= LIMIT ==> forall size :: HEADER <= size < LIMIT ==> Fits(size, s)
    ensures HEADER + s < LIMIT ==> forall size :: Fits(size, s) <==> size == s || size >= s + 32
  {
    if HEADER + s >= LIMIT {
      assert Fits(HEADER, s);
    }
  }

  function FirstFit(free: seq<Block>, s: int): (i: nat)
    ensures i <= |free|
    ensures forall j :: 0 <= j < i ==> !Fits(free[j].size, s)
    ensures i < |free| ==> Fits(free[i].size, s)
  {
    if free == [] || Fits(free[0].size, s) then 0 else 1 + FirstFit(free[1..], s)
  }

  // ---------------------------------------------------------------------
  // Taking and merging
  // ---------------------------------------------------------------------

  /** What shrink(s) leaves of a size, in unsigned long arithmetic. */
  function Left(size: int, s: int): int {
    (size - s) % LIMIT
  }

  lemma LeftIs(size: int, s: int)
    requires 0 <= size < LIMIT && 0 <= s < LIMIT
    ensures Left(size, s) == if s <= size then size - s else size - s + LIMIT
  {
    if s > size {
      ModOnce(size - s + LIMIT);
    } else {
      ModOnce(size - s);
    }
  }

  /** search_decrementing: the end of block i goes, and the block with it if nothing is left. */
  function Take(free: seq<Block>, i: nat, s: int): seq<Block>
    requires i < |free|
  {
    if free[i].size == s then Without(free, i) else free[i := Block(free[i].start, Left(free[i].size, s))]
  }

  /** What a request needs to be served from within a block: a bound that does not wrap, nothing to serve it from, or
      a first block of just its size. */
  predicate Servable(free: seq<Block>, s: int) {
    s + HEADER < LIMIT || free == [] || free[0].size == s
  }

  /** The block found is one to split or one to hand out whole exactly for a servable request. */
  lemma ServableExactly(free: seq<Block>, s: int)
    requires 0 <= s < LIMIT && forall i :: 0 <= i < |free| ==> HEADER <= free[i].size < LIMIT
    ensures var i := FirstFit(free, s);
      Servable(free, s) <==> (i < |free| ==> free[i].size == s || s + HEADER <= free[i].size)
  {
  }

  /** The piece taken: it starts where what is left of the block ends. */
  function Taken(free: seq<Block>, i: nat, s: int): Block
    requires i < |free|
  {
    Block((free[i].End() - s) % LIMIT, s)
  }

  /** Where the block that starts, or ends, at an address is; |free| if there is none. */
  function StartingAt(free: seq<Block>, a: int): (i: nat)
    ensures i <= |free| && (i < |free| ==> free[i].start == a)
    ensures forall j :: 0 <= j < i ==> free[j].start != a
  {
    if free == [] || free[0].start == a then 0 else 1 + StartingAt(free[1..], a)
  }

  function EndingAt(free: seq<Block>, a: int): (i: nat)
    ensures i <= |free| && (i < |free| ==> free[i].End() == a)
    ensures forall j :: 0 <= j < i ==> free[j].End() != a
  {
    if free == [] || free[0].End() == a then 0 else 1 + EndingAt(free[1..], a)
  }

  /** insert_merging: b grows by its right neighbour, which goes; then b's left neighbour grows by b, or b, if it
      has none, goes to the tail. */
  function Merge(free: seq<Block>, b: Block): seq<Block> {
    MergeWith(free, b, EndingAt(free, b.start), StartingAt(free, b.End()))
  }

  function MergeWith(free: seq<Block>, b: Block, l: nat, r: nat): seq<Block>
    requires l <= |free| && r <= |free|
  {
    var grown := if r < |free| then Block(b.start, b.size + free[r].size) else b;
    var whole := if l < |free| then free[l := Block(free[l].start, free[l].size + grown.size)] else free + [grown];
    if r < |free| then Without(whole, r) else whole
  }

  function Sizes(free: seq<Block>): int {
    if free == [] then 0 else free[0].size + Sizes(free[1..])
  }

  // ---------------------------------------------------------------------
  // The invariant
  // ---------------------------------------------------------------------

  ghost predicate Disjoint(a: Block, b: Block) {
    a.End() <= b.start || b.End() <= a.start
  }

  /** Large enough for a header of its own, inside the address space, and not at address 0. */
  ghost predicate Sound(b: Block) {
    HEADER <= b.size && 0 < b.start && b.End() <= LIMIT
  }

  /** No two free blocks overlap or touch. */
  ghost predicate Scattered(free: seq<Block>) {
    && (forall i :: 0 <= i < |free| ==> Sound(free[i]))
    && (forall i, j :: 0 <= i < |free| && 0 <= j < |free| && i != j ==>
          Disjoint(free[i], free[j]) && free[i].End() != free[j].start)
  }

  ghost predicate Away(free: seq<Block>, b: Block) {
    forall i :: 0 <= i < |free| ==> Disjoint(free[i], b)
  }

  ghost predicate InFree(free: seq<Block>, x: int) {
    exists i :: 0 <= i < |free| && free[i].Holds(x)
  }

  ghost predicate InLive(live: set<Block>, x: int) {
    exists b :: b in live && b.Holds(x)
  }

  ghost predicate Inv(s: State) {
    && Scattered(s.free)
    && (forall b :: b in s.live ==> Sound(b) && Away(s.free, b))
    && (forall a, b :: a in s.live && b in s.live && a != b ==> Disjoint(a, b))
    && (forall x :: x in s.owned <==> InFree(s.free, x) || InLive(s.live, x))
  }

  ghost predicate NoTouch(free: seq<Block>, b: Block) {
    forall i :: 0 <= i < |free| ==> free[i].End() != b.start && b.End() != free[i].start
  }

  /** One block out: it is away from the rest and touches none of it. */
  lemma OneOut(free: seq<Block>, k: nat)
    requires Scattered(free) && k < |free|
    ensures var t := Without(free, k); Scattered(t) && Away(t, free[k]) && NoTouch(t, free[k]) && Sound(free[k])
    ensures forall c :: Away(free, c) ==> Away(Without(free, k), c) && Disjoint(free[k], c)
  {
    WithoutAt(free, k);
  }

  lemma OneOutHolds(free: seq<Block>, k: nat, x: int)
    requires k < |free|
    ensures InFree(free, x) <==> InFree(Without(free, k), x) || free[k].Holds(x)
  {
    var t := Without(free, k);
    WithoutAt(free, k);
    if InFree(free, x) && !free[k].Holds(x) {
      var i :| 0 <= i < |free| && free[i].Holds(x);
      assert t[if i < k then i else i - 1].Holds(x);
    }
    if InFree(t, x) {
      var i :| 0 <= i < |t| && t[i].Holds(x);
      assert free[if i < k then i else i + 1].Holds(x);
    }
  }

  /** One block in, away from the rest and touching none of it. */
  lemma OneIn(free: seq<Block>, k: nat, b: Block)
    requires Scattered(free) && k <= |free| && Sound(b) && Away(free, b) && NoTouch(free, b)
    ensures Scattered(InsertAt(free, k, b))
    ensures forall c :: Sound(c) && Away(free, c) && Disjoint(b, c) ==> Away(InsertAt(free, k, b), c)
  {
    InsertAtAt(free, k, b);
    hide InsertAt;
    var t := InsertAt(free, k, b);
    forall i, j | 0 <= i < |t| && 0 <= j < |t| && i != j
      ensures Disjoint(t[i], t[j]) && t[i].End() != t[j].start
    {
      var i', j' := if i < k then i else i - 1, if j < k then j else j - 1;
      if i != k && j != k {
        assert t[i] == free[i'] && t[j] == free[j'];
      } else if i == k {
        assert t[j] == free[j'];
      } else {
        assert t[i] == free[i'];
      }
    }
  }

  lemma OneInHolds(free: seq<Block>, k: nat, b: Block, x: int)
    requires k <= |free|
    ensures InFree(InsertAt(free, k, b), x) <==> InFree(free, x) || b.Holds(x)
  {
    InsertAtAt(free, k, b);
    assert Without(InsertAt(free, k, b), k) == free;
    OneOutHolds(InsertAt(free, k, b), k, x);
  }

  /** Within a block nothing wraps. */
  lemma TakeIs(free: seq<Block>, i: nat, s: int)
    requires i < |free| && Sound(free[i]) && 0 < s <= free[i].size
    ensures s != free[i].size ==>
      Take(free, i, s) == InsertAt(Without(free, i), i, Block(free[i].start, free[i].size - s))
    ensures Taken(free, i, s) == Block(free[i].End() - s, s)
  {
    LeftIs(free[i].size, s);
    ModOnce(free[i].End() - s);
  }

  lemma TakeKeeps(free: seq<Block>, i: nat, s: int)
    requires Scattered(free) && i < |free| && HEADER <= s && (s == free[i].size || s + HEADER <= free[i].size)
    ensures var t, b := Take(free, i, s), Taken(free, i, s);
      && Scattered(t) && Sound(b) && Away(t, b)
      && (forall c :: Away(free, c) ==> Away(t, c) && Disjoint(b, c))
  {
    OneOut(free, i);
    TakeIs(free, i, s);
    hide Taken, Left;
    if s != free[i].size {
      var rest, c := Without(free, i), Block(free[i].start, free[i].size - s);
      assert Away(rest, c) && NoTouch(rest, c) && Away(rest, Taken(free, i, s));
      OneIn(rest, i, c);
    }
  }

  lemma TakeHolds(free: seq<Block>, i: nat, s: int, x: int)
    requires i < |free| && Sound(free[i]) && 0 < s <= free[i].size
    ensures InFree(free, x) <==> InFree(Take(free, i, s), x) || Taken(free, i, s).Holds(x)
  {
    OneOutHolds(free, i, x);
    TakeIs(free, i, s);
    hide Taken, Left;
    if s != free[i].size {
      OneInHolds(Without(free, i), i, Block(free[i].start, free[i].size - s), x);
    }
  }

  // ---------------------------------------------------------------------
  // Merging: both neighbours out, the whole in
  // ---------------------------------------------------------------------

  ghost function WithoutLeft(free: seq<Block>, l: nat): seq<Block> {
    if l < |free| then Without(free, l) else free
  }

  ghost function Rest(free: seq<Block>, l: nat, r: nat): seq<Block> {
    var left := WithoutLeft(free, l);
    if r >= |free| || r == l then left
    else if l < r && l < |free| then Without(left, r - 1) else Without(left, r)
  }

  function Whole(free: seq<Block>, b: Block, l: nat, r: nat): Block {
    Block(if l < |free| then free[l].start else b.start,
          (if l < |free| then free[l].size else 0) + b.size + (if r < |free| then free[r].size else 0))
  }

  ghost function MergedAt(free: seq<Block>, l: nat, r: nat): int {
    if l >= |free| then (if r < |free| then |free| - 1 else |free|) else if r < l then l - 1 else l
  }

  lemma MergeIs(free: seq<Block>, b: Block, l: nat, r: nat)
    requires l <= |free| && r <= |free| && (l == r ==> l == |free|)
    ensures 0 <= MergedAt(free, l, r) <= |Rest(free, l, r)|
    ensures MergeWith(free, b, l, r) == InsertAt(Rest(free, l, r), MergedAt(free, l, r), Whole(free, b, l, r))
  {
    hide Without, InsertAt;
    var w := Whole(free, b, l, r);
    if l < |free| && r < |free| {
      BothOut(free, l, r, w);
    } else if r < |free| {
      RightOut(free, r, w);
    } else {
      LeftOut(free, l, w);
    }
  }

  lemma BothOut(free: seq<Block>, l: nat, r: nat, w: Block)
    requires l < |free| && r < |free| && l != r
    ensures var k := if r < l then l - 1 else l;
      0 <= k <= |Rest(free, l, r)| && Without(free[l := w], r) == InsertAt(Rest(free, l, r), k, w)
  {
    if l < r {
      assert Without(Without(free, l), r - 1) == free[..l] + free[l + 1..r] + free[r + 1..];
      assert Without(free[l := w], r) == free[..l] + [w] + (free[l + 1..r] + free[r + 1..]);
      InsertAfter(free[..l], free[l + 1..r] + free[r + 1..], w);
      assert free[..l] + free[l + 1..r] + free[r + 1..] == free[..l] + (free[l + 1..r] + free[r + 1..]);
    } else {
      assert Without(Without(free, l), r) == free[..r] + free[r + 1..l] + free[l + 1..];
      assert Without(free[l := w], r) == (free[..r] + free[r + 1..l]) + [w] + free[l + 1..];
      InsertAfter(free[..r] + free[r + 1..l], free[l + 1..], w);
    }
  }

  lemma InsertAfter(s: seq<Block>, t: seq<Block>, w: Block)
    ensures InsertAt(s + t, |s|, w) == s + [w] + t
  {
    assert (s + t)[..|s|] == s && (s + t)[|s|..] == t;
  }

  lemma RightOut(free: seq<Block>, r: nat, w: Block)
    requires r < |free|
    ensures Without(free + [w], r) == InsertAt(Without(free, r), |free| - 1, w) && |Without(free, r)| == |free| - 1
  {
  }

  lemma LeftOut(free: seq<Block>, l: nat, w: Block)
    requires l <= |free|
    ensures l < |free| ==> free[l := w] == InsertAt(Without(free, l), l, w)
    ensures free + [w] == InsertAt(free, |free|, w)
    ensures l < |free| ==> |Without(free, l)| == |free| - 1
  {
  }

  ghost predicate NoLeft(free: seq<Block>, a: int) {
    forall i :: 0 <= i < |free| ==> free[i].End() != a
  }

  ghost predicate NoRight(free: seq<Block>, a: int) {
    forall i :: 0 <= i < |free| ==> free[i].start != a
  }

  /** b may stand in the list once it has no neighbour there. */
  ghost predicate Fitting(free: seq<Block>, b: Block) {
    Scattered(free) && Sound(b) && Away(free, b)
  }

  lemma JoinLeft(free: seq<Block>, b: Block, k: nat)
    requires Fitting(free, b) && k < |free| && free[k].End() == b.start
    ensures var rest, w := Without(free, k), Block(free[k].start, free[k].size + b.size);
      && Fitting(rest, w) && NoLeft(rest, w.start) && (NoRight(free, b.End()) ==> NoRight(rest, b.End()))
      && (forall c :: Sound(c) && Away(free, c) && Disjoint(b, c) ==> Away(rest, c) && Disjoint(w, c))
  {
    OneOut(free, k);
    WithoutAt(free, k);
    var rest, w := Without(free, k), Block(free[k].start, free[k].size + b.size);
    hide Without;
    forall c | Sound(c) && Away(free, c) && Disjoint(b, c)
      ensures Disjoint(w, c)
    {
      assert Disjoint(free[k], c);
    }
  }

  lemma JoinRight(free: seq<Block>, b: Block, k: nat)
    requires Fitting(free, b) && k < |free| && free[k].start == b.End()
    ensures var rest, w := Without(free, k), Block(b.start, b.size + free[k].size);
      && Fitting(rest, w) && NoRight(rest, w.End()) && (NoLeft(free, b.start) ==> NoLeft(rest, b.start))
      && (forall c :: Sound(c) && Away(free, c) && Disjoint(b, c) ==> Away(rest, c) && Disjoint(w, c))
  {
    OneOut(free, k);
    WithoutAt(free, k);
    var rest, w := Without(free, k), Block(b.start, b.size + free[k].size);
    hide Without;
    forall c | Sound(c) && Away(free, c) && Disjoint(b, c)
      ensures Disjoint(w, c)
    {
      assert Disjoint(free[k], c);
    }
  }

  /** Both neighbours out: the whole fits, touches nothing, and is as far from every other block as its parts. */
  lemma NeighboursOut(free: seq<Block>, b: Block, l: nat, r: nat)
    requires Fitting(free, b) && l <= |free| && r <= |free|
    requires if l < |free| then free[l].End() == b.start else NoLeft(free, b.start)
    requires if r < |free| then free[r].start == b.End() else NoRight(free, b.End())
    ensures l == r ==> l == |free|
    ensures var rest, w := Rest(free, l, r), Whole(free, b, l, r);
      && Fitting(rest, w) && NoLeft(rest, w.start) && NoRight(rest, w.End())
      && (forall c :: Sound(c) && Away(free, c) && Disjoint(b, c) ==> Away(rest, c) && Disjoint(w, c))
  {
    hide Without, Scattered;
    var left := WithoutLeft(free, l);
    var grown := if l < |free| then Block(free[l].start, free[l].size + b.size) else b;
    if l < |free| {
      JoinLeft(free, b, l);
      WithoutAt(free, l);
    }
    if r < |free| {
      JoinRight(left, grown, if l < r then r - 1 else r);
    }
  }

  lemma NeighboursHold(free: seq<Block>, b: Block, l: nat, r: nat, x: int)
    requires l <= |free| && r <= |free| && (l == r ==> l == |free|) && b.size > 0
    requires l < |free| ==> free[l].End() == b.start && free[l].size > 0
    requires r < |free| ==> free[r].start == b.End() && free[r].size > 0
    ensures InFree(free, x) || b.Holds(x) <==> InFree(Rest(free, l, r), x) || Whole(free, b, l, r).Holds(x)
  {
    var left := WithoutLeft(free, l);
    var r' := if l < r && l < |free| then r - 1 else r;
    if l < |free| {
      OneOutHolds(free, l, x);
      WithoutAt(free, l);
    }
    if r < |free| {
      assert left[r'] == free[r] && Rest(free, l, r) == Without(left, r');
      OneOutHolds(left, r', x);
    }
    hide InFree, Without;
  }

  /** Merging a block in keeps the list scattered and gives it exactly the block's addresses. */
  lemma MergeKeeps(free: seq<Block>, b: Block)
    requires Fitting(free, b)
    ensures Scattered(Merge(free, b))
    ensures forall c :: Sound(c) && Away(free, c) && Disjoint(b, c) ==> Away(Merge(free, b), c)
    ensures forall x :: InFree(Merge(free, b), x) <==> InFree(free, x) || b.Holds(x)
  {
    var l, r := EndingAt(free, b.start), StartingAt(free, b.End());
    NeighboursOut(free, b, l, r);
    MergeIs(free, b, l, r);
    var rest, w, k := Rest(free, l, r), Whole(free, b, l, r), MergedAt(free, l, r);
    hide Merge, MergeWith, MergedAt, Rest, Whole, EndingAt, StartingAt, InsertAt;
    OneIn(rest, k, w);
    forall x
      ensures InFree(Merge(free, b), x) <==> InFree(free, x) || b.Holds(x)
    {
      NeighboursHold(free, b, l, r, x);
      OneInHolds(rest, k, w, x);
    }
  }

  // ---------------------------------------------------------------------
  // Every history
  // ---------------------------------------------------------------------

  datatype Op = Obtain(size: int) | Release(block: Block) | Donate(region: Block)

  ghost function Addresses(b: Block): set<int> {
    set x | b.start <= x < b.End() && b.Holds(x)
  }

  /** Sizes asked for have room for a header; what is released is live; what is given is new. */
  ghost predicate Allowed(s: State, op: Op) {
    match op
    case Obtain(n) => HEADER <= n < LIMIT && Servable(s.free, n)
    case Release(b) => b in s.live
    case Donate(b) => Sound(b) && Addresses(b) !! s.owned
  }

  ghost function Step(s: State, op: Op): State {
    match op
    case Obtain(n) =>
      var i := FirstFit(s.free, n);
      if i == |s.free| then s else State(Take(s.free, i, n), s.live + {Taken(s.free, i, n)}, s.owned)
    case Release(b) => State(Merge(s.free, b), s.live - {b}, s.owned)
    case Donate(b) => State(Merge(s.free, b), s.live, s.owned + Addresses(b))
  }

  lemma ObtainInv(s: State, n: int)
    requires Inv(s) && HEADER <= n < LIMIT && Servable(s.free, n)
    ensures Inv(Step(s, Obtain(n)))
    ensures var i := FirstFit(s.free, n); i < |s.free| ==>
      var b := Taken(s.free, i, n); b !in s.live && forall x :: b.Holds(x) ==> InFree(s.free, x)
  {
    var i := FirstFit(s.free, n);
    ServableExactly(s.free, n);
    if i < |s.free| {
      var t, b := Take(s.free, i, n), Taken(s.free, i, n);
      TakeKeeps(s.free, i, n);
      forall x
        ensures InFree(s.free, x) <==> InFree(t, x) || b.Holds(x)
      {
        TakeHolds(s.free, i, n, x);
      }
      hide Take, Taken, Scattered, Away, InFree, FirstFit;
      OneMoreLive(s.live, b);
    }
  }

  /** Once the fitting bound wraps the first block is taken, and the end of it, or what is left of it, is not memory to
      have: the partition is kept exactly for a servable request. */
  lemma ObtainExactly(s: State, n: int)
    requires Inv(s) && HEADER <= n < LIMIT
    ensures Inv(Step(s, Obtain(n))) <==> Servable(s.free, n)
  {
    if Servable(s.free, n) {
      ObtainInv(s, n);
    } else {
      var b := s.free[0];
      assert Sound(b) && Fits(b.size, n) && FirstFit(s.free, n) == 0;
      LeftIs(b.size, n);
      var t := Step(s, Obtain(n));
      assert t.free[0] == Block(b.start, Left(b.size, n)) && t.owned == s.owned && s.live <= t.live;
      if n < b.size {
        assert !Sound(t.free[0]);
      } else {
        Overlong(s, t);
      }
    }
  }

  /** A free block that outgrew its place breaks the partition. */
  lemma Overlong(s: State, t: State)
    requires Inv(s) && s.free != [] && t.free != [] && t.owned == s.owned && s.live <= t.live
    requires t.free[0].start == s.free[0].start && t.free[0].End() > s.free[0].End()
    ensures !Inv(t)
  {
    var x := s.free[0].End();
    NothingNext(s.free, 0);
    assert Sound(s.free[0]) && t.free[0].Holds(x);
    assert InFree(t.free, x);
    if x in s.owned {
      var c :| c in s.live && c.Holds(x);
      assert !Disjoint(t.free[0], c);
      assert c in t.live;
    }
  }

  /** One block of 64 bytes at address 64 and a request 40 bytes below the wrap: the block is found, and what is handed
      out starts 32 bytes beyond its end. */
  lemma WrappedRequest(unaligned: bool)
    ensures Gross(LIMIT - 40, false, unaligned) == LIMIT - 32
    ensures var s := Given(Block(64, 64));
      && s.free == [Block(64, 64)] && !Servable(s.free, LIMIT - 32) && FirstFit(s.free, LIMIT - 32) == 0
      && Taken(s.free, 0, LIMIT - 32).start == 160 && 160 !in s.owned
      && !Inv(Step(s, Obtain(LIMIT - 32)))
  {
    GrossWraps(unaligned);
    var arena, n := Block(64, 64), LIMIT - 32;
    hide Inv, Gross, RoundUp, Servable, Given, Step, FirstFit;
    GivenIs(arena);
    NotServable(arena, n);
    ObtainExactly(Given(arena), n);
  }

  lemma GrossWraps(unaligned: bool)
    ensures Gross(LIMIT - 40, false, unaligned) == LIMIT - 32
  {
    assert RoundUp(LIMIT - 40) == LIMIT - 40;
  }

  lemma GivenIs(arena: Block)
    requires Sound(arena)
    ensures Given(arena) == State([arena], {}, Addresses(arena)) && Inv(Given(arena))
  {
    DonateInv(State([], {}, {}), arena);
  }

  lemma NotServable(b: Block, n: int)
    requires Sound(b) && LIMIT - HEADER <= n < LIMIT && b.size != n
    ensures !Servable([b], n) && FirstFit([b], n) == 0
  {
  }

  lemma OneMoreLive(live: set<Block>, b: Block)
    ensures forall x :: InLive(live + {b}, x) <==> InLive(live, x) || b.Holds(x)
  {
  }

  lemma ReleaseInv(s: State, b: Block)
    requires Inv(s) && b in s.live
    ensures Inv(Step(s, Release(b)))
  {
    MergeKeeps(s.free, b);
    var live := s.live - {b};
    assert live + {b} == s.live;
    hide Merge, Scattered, Away, InFree;
    OneMoreLive(live, b);
  }

  lemma DonateInv(s: State, b: Block)
    requires Inv(s) && Sound(b) && Addresses(b) !! s.owned
    ensures Inv(Step(s, Donate(b)))
  {
    forall i | 0 <= i < |s.free|
      ensures Disjoint(s.free[i], b)
    {
      ApartIfNew(s, s.free[i], b);
    }
    forall c | c in s.live
      ensures Disjoint(b, c)
    {
      ApartIfNew(s, c, b);
    }
    assert Away(s.free, b);
    MergeKeeps(s.free, b);
    hide Merge, Scattered, Away, InFree, InLive;
    assert forall x :: x in Addresses(b) <==> b.Holds(x);
  }

  /** A block of the heap and a block of new addresses are disjoint. */
  lemma ApartIfNew(s: State, c: Block, b: Block)
    requires Inv(s) && Sound(b) && Addresses(b) !! s.owned && (c in s.free || c in s.live)
    ensures Disjoint(c, b)
  {
    var x := if c.start <= b.start then b.start else c.start;
    assert c.Holds(x) ==> InFree(s.free, x) || InLive(s.live, x);
    assert b.Holds(x) ==> x in Addresses(b);
  }

  /** A history of operations, each allowed where it happens. */
  ghost predicate History(s: State, ops: seq<Op>)
    decreases ops
  {
    ops == [] || (Allowed(s, ops[0]) && History(Step(s, ops[0]), ops[1..]))
  }

  ghost function Run(s: State, ops: seq<Op>): State
    decreases ops
  {
    if ops == [] then s else Run(Step(s, ops[0]), ops[1..])
  }

  lemma {:induction false} RunInv(s: State, ops: seq<Op>)
    requires Inv(s) && History(s, ops)
    ensures Inv(Run(s, ops))
    decreases ops
  {
    if ops != [] {
      match ops[0] {
        case Obtain(n) => ObtainInv(s, n);
        case Release(b) => ReleaseInv(s, b);
        case Donate(b) => DonateInv(s, b);
      }
      hide Inv, Step;
      RunInv(Step(s, ops[0]), ops[1..]);
    }
  }

  /** No free block starts where another ends, nor ends where another starts. */
  lemma NothingNext(free: seq<Block>, i: nat)
    requires Scattered(free) && i < |free|
    ensures !InFree(free, free[i].End()) && !InFree(free, free[i].start - 1)
  {
    forall j | 0 <= j < |free|
      ensures !free[j].Holds(free[i].End()) && !free[j].Holds(free[i].start - 1)
    {
      assert Sound(free[i]);
      assert j != i ==> Disjoint(free[i], free[j]) && free[j].End() != free[i].start;
    }
  }

  /** A maximal run of owned addresses. */
  ghost predicate IsRun(owned: set<int>, b: Block) {
    && b.size > 0 && b.End() !in owned && b.start - 1 !in owned
    && forall x :: b.Holds(x) ==> x in owned
  }

  /** With nothing live, everything is coalesced: the free blocks are exactly the maximal runs of owned addresses. */
  lemma Coalesced(s: State)
    requires Inv(s) && s.live == {}
    ensures forall b :: b in s.free <==> IsRun(s.owned, b)
  {
    assert forall x :: x in s.owned <==> InFree(s.free, x);
    forall b
      ensures b in s.free <==> IsRun(s.owned, b)
    {
      if b in s.free {
        var i :| 0 <= i < |s.free| && s.free[i] == b;
        assert Sound(b);
        NothingNext(s.free, i);
      } else if IsRun(s.owned, b) {
        RunIsFree(s, b);
      }
    }
  }

  lemma RunIsFree(s: State, b: Block)
    requires Inv(s) && s.live == {} && IsRun(s.owned, b)
    ensures b in s.free
  {
    assert b.Holds(b.start) && InFree(s.free, b.start);
    var i :| 0 <= i < |s.free| && s.free[i].Holds(b.start);
    var f := s.free[i];
    NothingNext(s.free, i);
    assert f.Holds(b.start - 1) ==> InFree(s.free, b.start - 1);
    assert f.Holds(b.End()) ==> InFree(s.free, b.End());
    assert b.Holds(f.End()) ==> InFree(s.free, f.End());
    assert f.start == b.start && f.End() == b.End();
  }

  /** A heap that owns one region has one run. */
  lemma OneRun(arena: Block, b: Block)
    requires arena.size > 0
    ensures IsRun(Addresses(arena), b) <==> b == arena
  {
    var owned := Addresses(arena);
    assert forall x :: x in owned <==> arena.Holds(x);
    if IsRun(owned, b) {
      assert b.Holds(b.start) && b.Holds(b.End() - 1);
    }
  }

  lemma OneBlock(free: seq<Block>, b: Block)
    requires Scattered(free) && forall c :: c in free <==> c == b
    ensures free == [b]
  {
    assert b in free;
    assert free[0] in free;
    if |free| > 1 {
      assert free[1] in free;
      TwoApart(free);
    }
  }

  lemma TwoApart(free: seq<Block>)
    requires Scattered(free) && |free| > 1
    ensures free[0] != free[1]
  {
    assert Disjoint(free[0], free[1]) && Sound(free[0]);
  }

  /** A new heap over an arena. */
  ghost function Given(arena: Block): State {
    Step(State([], {}, {}), Donate(arena))
  }

  /** Whatever regions were given and whatever happened in between: a heap relieved of everything again has exactly the
      maximal runs of its memory as free blocks. */
  lemma EverythingFreed(ops: seq<Op>)
    requires var none := State([], {}, {}); History(none, ops) && Run(none, ops).live == {}
    ensures var s := Run(State([], {}, {}), ops); forall b :: b in s.free <==> IsRun(s.owned, b)
  {
    var none := State([], {}, {});
    assert Inv(none);
    RunInv(none, ops);
    Coalesced(Run(none, ops));
  }

  /** Given one arena, it has one free block. */
  lemma OneArenaFreed(arena: Block, ops: seq<Op>)
    requires Sound(arena) && History(Given(arena), ops)
    requires Run(Given(arena), ops).live == {} && Run(Given(arena), ops).owned == Addresses(arena)
    ensures Run(Given(arena), ops).free == [arena]
  {
    hide Inv, Step, Sound, Addresses, IsRun, Scattered;
    var none, all := State([], {}, {}), [Donate(arena)] + ops;
    FirstGift(arena);
    assert all[0] == Donate(arena) && all[1..] == ops;
    RunInv(none, all);
    EverythingFreed(all);
    var s := Run(Given(arena), ops);
    assert s == Run(none, all);
    SoundSize(arena);
    forall b
      ensures b in s.free <==> b == arena
    {
      OneRun(arena, b);
    }
    InvScattered(s);
    OneBlock(s.free, arena);
  }

  lemma FirstGift(arena: Block)
    requires Sound(arena)
    ensures Inv(State([], {}, {})) && Allowed(State([], {}, {}), Donate(arena))
  {
  }

  lemma SoundSize(b: Block)
    requires Sound(b)
    ensures b.size > 0
  {
  }

  lemma InvScattered(s: State)
    requires Inv(s)
    ensures Scattered(s.free)
  {
  }

  // ---------------------------------------------------------------------
  // Sizes add up
  // ---------------------------------------------------------------------

  lemma {:induction false} SizesInsert(free: seq<Block>, k: nat, b: Block)
    requires k <= |free|
    ensures Sizes(InsertAt(free, k, b)) == Sizes(free) + b.size
  {
    var t := InsertAt(free, k, b);
    if k == 0 {
      assert t[1..] == free;
    } else {
      assert t[1..] == InsertAt(free[1..], k - 1, b);
      SizesInsert(free[1..], k - 1, b);
    }
  }

  lemma {:induction false} SizesWithout(free: seq<Block>, k: nat)
    requires k < |free|
    ensures Sizes(Without(free, k)) == Sizes(free) - free[k].size
  {
    assert InsertAt(Without(free, k), k, free[k]) == free;
    SizesInsert(Without(free, k), k, free[k]);
  }

  lemma TakeSizes(free: seq<Block>, i: nat, s: int)
    requires i < |free| && Sound(free[i]) && 0 < s <= free[i].size
    ensures Sizes(Take(free, i, s)) == Sizes(free) - s
  {
    SizesWithout(free, i);
    TakeIs(free, i, s);
    if s != free[i].size {
      SizesInsert(Without(free, i), i, Block(free[i].start, free[i].size - s));
    }
  }

  /** The index of the block that starts last. */
  function LastBlock(free: seq<Block>): (k: nat)
    requires free != []
    ensures k < |free| && forall i :: 0 <= i < |free| ==> free[i].start <= free[k].start
  {
    if |free| == 1 then 0
    else
      var k := 1 + LastBlock(free[1..]);
      assert forall i :: 1 <= i < |free| ==> free[i] == free[1..][i - 1];
      if free[0].start <= free[k].start then k else 0
  }

  /** Disjoint blocks in a range have no more room in all than the range. */
  lemma {:induction false} SizesFit(free: seq<Block>, lo: int, hi: int)
    requires Scattered(free) && lo <= hi
    requires forall i :: 0 <= i < |free| ==> lo <= free[i].start && free[i].End() <= hi
    ensures Sizes(free) <= hi - lo
    decreases |free|
  {
    if free != [] {
      hide Without, Scattered, Sound;
      var k := LastBlock(free);
      var rest := Without(free, k);
      OneOut(free, k);
      WithoutAt(free, k);
      SizesWithout(free, k);
      forall i | 0 <= i < |rest|
        ensures lo <= rest[i].start && rest[i].End() <= free[k].start
      {
        BeforeLast(free, if i < k then i else i + 1, k);
      }
      SizesFit(rest, lo, free[k].start);
    }
  }

  lemma BeforeLast(free: seq<Block>, i: nat, k: nat)
    requires Scattered(free) && i < |free| && k < |free| && i != k && free[i].start <= free[k].start
    ensures free[i].End() <= free[k].start
  {
    assert Disjoint(free[i], free[k]) && Sound(free[k]);
  }

  /** The grouped size of a free list is an unsigned long. */
  lemma SizesBound(free: seq<Block>)
    requires Scattered(free)
    ensures 0 <= Sizes(free) < LIMIT
  {
    SizesFit(free, 1, LIMIT);
    SizesPositive(free);
  }

  lemma {:induction false} SizesPositive(free: seq<Block>)
    requires forall i :: 0 <= i < |free| ==> Sound(free[i])
    ensures Sizes(free) >= 0
  {
    if free != [] {
      SizesPositive(free[1..]);
    }
  }

  lemma RestSizes(free: seq<Block>, l: nat, r: nat)
    requires l <= |free| && r <= |free| && (l == r ==> l == |free|)
    ensures Sizes(Rest(free, l, r))
         == Sizes(free) - (if l < |free| then free[l].size else 0) - (if r < |free| then free[r].size else 0)
  {
    hide Without, Sizes;
    if l < |free| {
      SizesWithout(free, l);
      WithoutAt(free, l);
    }
    if r < |free| {
      SizesWithout(WithoutLeft(free, l), if l < r && l < |free| then r - 1 else r);
    }
  }

  lemma MergeSizes(free: seq<Block>, b: Block)
    requires Fitting(free, b)
    ensures Sizes(Merge(free, b)) == Sizes(free) + b.size
  {
    var l, r := EndingAt(free, b.start), StartingAt(free, b.End());
    NeighboursOut(free, b, l, r);
    MergeIs(free, b, l, r);
    hide Without, InsertAt, MergeWith, Scattered, Sizes, StartingAt, EndingAt, Rest, MergedAt;
    SizesInsert(Rest(free, l, r), MergedAt(free, l, r), Whole(free, b, l, r));
    RestSizes(free, l, r);
  }

  // ---------------------------------------------------------------------
  // Alignment
  // ---------------------------------------------------------------------

  predicate WordAligned(b: Block) {
    b.start % WORD == 0 && b.size % WORD == 0
  }

  ghost predicate Aligned(s: State) {
    (forall b :: b in s.free ==> WordAligned(b)) && (forall b :: b in s.live ==> WordAligned(b))
  }

  ghost predicate AlignedOp(op: Op) {
    match op
    case Obtain(n) => n % WORD == 0
    case Release(b) => true
    case Donate(b) => WordAligned(b)
  }

  /** With word sizes asked for and word regions given, every block, and so every payload, stays on a word. */
  lemma StepAligned(s: State, op: Op)
    requires Inv(s) && Aligned(s) && Allowed(s, op) && AlignedOp(op)
    ensures Aligned(Step(s, op))
  {
    hide Inv, Take, Taken, FirstFit, Merge, WordAligned, Servable;
    match op
    case Obtain(n) =>
      var i := FirstFit(s.free, n);
      FirstFitAt(s.free, n);
      if i < |s.free| {
        TakeWithin(s, n);
        TakeAligned(s.free, i, n);
      }
    case Release(b) => MergeAligned(s.free, b);
    case Donate(b) => MergeAligned(s.free, b);
  }

  /** A servable request takes its piece from within a block. */
  lemma TakeWithin(s: State, n: int)
    requires Inv(s) && HEADER <= n < LIMIT && Servable(s.free, n)
    ensures var i := FirstFit(s.free, n); i < |s.free| ==> Sound(s.free[i]) && 0 < n <= s.free[i].size
  {
    ServableExactly(s.free, n);
  }

  lemma FirstFitAt(free: seq<Block>, s: int)
    ensures FirstFit(free, s) <= |free|
  {
  }

  lemma TakeAligned(free: seq<Block>, i: nat, s: int)
    requires i < |free| && Sound(free[i]) && 0 < s <= free[i].size
    requires s % WORD == 0 && forall c :: c in free ==> WordAligned(c)
    ensures WordAligned(Taken(free, i, s)) && forall c :: c in Take(free, i, s) ==> WordAligned(c)
  {
    hide Left, Taken, Without, InsertAt, WordAligned, Sound;
    TakeIs(free, i, s);
    assert free[i] in free;
    PartsAligned(free[i], s);
    SoundBounds(free[i]);
    LeftIs(free[i].size, s);
    WithoutAt(free, i);
  }

  lemma SoundBounds(b: Block)
    requires Sound(b)
    ensures 0 <= b.size < LIMIT
  {
  }

  lemma PartsAligned(b: Block, s: int)
    requires WordAligned(b) && s % WORD == 0
    ensures WordAligned(Block(b.start, b.size - s)) && WordAligned(Block(b.End() - s, s))
  {
  }

  lemma MergeAligned(free: seq<Block>, b: Block)
    requires WordAligned(b) && forall c :: c in free ==> WordAligned(c)
    ensures forall c :: c in Merge(free, b) ==> WordAligned(c)
  {
    var l, r := EndingAt(free, b.start), StartingAt(free, b.End());
    hide EndingAt, StartingAt, Without;
    assert forall i :: 0 <= i < |free| ==> free[i] in free;
    var grown := if r < |free| then Block(b.start, b.size + free[r].size) else b;
    var whole := if l < |free| then free[l := Block(free[l].start, free[l].size + grown.size)] else free + [grown];
    assert WordAligned(grown);
    assert forall i :: 0 <= i < |whole| ==> WordAligned(whole[i]);
    if r < |free| {
      WithoutAt(whole, r);
    }
  }

  // ---------------------------------------------------------------------
  // Headers
  // ---------------------------------------------------------------------

  /** The words of a block its list element is built in. */
  function HeaderOf(b: Block): Block {
    Block(b.start, HEADER)
  }

  /** The block an operation turns into an element, besides those in the list. */
  ghost function Inserted(op: Op): set<Block> {
    match op
    case Obtain(n) => {}
    case Release(b) => {b}
    case Donate(b) => {b}
  }

  /** Headers lie inside their blocks, apart from each other and from everything live. */
  lemma HeadersApart(s: State)
    requires Inv(s)
    ensures forall f, x :: f in s.free && HeaderOf(f).Holds(x) ==> f.Holds(x)
    ensures forall f, g :: f in s.free && g in s.free && f != g ==> Disjoint(HeaderOf(f), HeaderOf(g))
    ensures forall f, c :: f in s.free && c in s.live ==> Disjoint(HeaderOf(f), c)
  {
    forall f, g | f in s.free && g in s.free && f != g
      ensures Disjoint(HeaderOf(f), HeaderOf(g))
    {
      var i :| 0 <= i < |s.free| && s.free[i] == f;
      var j :| 0 <= j < |s.free| && s.free[j] == g;
      assert Disjoint(s.free[i], s.free[j]) && Sound(f) && Sound(g);
    }
    forall f, c | f in s.free && c in s.live
      ensures Disjoint(HeaderOf(f), c)
    {
      assert Sound(f) && Disjoint(f, c);
    }
  }

  /** An operation writes list fields of free blocks and of the block it inserts only: none of them lies in a block
      that stays live, so the words in front of a payload stay as written. */
  lemma HeaderWritesSpare(s: State, op: Op)
    requires Inv(s) && Allowed(s, op)
    ensures forall f, c :: (f in s.free || f in Inserted(op)) && c in s.live && c in Step(s, op).live ==>
      Disjoint(HeaderOf(f), c)
  {
    hide Merge, Take, Taken, FirstFit, Scattered;
    HeadersApart(s);
    match op
    case Obtain(n) =>
    case Release(b) =>
    case Donate(b) =>
      forall c | c in s.live
        ensures Disjoint(b, c)
      {
        ApartIfNew(s, c, b);
      }
  }
}

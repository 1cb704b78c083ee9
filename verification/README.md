# EPOS verification

Dafny models of the parts of EPOS in which data changed in place stands for a simpler mathematical object, with
proofs of what those parts are for.

- **Multi-precision arithmetic** (`Digits`, `Divisibility`, `Bytes`, `Congruence`, `Bignum`, `FieldTables`): digit
  arrays in base 2^32, columnwise multiplication, Barrett reduction and inversion by binary extended Euclid, each
  proved against its integer meaning. On it, the Poly1305 tag (`Poly1305`) and the elliptic-curve scalar
  multiplication (`Bits`, `CurveLaw`, `EllipticCurve`).
- **Kernel lists** (`Sequences`, `Words`, `Lists`, `Ranks`, `OrderedLists`): intrusive doubly linked lists and their
  ordered and relative variants, as classes over linked nodes. On them, the alarm service (`AlarmMachine`,
  `AlarmLimits`, `Alarms`), the allocator (`HeapMachine`, `Heaps`), the scheduling lists with one or several heads
  (`SchedulingMachine`, `SchedulingLists`) and the partitioned multilist (`MultilistMachine`, `SchedulingMultilists`).
- **The SMP barrier** (`BarrierMachine`, `Barrier`): atomic steps of any number of cores under sequential
  consistency.
- **The energy-aware load balancer** (`BalanceMachine`, `BalanceLimits`, `LoadBalancer`): trial migrations and swaps
  done in place, the vote on the frequency, and the bookkeeping of commitments and revocations over every run.
- **Semaphores and the bounded buffer** (`Semaphores`, `BufferMachine`, `BoundedBuffer`), **CRC-16**
  (`Polynomials`, `Crc`) and **the hash with a single synonym list** (`SimpleLists`, `Hash`).

Components that change state are classes with the source's fields. A component with a `...Machine` module has its
behaviour there as a function on values; the class methods are proved to take exactly the machine's steps, and the
invariants and the statements over whole runs are proved about the machine.

`dafny verify dfyconfig.toml` checks everything.

## Readings of the source

- A modulus has k digits with a nonzero top digit, its Barrett constant k + 1 digits. The constant is declared with k
  (include/utility/bignum.h:33-36) but read at index k (include/utility/bignum.h:348); the model follows the reads.
- `*=` returns early when the factor is 1 and then leaves the other operand as it is, reduced or not. `ModMulExact`
  says exactly when that is the product mod m; the loops that use `*=` only meet reduced operands.
- An element carries the fields of all list families (rank, queue number, size); each list uses its own.
- The rank of an alarm is a `long`, but the handler tests the `int` that `promote()` returns
  (include/utility/list.h:193, src/api/alarm.cc:117, include/machine/timer.h:24). `TickFiresEarliest` gives the exact
  condition for one tick. An alarm of more than 2^31 ticks may fire early, whatever the others do, and one of at most
  2^31 never does: `NeverEarlyExactly`, with `LongAlarmFiresAtOnce` for an input. An alarm more than 2^31 ticks late
  waits; it takes more than 2^31 alarms queued at once to get there, as in the run of `CrowdWaits`, and with at most
  2^31 every deadline that is no further than 2^31 ticks ahead is met: `DeadlineMet`. The `long` itself and `elapsed`
  are unbounded; they would wrap after 2^63 ticks.
- `verify` of Poly1305 takes an unsigned length and passes it to an `int`: from 2^31 bytes on it compares with the tag
  of the empty message.
- The firing counter of an alarm is a 32-bit unsigned: a used-up alarm that is reset counts down to the value that
  stands for endless. `ExhaustedResetIsEndless` states it.
- Sizes are those of a 64-bit processor: `sizeof(void *)` and `sizeof(long)` are 8, a free-list element is 32 bytes.
  A request near 2^64 wraps, both while it is rounded up and in the fitting test. `GrossSuffices` and `FitsIsEnough`
  say exactly from where on. `ServableExactly` and `ObtainExactly` say when such a request is nevertheless served from
  within a block; otherwise the source hands out memory it does not own, as in `WrappedRequest`.
- `remove(e)` does not look whether e is in the list: it goes by the links of e. A stray without a predecessor makes
  the list give up its head, one without a successor its tail; one with both has its stale neighbours linked with each
  other and the size counted down (`Lists.List.Remove`). A thread that runs on another head, or whose queue number was
  changed while it ran (`Thread::priority`, src/api/thread.cc:112-136, followed by an exit or a sleep), is such a
  stray where `remove` looks for it: another thread is lost and it stays chosen. `MRemoveExactly` and
  `RunningRemovedExactly` say when `remove` takes out what it should, `RemovalLosesAnother` gives an input. A relative
  list requires membership, which the alarm service, searching by object, always has.
- `insert` into a multilist, `remove` and `choose` take the head and the queue that the source reads from
  `current_head()` and `current_queue()` as arguments.
- The running thread may change rank and queue number (`Retag`); a queued thread changes neither.
- A multilist's `choose()` returns null, and leaves the slot free, exactly when the running thread left for another
  queue and nobody waits.
- The barrier with one core returns at once, and the model starts at two cores.
- The balancer's `float` is `real`; activities, utilizations, predictions and the cores the threads are on may change
  arbitrarily between hyperperiods. The reason to revoke (a deadline miss seen, or a frequency level above that of the
  migration) may come at any time.
- `char` may be signed: the conversion in `crc16` keeps the same sixteen bits either way.
- Key and slot: an `int` key is taken modulo 2^32 before `% SIZE`, as the unsigned `SIZE` makes it in the source.

## Model

| member | source | states |
|---|---|---|
| `Bignums.Cmp` | include/utility/bignum.h:262-268 | the sign returned is that of the difference of the two numbers |
| `Bignums.SimpleSub` | include/utility/bignum.h:275-285 | difference plus borrow times B^size is exact, also where the result overwrites an operand |
| `Bignums.SimpleAdd` | include/utility/bignum.h:292-300 | sum with carry times B^size is exact, also where the result overwrites an operand |
| `Bignums.MulAcc` | include/utility/bignum.h:313-320 | one digit product enters the three accumulators exactly and without overflow |
| `Bignums.AddColumn` | include/utility/bignum.h:309-326 | a column sum fits the three accumulators, which hold it exactly |
| `Bignums.ColumnsTop` | include/utility/bignum.h:322-328 | what is left for the last column of a product fits one digit |
| `Bignums.SimpleMult` | include/utility/bignum.h:306-329 | 2k digits hold exactly the product, for every size |
| `Bignums.BarrettEstimate` | include/utility/bignum.h:338-364 | the estimated quotient is never too high and low by two at most |
| `Bignums.BarrettRemainder` | include/utility/bignum.h:335-392 | the remainder estimate lies under three moduli, fits one digit more, and is congruent to the dividend |
| `Bignums.Bignum.EstimateQuotient` | include/utility/bignum.h:338-364 | the column loop that skips the low half yields the Barrett quotient of the upper digits |
| `Bignums.Bignum.LowProduct` | include/utility/bignum.h:366-385 | quotient times modulus, modulo B^(k+1) |
| `Bignums.Bignum.Residual` | include/utility/bignum.h:387-388 | the wrapped difference is the true one: congruent to the dividend and under three moduli |
| `Bignums.Bignum.BarrettReduction` | include/utility/bignum.h:335-398 | for every 2k-digit dividend the result is the dividend mod m, after at most two correcting subtractions |
| `Bignums.Bignum.FromBytes` | include/utility/bignum.h:42-48 | little-endian bytes, cut or padded to the digits |
| `Bignums.Bignum.AssignSmall` | include/utility/bignum.h:59-74 | the number assigned is the value |
| `Bignums.Bignum.Compare` | include/utility/bignum.h:83-88 | the sign of the difference of the values |
| `Bignums.Bignum.MulAssign` | include/utility/bignum.h:90-106 | product mod m, or the operand as it was when the factor is 1 |
| `Bignums.ModMulExact` | include/utility/bignum.h:90-106 | the shortcut for b = 1 is the product mod m exactly when b is not 1 or the other operand is reduced |
| `Bignums.Bignum.AddAssign` | include/utility/bignum.h:108-123 | the sum of any two numbers with m taken off for the carry and once more; it is the sum mod m exactly where two corrections suffice, and always for reduced operands |
| `Bignums.SufficesExactly` | include/utility/bignum.h:108-123 | two corrections make the residue exactly below 2m without a carry, below 3m with one, and, where the first correction is lost to the wrap, only for an m that divides B^k |
| `Bignums.Bignum.SubAssign` | include/utility/bignum.h:125-138 | difference of any two numbers, with m added back exactly when it is negative; it wraps at B^k only where b is above a + m |
| `Bignums.ModSubtract` | include/utility/bignum.h:125-138 | for reduced operands that is the difference mod m |
| `Bignums.Bignum.DivideByTwo` | include/utility/bignum.h:169-190 | half the value with the carry on top, and the bit shifted out |
| `Bignums.Bignum.HalveModulo` | include/utility/bignum.h:211-216 | exact halving modulo an odd m, the carry of the addition fed back |
| `Bignums.Bignum.StripTwos` | include/utility/bignum.h:209-226 | halving to an odd number keeps the common divisors and keeps coefficient * x congruent to it |
| `Bignums.Bignum.SubtractSmaller` | include/utility/bignum.h:227-233 | both congruences A*x = u and C*x = v mod m and the common divisors survive the subtraction, which makes u + v smaller |
| `Bignums.Bignum.Invert` | include/utility/bignum.h:201-235 | terminates with a reduced i such that i*x is congruent to gcd(x, m), for every odd m and every x, also without an inverse |
| `Divisibility.InverseExactly` | include/utility/bignum.h:201-235 | that i is the inverse of x exactly when x and m are coprime |
| `FieldTables.Tables17` | src/utility/bignum.cc:21-36 | the 130-bit modulus and its Barrett constant are a Barrett pair |
| `FieldTables.Tables16` | src/utility/bignum.cc:7-18 | so are the modulus of the key exchange and its constant |
| `Poly1305s.Poly1305.constructor` | include/utility/poly1305.h:18-20 | r is masked as section 2.5 of RFC 8439 asks, and below the modulus |
| `Poly1305s.Poly1305.Clamp` | include/utility/poly1305.h:57-65 | exactly the bits RFC 8439 section 2.5 clears are cleared |
| `Poly1305s.ClampedMask` | include/utility/poly1305.h:57-65 | clamping is bitwise and with 0ffffffc 0ffffffc 0ffffffc 0fffffff, for every r |
| `Poly1305s.ClampedBound` | include/utility/poly1305.h:57-65 | a clamped r is below 2^130 - 5 |
| `Poly1305s.Poly1305.MarkedBignum` | include/utility/poly1305.h:27-29 | a block of 0 to 16 bytes with the one bit behind it, below the modulus |
| `Poly1305s.BlocksAre` | include/utility/poly1305.h:25-29 | block i is the number of bytes 16 i and following, 16 or what is left, with one bit behind them |
| `Poly1305s.HornerReduced` | include/utility/poly1305.h:31-32 | one += and *=, shortcut included, is one Horner step modulo m, fully reduced |
| `Poly1305s.Poly1305.Accumulate` | include/utility/poly1305.h:23-33 | for every buffer and length the accumulator is the sum of c_i * r^(q-i+1) mod 2^130 - 5 over the message of that length, none for a length of zero or less |
| `Poly1305s.Poly1305.Stamp` | include/utility/poly1305.h:23-41 | the tag is that sum plus the cipher's number, mod 2^128, for every int length |
| `Poly1305s.Poly1305.Verify` | include/utility/poly1305.h:43-51 | accepts exactly the mac equal to the message's tag below 2^31 bytes; from there on, where the unsigned length turns negative, exactly the tag of the empty message |
| `EllipticCurves.Point.JacobianDouble` | include/utility/diffie_hellman.h:176-199 | the statements compute the closed doubling formulas mod p |
| `EllipticCurves.Point.AddJacobianAffine` | include/utility/diffie_hellman.h:201-235 | the statements compute the closed mixed-addition formulas mod p |
| `CurveLaw.DoubledRepresents` | include/utility/diffie_hellman.h:176-199 | in cross-multiplied form the doubling formulas give the tangent result of SEC 1 section 2.2.1 for a = -3 |
| `CurveLaw.AddedRepresents` | include/utility/diffie_hellman.h:201-235 | and the addition formulas the chord result, for distinct abscissas |
| `CurveLaw.DoubleOnCurve` | include/utility/diffie_hellman.h:176-199 | the tangent result of a point of y^2 = x^3 - 3x + b is a point of it |
| `CurveLaw.SumOnCurve` | include/utility/diffie_hellman.h:201-235 | so is the chord result of two such points |
| `Bits.Binary` | include/utility/diffie_hellman.h:136-146 | the 32 bits of a digit, most significant first, and the position behind its leading one |
| `EllipticCurves.Point.SignificantDigits` | include/utility/diffie_hellman.h:125-127 | all digits from the length on are zero, and the last below it only for the number zero |
| `EllipticCurves.Point.DigitBits` | include/utility/diffie_hellman.h:149-153 | the bits of one digit extend the multiple computed so far by that digit |
| `EllipticCurves.Point.DigitLoop` | include/utility/diffie_hellman.h:148-162 | for every nonzero scalar of any length the loop computes its multiple |
| `EllipticCurves.Point.Normalise` | include/utility/diffie_hellman.h:164-173 | x and y times the square and cube of what invert makes of z, and z = 1 |
| `EllipticCurves.Point.MultiplyBy` | include/utility/diffie_hellman.h:118-174 | the normalised multiple, or the zero triple for the scalar zero |
| `CurveLaw.MultipleRepresents` | include/utility/diffie_hellman.h:148-162 | double-and-add represents the k-th multiple of the affine point, if no step the loop takes degenerates |
| `CurveLaw.MultipleOnCurve` | include/utility/diffie_hellman.h:148-162 | and every multiple the loop computes |
| `CurveLaw.ListingExactly` | include/utility/diffie_hellman.h:148-162 | the group law has a listing of the multiples the loop meets, every 2y and every difference of abscissas a unit, exactly when the last z is a unit |
| `CurveLaw.Normalised` | include/utility/diffie_hellman.h:164-173 | normalising a representation gives back the affine coordinates |
| `EllipticCurves.MultiplicationCorrect` | include/utility/diffie_hellman.h:118-174 | scalar multiplication ends with the affine k-th multiple of the group law, if no step degenerates |
| `EllipticCurves.DegeneratesExactly` | include/utility/diffie_hellman.h:164-173 | no step degenerated exactly when the divisor that invert() ends with is 1 |
| `Lists.List.InsertHead` | include/utility/list.h:689-711 | the element becomes the first, all links consistent |
| `Lists.List.InsertTail` | include/utility/list.h:713-735 | the element becomes the last, all links consistent |
| `Lists.List.InsertBetween` | include/utility/list.h:825-849 | the element stands between its two neighbours, all links consistent |
| `Lists.List.RemoveHead` | include/utility/list.h:767-786 | the first element leaves, null from an empty list |
| `Lists.List.RemoveTail` | include/utility/list.h:788-807 | the last element leaves, null from an empty list |
| `Lists.List.Remove` | include/utility/list.h:739-765 | exactly the element leaves, wherever it is; for an element outside the list the only element, the head or the tail leaves instead, or its stale neighbours are linked with each other and the size falls short by one, modulo 2^64 |
| `Lists.List.Search` | include/utility/list.h:816-820 | the object's element, null exactly when there is none |
| `OrderedLists.OrderedList.Insert` | include/utility/list.h:939-969 | the element goes behind every rank not above its own; a relative list takes its remaining rank off its successor |
| `OrderedLists.OrderedList.RemoveFirst` | include/utility/list.h:971-977 | the head leaves and a relative list hands its rank on |
| `OrderedLists.OrderedList.Remove` | include/utility/list.h:979-991 | an element leaves from anywhere and a relative list hands its rank on; for a stray another element leaves a list that is not relative, or its size falls short by one |
| `OrderedLists.OrderedList.RemoveObject` | include/utility/list.h:993-1001 | the object's element leaves; without one nothing changes |
| `Ranks.PositionSorted` | include/utility/list.h:943-968 | the insertion point is the one that keeps the order and first-in-first-out among equals |
| `Ranks.OrderedInsert` | include/utility/list.h:943-991 | a list that is not relative stays in order, keeps every rank, and removing what was inserted gives it back |
| `Ranks.AbsoluteInsert` | include/utility/list.h:943-968 | inserting differences inserts the absolute value in order and changes no other absolute value |
| `Ranks.AbsoluteRemove` | include/utility/list.h:971-991 | removing a difference removes its absolute value and changes no other |
| `Ranks.AbsoluteTick` | src/api/alarm.cc:101-117 | counting the clock up and the head down changes no deadline |
| `Alarms.AlarmService.Create` | src/api/alarm.cc:14-34 | the machine's step: queued at elapsed + ticks, or called at once for zero ticks |
| `Alarms.AlarmService.Destroy` | src/api/alarm.cc:36-50 | the machine's step: every other alarm keeps its deadline |
| `Alarms.AlarmService.Reset` | src/api/alarm.cc:52-66 | the machine's step: the deadline becomes elapsed + ticks, the others keep theirs |
| `Alarms.AlarmService.TickQueue` | src/api/alarm.cc:101-117 | one tick moves no deadline and tells, through the int that promote() returns, whether the head is dispatched |
| `Alarms.AlarmService.Dispatch` | src/api/alarm.cc:118-126 | the head leaves, or comes back one period later while firings are left |
| `Alarms.AlarmService.Handler` | src/api/alarm.cc:97-135 | the machine's tick, and the alarm it fires |
| `AlarmMachine.InvStep` | src/api/alarm.cc:14-135 | after every event the deadlines are in order and no alarm is queued twice |
| `Words.KeepsSignExactly` | include/utility/list.h:193-193 | the int returned for a long rank answers "at most zero?" rightly exactly for these low 32 bits |
| `AlarmMachine.TickFiresEarliest` | src/api/alarm.cc:114-127 | a tick fires an earliest alarm, and fires exactly when a deadline has come if and only if the int keeps the sign of the ticks left; 2^31 ticks either way suffice |
| `AlarmMachine.LeavesAfterLast` | src/api/alarm.cc:118-126 | a fired alarm is out of the queue exactly when its counter stood at one |
| `AlarmMachine.CountsOff` | src/api/alarm.cc:118-126 | over every run that leaves it alone an alarm with n firings left fires n times at most, what is left of its counter is n less the firings, and it is queued exactly while something is left |
| `AlarmMachine.FiresExactly` | src/api/alarm.cc:97-135 | given the time, a finite alarm fires exactly as often as its counter says and then is used up |
| `AlarmMachine.CreatedWith` | src/api/alarm.cc:14-34 | an alarm created with ticks to wait has all of its firings left |
| `AlarmMachine.SilentRun` | src/api/alarm.cc:14-135 | an alarm that is not queued does not fire in any run that neither creates nor resets it |
| `AlarmMachine.OutOfQueue` | src/api/alarm.cc:14-50 | which is so after its destruction, and for an alarm created with no ticks |
| `AlarmMachine.ExhaustedResetIsEndless` | src/api/alarm.cc:52-66 | after its last firing an alarm stays out and silent; once reset it stays queued over every run that does not destroy it, and its counter is INFINITE from its next firing on |
| `AlarmMachine.EndlessFires` | src/api/alarm.cc:97-135 | an alarm whose counter is 0 or INFINITE fires m times within m periods, n ticks of lateness in each, for every m |
| `AlarmMachine.DueAdvances` | src/api/alarm.cc:97-135 | no event puts anything in front of a due alarm, and each tick moves it up or fires it, with n alarms queued, n up to 2^31 |
| `AlarmMachine.DueFires` | src/api/alarm.cc:97-135 | over every run with at most n alarms queued, n up to 2^31, a due alarm with k ahead fires within k + 1 ticks |
| `AlarmMachine.LatenessBound` | src/api/alarm.cc:97-135 | over every such run an alarm becoming due with k ahead fires no earlier than its deadline and at most k ticks after it |
| `AlarmMachine.DeadlineMet` | src/api/alarm.cc:97-135 | over every run with at most n alarms queued, whatever is queued no more than 2^31 ticks ahead, among others of any period, fires between its deadline and n ticks after it |
| `AlarmMachine.PromptStep` | src/api/alarm.cc:14-135 | with at most n alarms queued, every event keeps an alarm with i ahead of it less than n - i ticks late |
| `AlarmMachine.RunKeepsTime` | src/api/alarm.cc:14-135 | over every run short periods keep every deadline within 2^31 ticks, and at most n alarms queued keep lateness within n |
| `AlarmMachine.StartKeepsTime` | src/api/alarm.cc:14-135 | so it is for every run from the empty queue |
| `AlarmMachine.NeverEarly` | src/api/alarm.cc:97-135 | over every run an alarm queued no more than 2^31 ticks ahead does not fire before its deadline, whatever the periods of the others |
| `AlarmMachine.OwnStep` | src/api/alarm.cc:14-135 | no event but its own destruction or reset takes this from an alarm with a period of at most 2^31 ticks |
| `AlarmMachine.PeriodKept` | src/api/alarm.cc:97-135 | the firings of an alarm of at most 2^31 ticks are at least its period apart in every run |
| `AlarmLimits.NeverEarlyExactly` | src/api/alarm.cc:14-135 | in every run, from every state, an alarm created and left alone fires no earlier than its ticks say, exactly when they are at most 2^31 |
| `AlarmLimits.OnTimeExactly` | src/api/alarm.cc:114-117 | an alarm created alone fires first when the low 32 bits of its ticks say so, which is its deadline exactly for at most 2^31 ticks, and earlier above |
| `AlarmLimits.LongAlarmFiresAtOnce` | src/api/alarm.cc:114-117 | 2^31 + 1 ticks: the alarm fires at the first tick |
| `AlarmLimits.CrowdWaits` | src/api/alarm.cc:52-127 | a run with 2^31 + 1 alarms queued at once: the last is due, reads as not due, and fires 2^31 ticks later |
| `HeapMachine.GrossSuffices` | include/utility/heap.h:37-47 | the block has room for prefix and request exactly when the size does not wrap |
| `HeapMachine.GrossLeast` | include/utility/heap.h:37-47 | for a request that does not wrap the block is the least of at least 32 bytes that holds prefix and request, a multiple of a word where the processor needs that |
| `HeapMachine.GrossTooSmall` | include/utility/heap.h:37-47 | a request 8 bytes below the wrap is turned into the smallest block |
| `HeapMachine.FitsIsEnough` | include/utility/list.h:1392-1399 | the fitting test keeps room for a header, for every block that holds one, exactly when size + header does not wrap; short of that a block fits exactly if it has the size or a header more, and beyond it every block fits |
| `HeapMachine.ServableExactly` | include/utility/list.h:1392-1432 | the first fitting block is split with room for a header or handed out whole exactly for a servable request: no wrap, no free block, or a first block of just its size |
| `Heaps.GroupingList.SearchSize` | include/utility/list.h:1392-1399 | the first block that fits |
| `Heaps.GroupingList.SearchLeft` | include/utility/list.h:1439-1443 | the block that ends at an address, null exactly when there is none |
| `Heaps.GroupingList.InsertMerging` | include/utility/list.h:1401-1420 | the list becomes the merged one and the grouped size grows by the block and does not wrap |
| `Heaps.GroupingList.SearchDecrementing` | include/utility/list.h:1422-1436 | the end of the first fitting block is taken and the grouped size shrinks by it, in unsigned long arithmetic; nothing wraps for a servable request |
| `HeapMachine.TakeKeeps` | include/utility/list.h:1427-1432 | free blocks stay disjoint, apart and large enough, and the piece taken overlaps nothing |
| `HeapMachine.TakeHolds` | include/utility/list.h:1427-1432 | the piece and what stays free are exactly the addresses that were free |
| `HeapMachine.MergeKeeps` | include/utility/list.h:1404-1419 | after merging no two free blocks overlap or touch, and exactly the block's addresses have become free |
| `HeapMachine.MergeSizes` | include/utility/list.h:1404-1419 | the sizes add up across a merge |
| `HeapMachine.TakeSizes` | include/utility/list.h:1427-1432 | and across an allocation |
| `HeapMachine.SizesBound` | include/utility/list.h:1386-1404 | the grouped size of every list of disjoint blocks fits an unsigned long |
| `HeapMachine.ObtainInv` | include/utility/heap.h:33-64 | a servable allocation keeps free and live blocks a partition of the memory owned, and hands out memory that was free |
| `HeapMachine.ObtainExactly` | include/utility/heap.h:33-64 | an allocation keeps the partition exactly when its request is servable; otherwise the size left wraps |
| `HeapMachine.WrappedRequest` | include/utility/heap.h:33-64 | one free block of 64 bytes and a request 40 bytes below the wrap: the block is found and what is handed out starts at an address not owned |
| `HeapMachine.ReleaseInv` | include/utility/heap.h:66-74 | freeing keeps the partition |
| `HeapMachine.DonateInv` | include/utility/heap.h:27-31 | so does giving the heap a new region |
| `HeapMachine.RunInv` | include/utility/heap.h:27-87 | the partition holds after every history |
| `HeapMachine.Coalesced` | include/utility/heap.h:66-74 | with nothing live the free blocks are exactly the maximal runs of the memory owned |
| `HeapMachine.EverythingFreed` | include/utility/heap.h:27-87 | after every history, of any number of regions given, that frees everything, the free blocks are exactly the maximal runs of the memory owned |
| `HeapMachine.OneArenaFreed` | include/utility/heap.h:27-87 | given one arena, exactly one block, the arena, remains |
| `HeapMachine.HeadersApart` | include/utility/heap.h:66-74 | the header in each free block avoids every live block and every other header |
| `HeapMachine.HeaderWritesSpare` | include/utility/heap.h:33-87 | no operation has a list field to write inside a block that stays live |
| `HeapMachine.StepAligned` | include/utility/heap.h:37-41 | with word regions and rounded sizes every block stays on a word |
| `Heaps.Heap.constructor` | include/utility/heap.h:27-31 | an arena that is too small or at address 0 is ignored |
| `Heaps.Heap.GrossSize` | include/utility/heap.h:37-47 | rounding loop, prefix and minimum, with the wrap of unsigned long |
| `Heaps.Heap.Alloc` | include/utility/heap.h:33-64 | for every request: null when nothing is asked for or no block fits, else the machine's step and the payload of the piece; the heap stays valid, and null means just that, exactly when the request is servable |
| `Heaps.Heap.Free` | include/utility/heap.h:66-74 | the machine's step, or nothing for null and for less than a header |
| `Heaps.Heap.TypedFree` | include/utility/heap.h:76-81 | the words in front of the payload lead to the right heap and block |
| `Heaps.Heap.UntypedFree` | include/utility/heap.h:83-87 | the word in front of the payload leads to the block |
| `SchedulingLists.SchedulingList.Insert` | include/utility/list.h:1071-1082 | runs on a free head, else is queued in order |
| `SchedulingLists.SchedulingList.Remove` | include/utility/list.h:1198-1211 | the machine's remove() on pointers, ranks and links: a thread running here is replaced by the head of the list, a queued one leaves, and for any other another thread leaves or the size falls short by one |
| `SchedulingLists.SchedulingList.Choose` | include/utility/list.h:1213-1222 | the machine's choose() on pointers, ranks and links |
| `SchedulingLists.SchedulingList.ChooseAnother` | include/utility/list.h:1224-1234 | the machine's choose_another() on pointers, ranks and links |
| `SchedulingMachine.ChosenApart` | include/utility/list.h:1155-1251 | no thread is chosen on two heads, none is both chosen and queued |
| `SchedulingMachine.InsertMembers` | include/utility/list.h:1185-1196 | insertion adds the thread and nothing else, in order |
| `SchedulingMachine.InsertInv` | include/utility/list.h:1185-1196 | and keeps every thread in one place |
| `SchedulingMachine.InsertRuns` | include/utility/list.h:1185-1196 | after an insertion the head is taken, by the new thread exactly when it was free, and then the list is as it was |
| `SchedulingMachine.ChooseInv` | include/utility/list.h:1213-1222 | choose() loses and duplicates no thread and keeps the list sorted |
| `SchedulingMachine.ChooseStays` | include/utility/list.h:1213-1222 | the running thread stays exactly when it strictly outranks all queued ones; otherwise the first of the best queued ones runs |
| `SchedulingMachine.ChooseKeepsBest` | include/utility/list.h:1213-1222 | the head that chooses gets a best thread and every other head stays as good as it was |
| `SchedulingMachine.RefillKeepsBest` | include/utility/list.h:1198-1211 | removing the running thread leaves every head no worse than the queue |
| `SchedulingMachine.RemoveQueuedKeepsBest` | include/utility/list.h:1198-1211 | so does removing a queued thread, and nothing else is lost |
| `SchedulingMachine.RemoveTakes` | include/utility/list.h:1198-1211 | whatever is removed, at most one thread goes, the others stay, in order |
| `SchedulingMachine.RemoveHandsOver` | include/utility/list.h:1198-1211 | removing the thread that runs hands its head to the first of the list, a best one, or leaves it free with nobody waiting; the other heads run on, as good as they were |
| `SchedulingMachine.FreeStaysEmpty` | include/utility/list.h:1071-1111 | in a list with one head a free head has an empty list, through every operation |
| `SchedulingMachine.RemoveExactly` | include/utility/list.h:1198-1211 | removal takes out the thread asked for, and nothing else, exactly when it is queued or runs on the head of the caller |
| `SchedulingMachine.RemoveOnOtherHead` | include/utility/list.h:1198-1211 | for a thread running on one head and removed on another: exactly when these are the same |
| `SchedulingMachine.ChooseAnotherInv` | include/utility/list.h:1224-1234 | choose_another() loses nothing and runs the head of the list, a different thread, unless only idle ones wait |
| `SchedulingMachine.ChooseAnotherChanges` | include/utility/list.h:1224-1234 | choose_another() runs another thread exactly when the first to wait is not idle, and is without effect otherwise |
| `SchedulingMachine.ChooseAnotherUnlessIdle` | include/utility/list.h:1224-1234 | with no rank beyond idle: exactly when some thread that is not idle waits |
| `SchedulingMachine.AllHeadsRunBest` | include/utility/list.h:1213-1222 | once every head has chosen, in any order, the threads running are distinct and none of those waiting outranks any of them |
| `SchedulingMultilists.SchedulingMultilist.constructor` | include/utility/list.h:1280-1280 | every list empty, every slot free |
| `SchedulingMultilists.SchedulingMultilist.Insert` | include/utility/list.h:1308-1310 | the thread is in the list of its number and all others stay where they were |
| `SchedulingMultilists.SchedulingMultilist.Remove` | include/utility/list.h:1312-1314 | the thread is nowhere any more, and nothing else is lost, exactly when it is queued in the list of its number or runs there on the head of the caller; for any other the machine's step, or a list whose size falls short by one |
| `SchedulingMultilists.SchedulingMultilist.Settle` | include/utility/list.h:1317-1320 | a chosen thread of another queue moves there, pointers and links included |
| `SchedulingMultilists.SchedulingMultilist.Choose` | include/utility/list.h:1316-1323 | no thread lost; the one running belongs to the queue and is a best one; null exactly when the thread left and nobody waits |
| `SchedulingMultilists.SchedulingMultilist.ChooseAnother` | include/utility/list.h:1325-1332 | no thread lost; the one running belongs to the queue |
| `MultilistMachine.SettleKeeps` | include/utility/list.h:1317-1320 | the thread is in exactly one place and every list sorted and of its own number |
| `MultilistMachine.MChooseKeeps` | include/utility/list.h:1316-1323 | over all lists each thread stays in one place; the thread chosen ranks no worse than those of its queue |
| `MultilistMachine.MChooseRotates` | include/utility/list.h:1316-1323 | on a tie a different thread runs: the old one stays exactly when it is strictly best |
| `MultilistMachine.MChooseAnotherKeeps` | include/utility/list.h:1325-1332 | over all lists each thread stays in one place |
| `MultilistMachine.MChooseAnotherChanges` | include/utility/list.h:1325-1332 | once settled, choose_another() runs another thread exactly when the first to wait in the queue is not idle, and is without effect otherwise |
| `MultilistMachine.AllFreeStayEmpty` | include/utility/list.h:1308-1332 | in lists with one head a free head has an empty list, through every operation |
| `MultilistMachine.MInsertKeeps` | include/utility/list.h:1308-1310 | insertion adds exactly the thread to all lists together |
| `MultilistMachine.MRemoveKeeps` | include/utility/list.h:1312-1314 | whatever is removed, one thread at most goes, every other stays in its one place, and every list sorted and of its own number |
| `MultilistMachine.MRemoveExactly` | include/utility/list.h:1312-1314 | removal takes the thread, and nothing else, out of all lists together exactly when it is queued in the list of its number or runs there on the head of the caller |
| `MultilistMachine.RunningRemovedExactly` | include/utility/list.h:1312-1314 | a running thread is taken out exactly when it still has the number of its list and runs on the head of the caller; otherwise it stays chosen |
| `MultilistMachine.RemovalLosesAnother` | include/utility/list.h:1312-1314 | a running thread given to another queue and then removed: the thread waiting there is lost, and the one removed runs on |
| `MultilistMachine.MRetagKeeps` | include/utility/list.h:1316-1320 | a running thread that changes rank or queue number stays in its one place |
| `Barriers.Barrier.Step` | include/architecture/cpu.h:143-160 | each atomic step on the shared counters is the machine's |
| `BarrierMachine.NextInv` | include/architecture/cpu.h:143-160 | every step of every core keeps the round invariant, for any number of cores |
| `BarrierMachine.NobodyLeavesEarly` | include/architecture/cpu.h:152-158 | no core leaves its n-th call before all have entered theirs; no core is more than one round ahead |
| `BarrierMachine.SafeInEveryRun` | include/architecture/cpu.h:143-160 | the same after every interleaving from the start |
| `BarrierMachine.CounterCountsRound` | include/architecture/cpu.h:149-151 | a core about to increment reads on its counter exactly the arrivals of its round: the first reads 0 |
| `BarrierMachine.NoDeadlock` | include/architecture/cpu.h:152-158 | with every core inside, one of them has a step to take |
| `BarrierMachine.StepsWork` | include/architecture/cpu.h:143-160 | every step but a futile wait is one unit of work |
| `BarrierMachine.RoundsFollowWork` | include/architecture/cpu.h:143-160 | work and rounds completed bound each other, 4N + 2 steps a round: cores that keep stepping keep completing rounds |
| `BalanceMachine.Look` | src/api/scheduler_ea_pedf_rv64.cc:721-726 | a move looked at replaces the best so far exactly when it beats it and the threshold |
| `BalanceMachine.NothingQualifies` | src/api/scheduler_ea_pedf_rv64.cc:721-722 | at a threshold of one or more nothing can be selected, since a variance is never negative |
| `LoadBalancers.LoadBalancer.ActivityVariance` | src/api/scheduler_ea_pedf_rv64.cc:821-836 | the sum of the squared distances of the cores' activities from their mean |
| `BalanceMachine.VarianceLeast` | src/api/scheduler_ea_pedf_rv64.cc:821-836 | the squared distances from any c add up to the variance and n - 1 times that of c from the mean: the variance is the least such sum, reached at the mean only |
| `BalanceMachine.VarianceIs` | src/api/scheduler_ea_pedf_rv64.cc:821-836 | it is the sum of the squares less the squared sum over n - 1 |
| `BalanceMachine.VarianceZero` | src/api/scheduler_ea_pedf_rv64.cc:821-836 | and zero exactly when all counting cores are equally loaded |
| `LoadBalancers.LoadBalancer.Accumulate` | src/api/scheduler_ea_pedf_rv64.cc:626-654 | each core's activity is the sum over its threads |
| `BalanceMachine.LoadsAddUp` | src/api/scheduler_ea_pedf_rv64.cc:626-654 | the counting cores together carry the activity of each thread on one of them exactly once |
| `BalanceMachine.LoadOnNone` | src/api/scheduler_ea_pedf_rv64.cc:626-654 | a core without a thread carries nothing |
| `BalanceMachine.MovedLoads` | src/api/scheduler_ea_pedf_rv64.cc:706-780 | the loads tried for a move are those of the threads on their new cores |
| `LoadBalancers.LoadBalancer.SearchMigrations` | src/api/scheduler_ea_pedf_rv64.cc:706-737 | every activity is back to its value; the migration selected is the first of least variance over all unlocked ones and qualifies, or none qualifies |
| `BalanceMachine.MigrationLeast` | src/api/scheduler_ea_pedf_rv64.cc:706-737 | no unlocked migration has less variance than the one selected, and where none is selected none qualifies |
| `LoadBalancers.LoadBalancer.SearchSwaps` | src/api/scheduler_ea_pedf_rv64.cc:740-780 | the same over all unlocked swaps |
| `BalanceMachine.SwapLeast` | src/api/scheduler_ea_pedf_rv64.cc:740-780 | the same of every unlocked swap |
| `LoadBalancers.LoadBalancer.Search` | src/api/scheduler_ea_pedf_rv64.cc:706-781 | a swap is looked for only where no single migration qualifies |
| `LoadBalancers.LoadBalancer.Commit` | src/api/scheduler_ea_pedf_rv64.cc:783-815 | the threads are told where to go and the move is remembered for revocation |
| `LoadBalancers.LoadBalancer.Revoke` | src/api/scheduler_ea_pedf_rv64.cc:586-615 | both threads go back and nobody else, both cores left are locked, the threshold rises, the frequency is the highest and the cooldown starts; without a migration nothing changes |
| `LoadBalancers.LoadBalancer.BalanceLoad` | src/api/scheduler_ea_pedf_rv64.cc:579-819 | one call is one step of the bookkeeping: revocation, nothing, or a search and its commitment, by the flags and the levels; and what it leaves of level, cooldown, flags, targets and the migration remembered |
| `LoadBalancers.LoadBalancer.Predict` | src/api/scheduler_ea_pedf_rv64.cc:496-577 | short of the margin now: highest frequency; else one level down exactly when every core votes for it |
| `LoadBalancers.LoadBalancer.DeadlineMissed` | src/api/scheduler_ea_pedf_rv64.cc:419-432 | highest frequency, cooldown, no longer balanced, a revocation asked for; the bookkeeping is left alone |
| `LoadBalancers.LoadBalancer.Hyperperiod` | src/api/scheduler_ea_pedf_rv64.cc:148-172 | on cooldown nothing but the count of the cooldown; otherwise prediction, and a balancing step exactly when the frequency did not go down, with what both leave of level, cooldown, flags and targets |
| `BalanceMachine.CooldownLasts` | src/api/scheduler_ea_pedf_rv64.cc:163-168 | from a counter of k the cooldown takes exactly k + 1 hyperperiods |
| `BalanceMachine.CommitFresh` | src/api/scheduler_ea_pedf_rv64.cc:714-803 | a commitment needs a threshold below one and sets out where no lock is set |
| `BalanceMachine.RevocationLocks` | src/api/scheduler_ea_pedf_rv64.cc:590-599 | a revocation sets exactly the locks of the cores left, which were clear |
| `BalanceMachine.AtMostSevenRevocations` | src/api/scheduler_ea_pedf_rv64.cc:581-618 | over every run at most seven revocations happen |
| `BalanceLimits.SevenReached` | src/api/scheduler_ea_pedf_rv64.cc:581-618 | and seven revocations do happen, in a run that leaves the threshold at 1.1 |
| `Semaphores.Semaphore.P` | src/api/semaphore.cc:29-37 | the value goes down; the thread sleeps, in rank order, exactly when none was left |
| `Semaphores.Semaphore.V` | src/api/semaphore.cc:40-48 | the value goes up; the first sleeper wakes exactly when the value was negative and there is one |
| `Semaphores.SleepersExactly` | src/api/semaphore.cc:7-48 | after every run of p and v there are as many sleepers as the value is negative, exactly when the initial value is not negative |
| `Semaphores.GapRun` | src/api/semaphore.cc:29-48 | sleepers never outnumber the shortfall, and what is missing never grows: once they agree they agree for good |
| `BoundedBuffers.BoundedBuffer.ProducerStep` | app/producer_consumer/producer_consumer.cc:127-143 | each step of the producer on buffer, index and semaphores is the machine's |
| `BoundedBuffers.BoundedBuffer.ConsumerStep` | app/producer_consumer/producer_consumer.cc:146-160 | each step of the consumer is the machine's, and what it reads is appended to the items read |
| `BufferMachine.ProducerInv` | app/producer_consumer/producer_consumer.cc:133-140 | every producer step keeps counters, sleepers and buffer contents in agreement |
| `BufferMachine.ConsumerInv` | app/producer_consumer/producer_consumer.cc:152-158 | so does every consumer step |
| `BufferMachine.EveryInterleaving` | app/producer_consumer/producer_consumer.cc:127-160 | in every interleaving the n-th read returns the n-th write, 0 to 16 items are in between, and each semaphore has max(0, -value) sleepers |
| `BufferMachine.NoDeadlock` | app/producer_consumer/producer_consumer.cc:127-160 | until both are done one of them can step |
| `BufferMachine.Progress` | app/producer_consumer/producer_consumer.cc:127-160 | every step counts towards a bounded total reached exactly when both are done |
| `BufferMachine.AllRead` | app/producer_consumer/producer_consumer.cc:127-160 | at the end everything written has been read, in order |
| `Crcs.Crc16` | include/utility/crc.h:13-28 | the loops leave the remainder of the message polynomial times x^16; nothing for a size of zero or less |
| `Crcs.StepPoly` | include/utility/crc.h:20-23 | one bit multiplies by x and takes the generator off exactly when x^16 appears |
| `Crcs.MessageCoefficient` | include/utility/crc.h:13-28 | the message polynomial: first byte and first bit highest |
| `Crcs.CrcIsRemainder` | include/utility/crc.h:13-28 | for every message the register is the remainder modulo x^16 + x^12 + x^5 + 1 |
| `Polynomials.RemainderUnique` | include/utility/crc.h:13-28 | a polynomial has one such remainder only |
| `Crcs.CrcLinear` | include/utility/crc.h:13-28 | the CRC of an xor of equally long messages is the xor of the CRCs |
| `Crcs.CrcOfChecked` | include/utility/crc.h:13-28 | a message followed by its CRC, high byte first, has CRC 0 |
| `SimpleLists.SimpleOrderedList.Insert` | include/utility/list.h:517-541 | the element goes behind every key not above its own |
| `SimpleLists.SimpleOrderedList.Remove` | include/utility/list.h:407-422 | exactly the element leaves the singly linked list |
| `SimpleLists.SimpleOrderedList.SearchRank` | include/utility/list.h:564-568 | the first element of the key, null exactly when there is none |
| `Hashes.SimpleHash.Insert` | include/utility/hash.h:91-94 | the element is stored besides all others, in the slot of its key or, if that is taken, behind the synonyms of its key |
| `Hashes.SimpleHash.SearchKey` | include/utility/hash.h:115-120 | an element of the key exactly when one is stored, that of the slot first |
| `Hashes.SimpleHash.RemoveKey` | include/utility/hash.h:122-127 | one element of the key leaves exactly when one is stored |
| `Hashes.SimpleHash.Remove` | include/utility/hash.h:96-100 | exactly the stored element leaves |
| `Hashes.SimpleHash.ListingIsStored` | include/utility/hash.h:84-89 | slots and synonyms list each stored element once, and the sizes add up to their number |
| `Hashes.Forward.Advance` | include/utility/hash.h:36-52 | one step to the next element of the listing, or to the end behind the last |
| `Hashes.Iterate` | include/utility/hash.h:76-82 | from begin to end each stored element is visited exactly once |

## Left out

- The encryption of the nonce in Poly1305: its result is an arbitrary 128-bit number. AES is not part of this model.
- Associativity of the curve group: the affine multiples are those of the double-and-add that the loop takes, each
  step a tangent or chord result. The degenerate steps, after which the last z is not invertible, have no affine
  meaning here.
- `multiply_by_two`, `randomize` and `^=` of big numbers, and the stream operators.
- `Alarm::period`, which queues the alarm again with what is left of its rank, and `Alarm::delay`.
- `choose(e)` of the scheduling lists, the typed lists and the list iterators.
- `Heaps.Heap.TypedFree`: list elements are objects beside the memory of prefix words. That the fields the source
  keeps in the first words of free blocks stay off live blocks is `HeaderWritesSpare`, not part of its frame.
- `Heaps.Heap.UntypedFree`: the same.
- `Heaps.Heap.Alloc`: what a caller writes into its payload is not modelled; the prefix words stay as written.
- `Atomic_Heap`, whose methods take a spin lock around those of the heap.
- Context switching: `sleep` and `wakeup` change the semaphore's queue only.
- The two-task variant of the producer and consumer, and the payload `'a' + in`: the items are arbitrary.
- Memory models weaker than sequential consistency for the barrier; toggling i is one step, since core 0 alone writes
  it.
- The neural network, its training, the activity weights and the collection of counters in the balancer, and how and
  when a running thread follows a migration it was told of.
- `Hash`, the variant with a synonym list for each key, and search and removal by object in `Simple_Hash`.
- Hardware, the component framework and initialisation.

/** What every run of allocator operations keeps. */
module AllocatorRuns {
  import opened Words
  import opened Seqs
  import opened Layouts
  import opened LayoutInvariants
  import opened CompactionProofs

  datatype Op = AllocOp(elemSize: word) | FreeOp(i: word) | GrowOp(m: word) | ResizeOp(i: word, n: word) | CompactOp

  /** A layout together with PoolSize, which the program keeps apart from DataspaceSize. */
  datatype Pool = Pool(lay: Layout, poolSize: nat) {
    ghost predicate Inv() {
      lay.Inv() && poolSize == lay.base + lay.dsSize
    }
  }

  /** The test and the addition that the operations make on PoolSize, a ULONG, to get size bytes at its aligned end. */
  function Bumped(poolSize: nat, size: word): (Status, nat) {
    var at := Align4(poolSize) % 0x1_0000_0000;
    var end := (at + size) % 0x1_0000_0000;
    if end >= POOL_MAX_SIZE then (ErrMem, at) else (NoErr, end)
  }

  /** The operation names an array in use other than the table, and the new count of vectors fits a word. */
  ghost predicate Addressed(L: Layout, op: Op) {
    match op
    case AllocOp(_) => true
    case FreeOp(i) => i in L.used && i != 0
    case GrowOp(m) => |L.d| + m < 0x1_0000
    case ResizeOp(i, _) => i in L.used && i != 0
    case CompactOp => true
  }

  function Step(P: Pool, op: Op): Pool
    requires P.Inv() && Addressed(P.lay, op)
  {
    var L, poolSize := P.lay, P.poolSize;
    match op
    case AllocOp(elemSize) =>
      Pool(AllocVector(L, elemSize).1,
           if L.free != [] then poolSize else Bumped(poolSize, ToWord(VECTOR_SIZE * (|L.d| + GROWTH_COUNT))).1)
    case FreeOp(i) => Pool(FreeVector(L, i), poolSize)
    case GrowOp(m) => Pool(Grow(L, m).1, Bumped(poolSize, ToWord(VECTOR_SIZE * (|L.d| + m))).1)
    case ResizeOp(i, n) =>
      Pool(Resize(L, i, n).1, if InPlace(L, i, n) then poolSize else Bumped(poolSize, ToWord(n * L.d[i].elemSize)).1)
    case CompactOp =>
      Pool(Compact(L), (poolSize - ToWord(L.dsSize - Compact(L).dsSize)) % 0x1_0000_0000)
  }

  /** The one array whose contents an operation may change, or 0 */
  function Target(op: Op): nat {
    match op
    case FreeOp(i) => i
    case ResizeOp(i, _) => i
    case _ => 0
  }

  /** What can go wrong, unless there is no room anyway: a table whose size does not fit a word and a resize the code
      measures wrongly; and a compaction that needs a larger dataspace. */
  ghost predicate Safe(L: Layout, op: Op)
    requires L.Inv() && Addressed(L, op)
  {
    match op
    case AllocOp(_) => true
    case FreeOp(_) => true
    case GrowOp(m) => Full(L, ToWord(VECTOR_SIZE * (|L.d| + m))) || VECTOR_SIZE * (|L.d| + m) < 0x1_0000
    case ResizeOp(i, n) => (!InPlace(L, i, n) && Full(L, ToWord(n * L.d[i].elemSize))) || ResizeSafe(L, i, n)
    case CompactOp => CompactSafe(L)
  }

  /** The conditions on room are the ones under which the code reports a lack of memory. */
  lemma SafeByStatus(L: Layout, op: Op)
    requires L.Inv() && Addressed(L, op)
    ensures op.GrowOp? ==> (Safe(L, op) <==> Grow(L, op.m).0.ErrMem? || VECTOR_SIZE * (|L.d| + op.m) < 0x1_0000)
    ensures op.ResizeOp? ==> (Safe(L, op) <==> Resize(L, op.i, op.n).0.ErrMem? || ResizeSafe(L, op.i, op.n))
  {
    hide Layout.Inv, Resize, Grow, ResizeSafe, Full, InPlace, ToWord;
    LayoutFacts(L);
    match op
    case GrowOp(m) => GrowFailsExactly(L, m);
    case ResizeOp(i, n) => ResizeFailsExactly(L, i, n);
    case _ =>
  }

  /** PoolSize and DataspaceSize agree on whether there is room, and end in step. */
  lemma BumpedInStep(L: Layout, size: word)
    requires L.base % 4 == 0 && L.base + L.dsSize <= POOL_MAX_SIZE
    ensures var at := Align4(L.dsSize);
      Bumped(L.base + L.dsSize, size) ==
        if L.base + at + size >= POOL_MAX_SIZE then (ErrMem, L.base + at) else (NoErr, L.base + at + size)
  {
    Align4Sum(L.base, L.dsSize);
    Align4Whole(L.dsSize);
  }

  /** Every operation but compaction moves PoolSize with DataspaceSize. */
  lemma PoolSizeFollows(P: Pool, op: Op)
    requires P.Inv() && Addressed(P.lay, op) && !op.CompactOp?
    ensures Step(P, op).poolSize == P.lay.base + Step(P, op).lay.dsSize
    ensures Step(P, op).lay.base == P.lay.base
  {
    hide Layout.Fits, Layout.Ordered, Layout.FreeOk, NoDup, Disjoint, Bumped, Align4, ToWord, Without, Room;
    var L := P.lay;
    match op
    case AllocOp(_) => BumpedInStep(L, ToWord(VECTOR_SIZE * (|L.d| + GROWTH_COUNT)));
    case FreeOp(_) =>
    case GrowOp(m) => BumpedInStep(L, ToWord(VECTOR_SIZE * (|L.d| + m)));
    case ResizeOp(i, n) => BumpedInStep(L, ToWord(n * L.d[i].elemSize));
  }

  /** Compaction subtracts a word from PoolSize, so that PoolSize follows exactly when the dataspace does not grow. */
  lemma PoolSizeAfterCompaction(P: Pool)
    requires P.Inv()
    ensures Step(P, CompactOp).poolSize == P.lay.base + Compact(P.lay).dsSize <==> CompactSafe(P.lay)
  {
    hide Layout.Fits, Layout.Ordered, Layout.FreeOk, NoDup, Disjoint, CompactSafe, Compact, ToWord;
    CompactBounds(P.lay);
    ShrinkArithmetic(P.lay.base, P.lay.dsSize, Compact(P.lay).dsSize);
    CompactShrinksExactly(P.lay);
  }

  lemma StepKeepsPlace(P: Pool, op: Op)
    requires P.Inv() && Addressed(P.lay, op)
    ensures Step(P, op).lay.base == P.lay.base && Step(P, op).lay.staticSize == P.lay.staticSize
  {
    hide Layout.Inv, Room, Without, Compacted, Pos, Bumped, ToWord;
  }

  /** A step keeps the invariant exactly when it is safe. */
  lemma StepKeepsInvExactly(P: Pool, op: Op)
    requires P.Inv() && Addressed(P.lay, op)
    ensures Step(P, op).Inv() <==> Safe(P.lay, op)
  {
    hide Layout.Inv, Resize, ResizeSafe, Grow, Full, InPlace, CompactSafe, Compact, AllocVector, FreeVector, Bumped,
      ToWord;
    var L := P.lay;
    StepKeepsPlace(P, op);
    SafeByStatus(L, op);
    if !op.CompactOp? { PoolSizeFollows(P, op); }
    match op
    case AllocOp(elemSize) => AllocVectorKeepsInv(L, elemSize);
    case FreeOp(i) => FreeVectorKeepsInv(L, i);
    case GrowOp(m) => GrowKeepsInvExactly(L, m);
    case ResizeOp(i, n) => ResizeKeepsInvExactly(L, i, n);
    case CompactOp =>
      CompactKeepsInv(L);
      PoolSizeAfterCompaction(P);
  }

  ghost predicate SafeRun(P: Pool, ops: seq<Op>)
    requires P.Inv()
    decreases |ops|
  {
    ops == [] ||
    (Addressed(P.lay, ops[0]) && Safe(P.lay, ops[0]) &&
     (StepKeepsInvExactly(P, ops[0]); SafeRun(Step(P, ops[0]), ops[1..])))
  }

  function Run(P: Pool, ops: seq<Op>): Pool
    requires P.Inv() && SafeRun(P, ops)
    decreases |ops|
  {
    if ops == [] then P
    else
      StepKeepsInvExactly(P, ops[0]);
      Run(Step(P, ops[0]), ops[1..])
  }

  /** Over every safe run, of any length, the layout stays valid, PoolSize stays the end of the dataspace, and both
      describe the same pool and static data. */
  lemma {:induction false} RunKeepsInv(P: Pool, ops: seq<Op>)
    requires P.Inv() && SafeRun(P, ops)
    ensures Run(P, ops).Inv()
    ensures Run(P, ops).lay.base == P.lay.base && Run(P, ops).lay.staticSize == P.lay.staticSize
    decreases |ops|
  {
    hide Pool.Inv, Step, Safe, Addressed;
    if ops != [] {
      StepKeepsInvExactly(P, ops[0]);
      StepKeepsPlace(P, ops[0]);
      RunKeepsInv(Step(P, ops[0]), ops[1..]);
    }
  }

  /** The used and the free list partition the vectors. */
  lemma ListsPartition(L: Layout, x: nat)
    requires L.Inv() && x < |L.d|
    ensures x in L.used <==> x !in L.free
  {
    if x !in L.used && x !in L.free {
      var all := L.used + L.free + [x];
      assert NoDup(all) && Below(all, |L.d|);
      NoMoreThan(all, |L.d|);
    }
  }

  /** Two different arrays never share a byte. */
  lemma ArraysShareNothing(L: Layout, x: nat, y: nat, a: nat)
    requires L.Inv() && x in L.used && y in L.used && x != y
    requires L.d[x].Allocated() && L.d[x].offset <= a < L.d[x].offset + L.d[x].Size()
    ensures !(L.d[y].Allocated() && L.d[y].offset <= a < L.d[y].offset + L.d[y].Size())
    ensures L.staticSize <= a < L.dsSize
  {
    hide Desc.Size;
    InsideDataspace(L, x);
    if L.d[y].Allocated() { Apart(L, x, y); }
  }

  // ---- where the code departs from its intent ----

  /** Vector 1 is followed by vector 2 without storage and then by vector 3. */
  const Crowded: Layout := Layout(0, 0,
    [Desc(0, 10, 4), Desc(40, 1, 4), Desc(NIL, 1, 0), Desc(44, 1, 4)], [0, 1, 2, 3], [], 48)

  lemma CrowdedIsValid()
    ensures Crowded.Inv()
  {
    var d := Crowded.d;
    assert d[0].Size() == 40 && d[1].Size() == 4 && d[2].Size() == 0 && d[3].Size() == 4;
    hide Desc.Size;
    assert d[0].Before(d[1]) && d[0].Before(d[3]) && d[1].Before(d[3]);
  }

  /** Growing in place next to an array without storage can run over the array behind it. */
  lemma GrowthPastUnallocated()
    ensures Crowded.Inv()
    ensures Resize(Crowded, 1, 8).0.NoErr? && !Resize(Crowded, 1, 8).1.Inv()
  {
    hide Layout.ListsOk, Layout.TableOk, Layout.Fits, Layout.FreeOk, NoDup, Disjoint;
    CrowdedIsValid();
    assert IndexOf(Crowded.used, 1) == 1;
    var M := Resize(Crowded, 1, 8).1;
    assert !M.d[M.used[1]].Before(M.d[M.used[3]]);
  }

  /** A size of 65536 bytes reads as 0 and grows in place. */
  lemma GrowthPastWord()
    ensures var L := Layout(0, 0, [Desc(0, 10, 2), Desc(20, 2, 2)], [0, 1], [], 24);
      L.Inv() && Resize(L, 1, 32768).0.NoErr? && !Resize(L, 1, 32768).1.Inv()
  {
    var L := Layout(0, 0, [Desc(0, 10, 2), Desc(20, 2, 2)], [0, 1], [], 24);
    assert L.d[0].Size() == 20;
    assert IndexOf(L.used, 1) == 1;
    var M := Resize(L, 1, 32768).1;
    assert M.d[1].Size() == 65536;
    assert !M.d[M.used[1]].Within(0, 24);
  }

  /** The last listed vector has no storage and the dataspace ends at an odd address. */
  const Lopsided: Layout := Layout(0, 0, [Desc(0, 10, 3), Desc(32, 1, 1), Desc(NIL, 1, 0)], [0, 1, 2], [], 33)

  lemma LopsidedIsValid()
    ensures Lopsided.Inv()
  {
    var d := Lopsided.d;
    assert d[0].Size() == 30 && d[1].Size() == 1 && d[2].Size() == 0;
    hide Desc.Size;
    assert d[0].Before(d[1]);
  }

  /** A table of three vectors and nothing else */
  const Fresh: Pool := Pool(Layout(0, 0, [Desc(0, 10, 3), Blank, Blank], [0], [1, 2], 30), 30)

  lemma FreshIsValid()
    ensures Fresh.Inv()
  {
    assert Fresh.lay.d[0].Size() == 30;
    hide Desc.Size;
  }

  /** Two allocations around the storing of one byte lead to the lopsided layout ... */
  lemma LopsidedIsReached()
    ensures var ops := [AllocOp(1), ResizeOp(1, 1), AllocOp(1)];
      Fresh.Inv() && SafeRun(Fresh, ops) && Run(Fresh, ops) == Pool(Lopsided, 33)
  {
    FreshIsValid();
  }

  /** ... and in which compaction needs a larger dataspace than there was. */
  lemma CompactionCanGrow()
    ensures Lopsided.Inv() && Compact(Lopsided).dsSize == 36 > Lopsided.dsSize && !CompactSafe(Lopsided)
  {
    hide Layout.Inv;
    LopsidedIsValid();
    assert Lopsided.d[0].Size() == 30 && Lopsided.d[1].Size() == 1;
    assert Pos(Lopsided, 0) == 0 && Pos(Lopsided, 1) == 30 && Pos(Lopsided, 2) == 33;
    CompactShrinksExactly(Lopsided);
  }

  /** After an unsafe compaction PoolSize is close to 2 to the 32, and every request for fewer than 32768 bytes is
      refused. */
  lemma UnsafeCompactionLosesPool(P: Pool, size: word)
    requires P.Inv() && !CompactSafe(P.lay) && size < 0x8000
    ensures Bumped(Step(P, CompactOp).poolSize, size).0.ErrMem?
  {
    hide Layout.Fits, Layout.Ordered, Layout.FreeOk, NoDup, Disjoint, CompactSafe, Compacted, Pos, ToWord, Bumped;
    CompactBounds(P.lay);
    CompactShrinksExactly(P.lay);
    CompactKeepsInv(P.lay);
    assert Compact(P.lay).base == P.lay.base;
    WrappedIsFull(P.poolSize, P.lay.dsSize, Compact(P.lay).dsSize, size);
  }

  lemma WrappedIsFull(poolSize: nat, dsSize: nat, end: nat, size: word)
    requires dsSize <= poolSize && dsSize < end < dsSize + 4 && poolSize + (end - dsSize) <= POOL_MAX_SIZE && size < 0x8000
    ensures (poolSize - ToWord(dsSize - end)) % 0x1_0000_0000 == poolSize + 0xFFFF_0000 + (end - dsSize)
    ensures Bumped((poolSize - ToWord(dsSize - end)) % 0x1_0000_0000, size).0.ErrMem?
  {
    assert ToWord(dsSize - end) == 0x1_0000 - (end - dsSize);
    var lost := poolSize + 0xFFFF_0000 + (end - dsSize);
    Align4IsLeast(lost, 0xFFFF_8000);
  }
}

/** The circular buffers behind the message queues and the datalog, and the FIFOs they stand for. */
module Queues {
  import opened Words
  import opened Seqs
  import opened Layouts
  import opened LayoutInvariants
  import opened CompactionProofs
  import opened Storage

  const MESSAGES_PER_QUEUE: nat := 5
  const MESSAGE_QUEUE_COUNT: nat := 20
  const DATALOG_QUEUE_DEPTH: nat := 30
  /** The datalog buffer is kept behind the message queues. */
  const DATALOG: nat := 20

  /** MESSAGE_QUEUE and DATALOG_QUEUE: each slot is the index of a dope vector or NOT_A_DS_ID. */
  datatype Queue = Queue(readIndex: nat, writeIndex: nat, slots: seq<word>)

  function Depth(q: nat): nat {
    if q < MESSAGE_QUEUE_COUNT then MESSAGES_PER_QUEUE else DATALOG_QUEUE_DEPTH
  }

  /** Slot j places after r in a ring of n slots. */
  function Ring(r: nat, j: nat, n: nat): nat {
    if r + j < n then r + j else r + j - n
  }

  /** Queue q holds the vectors h, oldest first; every other slot is empty. */
  ghost predicate QueueOk(q: Queue, h: seq<nat>, n: nat) {
    && |q.slots| == n && q.readIndex < n && q.writeIndex < n && |h| <= n
    && q.writeIndex == Ring(q.readIndex, |h|, n)
    && (forall j :: 0 <= j < |h| ==> q.slots[Ring(q.readIndex, j, n)] == h[j])
    && (forall j :: |h| <= j < n ==> q.slots[Ring(q.readIndex, j, n)] == NIL)
  }

  lemma NextIndex(r: nat, n: nat)
    requires r < n
    ensures (r + 1) % n == Ring(r, 1, n)
  {
  }

  /** The write slot is taken exactly when the queue is full, and then it is also the read slot. */
  lemma WriteSlot(q: Queue, h: seq<nat>, n: nat)
    requires QueueOk(q, h, n)
    ensures |h| == n ==> q.writeIndex == q.readIndex && q.slots[q.writeIndex] == h[0]
    ensures |h| < n ==> q.slots[q.writeIndex] == NIL && q.writeIndex == Ring(q.readIndex, |h|, n)
  {
    if |h| == n {
      assert q.slots[Ring(q.readIndex, 0, n)] == h[0];
    } else {
      assert q.slots[Ring(q.readIndex, |h|, n)] == NIL;
    }
  }

  /** The read slot is empty exactly when the queue is, and then the write slot is the same one. */
  lemma ReadSlot(q: Queue, h: seq<nat>, n: nat)
    requires QueueOk(q, h, n)
    ensures |h| > 0 ==> q.slots[q.readIndex] == h[0]
    ensures |h| == 0 ==> q.slots[q.readIndex] == NIL && q.readIndex == q.writeIndex
  {
    if |h| > 0 {
      assert q.slots[Ring(q.readIndex, 0, n)] == h[0];
    } else {
      assert q.slots[Ring(q.readIndex, 0, n)] == NIL;
    }
  }

  lemma Push(q: Queue, h: seq<nat>, n: nat, x: word)
    requires QueueOk(q, h, n) && |h| < n
    ensures QueueOk(Queue(q.readIndex, (q.writeIndex + 1) % n, q.slots[q.writeIndex := x]), h + [x], n)
  {
    WriteSlot(q, h, n);
    NextIndex(q.writeIndex, n);
    var r := Queue(q.readIndex, (q.writeIndex + 1) % n, q.slots[q.writeIndex := x]);
    forall j | 0 <= j < n
      ensures r.slots[Ring(r.readIndex, j, n)] == if j == |h| then x else q.slots[Ring(q.readIndex, j, n)]
    {
    }
  }

  /** Dropping the oldest empties the read slot. */
  lemma Pop(q: Queue, h: seq<nat>, n: nat)
    requires QueueOk(q, h, n) && |h| > 0
    ensures QueueOk(Queue((q.readIndex + 1) % n, q.writeIndex, q.slots[q.readIndex := NIL]), h[1..], n)
  {
    NextIndex(q.readIndex, n);
    var r := Queue((q.readIndex + 1) % n, q.writeIndex, q.slots[q.readIndex := NIL]);
    forall j | 0 <= j < n
      ensures r.slots[Ring(r.readIndex, j, n)] == if j == n - 1 then NIL else q.slots[Ring(q.readIndex, j + 1, n)]
    {
    }
  }

  /** The queue while its write slot already names a vector that is not a message yet. */
  function Unclaimed(q: Queue): Queue
    requires q.writeIndex < |q.slots|
  {
    q.(slots := q.slots[q.writeIndex := NIL])
  }

  ghost predicate ClaimedOk(q: Queue, h: seq<nat>, n: nat, slot: word) {
    && q.writeIndex < |q.slots| && |h| < n
    && QueueOk(Unclaimed(q), h, n) && q.slots[q.writeIndex] == slot
  }

  lemma ClaimOldest(q: Queue, h: seq<nat>, n: nat)
    requires QueueOk(q, h, n) && |h| == n > 0
    ensures ClaimedOk(q.(readIndex := (q.readIndex + 1) % n), h[1..], n, q.slots[q.writeIndex])
    ensures q.slots[q.writeIndex] == h[0] && q.writeIndex == q.readIndex
  {
    WriteSlot(q, h, n);
    Pop(q, h, n);
  }

  lemma ClaimFresh(q: Queue, h: seq<nat>, n: nat, slot: word)
    requires QueueOk(q, h, n) && |h| < n
    ensures q.slots[q.writeIndex] == NIL
    ensures ClaimedOk(q.(slots := q.slots[q.writeIndex := slot]), h, n, slot)
  {
    WriteSlot(q, h, n);
    assert q.slots[q.writeIndex := slot][q.writeIndex := NIL] == q.slots;
  }

  lemma Commit(q: Queue, h: seq<nat>, n: nat, slot: word)
    requires ClaimedOk(q, h, n, slot)
    ensures QueueOk(q.(writeIndex := (q.writeIndex + 1) % n), h + [slot], n)
  {
    Push(Unclaimed(q), h, n, slot);
    assert q.slots[q.writeIndex := NIL][q.writeIndex := slot] == q.slots;
  }

  // ---- the vectors behind the messages ----

  /** Vector x can hold a message: in use, one byte an element. */
  ghost predicate Holds(L: Layout, x: nat) {
    x in L.used && x != 0 && x < |L.d| && L.d[x].elemSize == 1
  }

  ghost predicate AllHold(L: Layout, h: seq<nat>) {
    forall j :: 0 <= j < |h| ==> Holds(L, h[j])
  }

  function Text(L: Layout, m: seq<byte>, x: nat): seq<byte> {
    if x < |L.d| then Content(m, L.base, L.d[x]) else []
  }

  function Texts(L: Layout, m: seq<byte>, h: seq<nat>): (r: seq<seq<byte>>)
    ensures |r| == |h|
  {
    seq(|h|, j requires 0 <= j < |h| => Text(L, m, h[j]))
  }

  /** Messages whose vectors are not touched read as before. */
  lemma TextsStay(L: Layout, m: seq<byte>, M: Layout, m': seq<byte>, i: nat, h: seq<nat>)
    requires SameBut(L, m, M, m', i) && AllHold(L, h) && i !in h
    ensures AllHold(M, h) && Texts(M, m', h) == Texts(L, m, h)
  {
    hide Content;
    forall j | 0 <= j < |h| ensures Holds(M, h[j]) && Text(M, m', h[j]) == Text(L, m, h[j]) {
      assert h[j] in h;
      assert Same(L, m, M, m', h[j]);
    }
  }

  ghost predicate NotHeld(held: seq<seq<nat>>, x: nat) {
    forall q :: 0 <= q < |held| ==> x !in held[q]
  }

  /** Every array that no queue held, but for the table, reads as before and is still held by none: the arrays of
      the program. */
  ghost predicate OwnKept(L: Layout, m: seq<byte>, held: seq<seq<nat>>, M: Layout, m': seq<byte>, held': seq<seq<nat>>) {
    forall x :: x in L.used && x != 0 && NotHeld(held, x) ==> Same(L, m, M, m', x) && NotHeld(held', x)
  }

  lemma OwnKeptTrans(L: Layout, m: seq<byte>, h: seq<seq<nat>>, G: Layout, m1: seq<byte>, h1: seq<seq<nat>>,
                     M: Layout, m2: seq<byte>, h2: seq<seq<nat>>)
    requires OwnKept(L, m, h, G, m1, h1) && OwnKept(G, m1, h1, M, m2, h2)
    ensures OwnKept(L, m, h, M, m2, h2)
  {
    hide Content, NotHeld;
    forall x | x in L.used && x != 0 && NotHeld(h, x) ensures Same(L, m, M, m2, x) && NotHeld(h2, x) {
      assert Same(L, m, G, m1, x) && NotHeld(h1, x);
      assert Same(G, m1, M, m2, x);
    }
  }

  /** What changes one array at most that a queue held, and has queues hold no array but that one and fresh ones. */
  lemma OwnKeptFrom(L: Layout, m: seq<byte>, h: seq<seq<nat>>, M: Layout, m': seq<byte>, h': seq<seq<nat>>, i: nat,
                    slot: nat)
    requires SameBut(L, m, M, m', i) && |h'| == |h| && (i == 0 || !NotHeld(h, i)) && (slot in L.used ==> slot == i)
    requires forall q, x :: 0 <= q < |h| && x in h'[q] ==> x in h[q] || x == slot
    ensures OwnKept(L, m, h, M, m', h')
  {
    hide Same;
    forall x | x in L.used && x != 0 && NotHeld(h, x) ensures NotHeld(h', x) {
    }
  }

  // ---- the bounded FIFO ----

  /** Writing to a FIFO of n messages drops the oldest when it is full. */
  function FifoWrite<T>(f: seq<T>, n: nat, x: T): (r: seq<T>)
    requires |f| <= n && 0 < n
    ensures |r| <= n
  {
    (if |f| == n then f[1..] else f) + [x]
  }

  function FifoWrites<T>(f: seq<T>, n: nat, xs: seq<T>): (r: seq<T>)
    requires |f| <= n && 0 < n
    ensures |r| <= n
    decreases |xs|
  {
    if xs == [] then f else FifoWrites(FifoWrite(f, n, xs[0]), n, xs[1..])
  }

  /** After any run of writes the FIFO holds the last n of all that was ever in it, in order. */
  lemma {:induction false} FifoKeepsLast<T>(f: seq<T>, n: nat, xs: seq<T>)
    requires |f| <= n && 0 < n
    ensures var all := f + xs;
      FifoWrites(f, n, xs) == if |all| <= n then all else all[|all| - n..]
    decreases |xs|
  {
    if xs == [] {
      assert f + xs == f;
    } else {
      var g := FifoWrite(f, n, xs[0]);
      FifoKeepsLast(g, n, xs[1..]);
      var all := f + xs;
      if |f| < n {
        assert g + xs[1..] == all;
      } else {
        assert g + xs[1..] == all[1..];
      }
    }
  }

  // ---- storing a message, on layouts ----

  /** cCmdMessageWrite on the layout: slot is the vector of the dropped message, or 0 when a fresh one is needed. */
  function StoreLayout(L: Layout, slot: nat, n: word): (Status, Layout)
    requires L.Inv() && (slot != 0 ==> slot in L.used)
  {
    if slot != 0 then StoreIn(L, slot, n)
    else
      AllocVectorKeepsInv(L, 1);
      var (s, M, i) := AllocVector(L, 1);
      if s.ErrMem? then (ErrMem, M) else StoreIn(M, i, n)
  }

  /** Room for n bytes in vector i, which is freed again when there is none. */
  function StoreIn(L: Layout, i: nat, n: word): (Status, Layout)
    requires L.Inv() && i in L.used
  {
    var (s, M) := Resize(L, i, n);
    if s.NoErr? then (NoErr, M)
    else
      ResizeOthers(L, i, n);
      (ErrMem, FreeVector(M, i))
  }

  /** A store of n bytes turns layout L into M. */
  ghost predicate Stores(L: Layout, slot: nat, n: nat, ok: bool, M: Layout) {
    L.Inv() && n < 0x1_0000 && (slot != 0 ==> slot in L.used) && StoreLayout(L, slot, n) == (if ok then NoErr else ErrMem, M)
  }

  /**
   When a message of n bytes into a slot of its own finds no memory: with a vector at hand, if n bytes at the aligned end
   reach the end of the pool, and then only that end is left aligned; with none, if the table and 25 vectors of ten bytes
   more do, or n bytes behind it.
  */
  lemma StoreFailsExactly(L: Layout, n: word)
    requires L.Inv()
    ensures var (s, M) := StoreLayout(L, 0, n);
      var end, size := Align4(L.dsSize), 10 * (|L.d| + 25);
      if L.free != [] then
        (s == ErrMem <==> n > 0 && L.base + end + n >= POOL_MAX_SIZE) && (s == ErrMem ==> M == L.(dsSize := end))
      else
        s == ErrMem <==>
          L.base + end + size >= POOL_MAX_SIZE || (n > 0 && L.base + Align4(end + size) + n >= POOL_MAX_SIZE)
  {
    hide Layout.Fits, Layout.Ordered, Layout.FreeOk, NoDup, Disjoint, Resize, AllocVector, Grow, FreeVector, StoreIn;
    AllocVectorKeepsInv(L, 1);
    AllocVectorExactly(L, 1);
    GrowthFails(L);
    var (s, M, i) := AllocVector(L, 1);
    if s.NoErr? {
      hide Align4;
      StoreInFresh(M, i, n);
      if L.free != [] && StoreIn(M, i, n).0.ErrMem? {
        LayoutFacts(L);
        ClaimedAndFreed(L, M, i);
      }
    }
  }

  lemma GrowthFails(L: Layout)
    requires L.Inv()
    ensures var (s, M) := Grow(L, 25); var end := Align4(L.dsSize) + 10 * (|L.d| + 25);
      && (s == ErrMem <==> L.base + end >= POOL_MAX_SIZE) && M.base == L.base && (s == NoErr ==> M.dsSize == end)
  {
    hide Layout.Fits, Layout.Ordered, Layout.FreeOk, NoDup, Disjoint, Grow;
    TableCountIsSmall(L);
    GrowExactly(L, 25);
  }

  lemma StoreInFresh(L: Layout, i: nat, n: word)
    requires L.Inv() && i in L.used && i != 0 && i < |L.d| && L.d[i] == Desc(NIL, 1, 0)
    ensures StoreIn(L, i, n).0 == ErrMem <==> n > 0 && L.base + Align4(L.dsSize) + n >= POOL_MAX_SIZE
    ensures StoreIn(L, i, n).0 == ErrMem ==> StoreIn(L, i, n).1 == FreeVector(L.(dsSize := Align4(L.dsSize)), i)
  {
    hide Layout.Fits, Layout.Ordered, Layout.FreeOk, NoDup, Disjoint, Resize, FreeVector;
    ResizeExactly(L, i, n);
  }

  lemma ClaimedAndFreed(L: Layout, M: Layout, i: nat)
    requires L.Inv() && L.free != [] && i == L.free[0] && i < |L.d| && i !in L.used
    requires M == L.(d := L.d[i := Desc(NIL, 1, 0)], used := L.used + [i], free := L.free[1..])
    ensures FreeVector(M.(dsSize := Align4(L.dsSize)), i) == L.(dsSize := Align4(L.dsSize))
  {
    hide Layout.Fits, Layout.Ordered, Layout.ListsOk, Align4;
    assert L.d[i] == Blank;
    assert Without(L.used + [i], i) == L.used by { FirstIndex(L.used, [i]); }
  }

  // ---- message runs keep every listed array in storage ----

  ghost predicate AllocatedBut(L: Layout, i: nat) {
    Below(L.used, |L.d|) && forall k :: 0 <= k < |L.used| && L.used[k] != i ==> L.d[L.used[k]].Allocated()
  }

  lemma ResizeKeepsAllocated(L: Layout, i: nat, n: word)
    requires L.Inv() && AllocatedBut(L, i) && i in L.used && (L.d[i].Allocated() || n > 0)
    ensures Resize(L, i, n).0.NoErr? ==> AllocatedBut(Resize(L, i, n).1, NIL)
    ensures Resize(L, i, n).0.ErrMem? ==> AllocatedBut(Resize(L, i, n).1, i)
  {
    hide Layout.Ordered, Layout.FreeOk, Room, ToWord, Align4, Desc.Size;
    StorageInside(L, i);
    AtEndKeepsAllocated(L, i, n);
  }

  lemma AtEndKeepsAllocated(L: Layout, i: nat, n: word)
    requires L.Inv() && AllocatedBut(L, i) && i in L.used
    ensures AtEnd(L, i, n).0.NoErr? ==> AllocatedBut(AtEnd(L, i, n).1, NIL)
    ensures AtEnd(L, i, n).0.ErrMem? ==> AllocatedBut(AtEnd(L, i, n).1, i)
  {
    hide Layout.Ordered, Layout.FreeOk, Layout.Fits;
    WithoutKeepsRest(L.used, i);
    var p := IndexOf(L.used, i);
    var (s, M) := AtEnd(L, i, n);
    if s.NoErr? {
      forall k | 0 <= k < |M.used| ensures M.d[M.used[k]].Allocated() {
        if k < |M.used| - 1 { assert M.used[k] == L.used[if k < p then k else k + 1]; }
      }
    }
  }

  lemma FreeKeepsAllocated(L: Layout, i: nat)
    requires L.Inv() && AllocatedBut(L, i) && i in L.used
    ensures AllocatedBut(FreeVector(L, i), NIL)
  {
    hide Layout.Ordered, Layout.FreeOk, Layout.Fits;
    WithoutKeepsRest(L.used, i);
    var p := IndexOf(L.used, i);
    var M := FreeVector(L, i);
    forall k | 0 <= k < |M.used| ensures M.d[M.used[k]].Allocated() {
      assert M.used[k] == L.used[if k < p then k else k + 1];
    }
  }

  lemma DropKeepsAllocated(L: Layout, i: nat)
    requires L.Inv() && AllocatedBut(L, NIL) && i in L.used
    ensures AllocatedBut(FreeVector(L, i), NIL)
  {
    hide Layout.Fits, Layout.Ordered, Layout.FreeOk, NoDup, Disjoint;
    FreeKeepsAllocated(L, i);
  }

  lemma StoreInKeepsAllocated(L: Layout, i: nat, n: word)
    requires L.Inv() && AllocatedBut(L, i) && i in L.used && i != 0 && (L.d[i].Allocated() || n > 0)
    ensures AllocatedBut(StoreIn(L, i, n).1, NIL)
  {
    hide Layout.Fits, Layout.Ordered, Layout.FreeOk, NoDup, Disjoint, Resize, AllocatedBut, FreeVector;
    ResizeKeepsAllocated(L, i, n);
    ResizeKeepsInvExactly(L, i, n);
    ResizeOthers(L, i, n);
    var (s, M) := Resize(L, i, n);
    if s.ErrMem? { FreeKeepsAllocated(M, i); }
  }

  lemma GrowKeepsAllocated(L: Layout, m: nat)
    requires L.Inv() && AllocatedBut(L, NIL) && VECTOR_SIZE * (|L.d| + m) < 0x1_0000
    ensures AllocatedBut(Grow(L, m).1, NIL)
  {
    hide Layout.Ordered, Layout.FreeOk, Layout.Fits;
    GrowFacts(L, m);
    WithoutKeepsRest(L.used, 0);
    var p := IndexOf(L.used, 0);
    var (s, M) := Grow(L, m);
    if s.NoErr? {
      forall k | 0 <= k < |M.used| ensures M.used[k] < |M.d| && M.d[M.used[k]].Allocated() {
        if k < |M.used| - 1 { assert M.used[k] == L.used[if k < p then k else k + 1]; }
      }
    }
  }

  lemma TakeKeepsAllocated(L: Layout, elemSize: word)
    requires L.Inv() && AllocatedBut(L, NIL) && L.free != []
    ensures AllocatedBut(Take(L, elemSize).0, Take(L, elemSize).1)
  {
    hide Layout.Ordered, Layout.FreeOk, Layout.Fits;
  }

  /** Storing a message that is not empty leaves no listed array without storage. */
  lemma StoreKeepsAllocated(L: Layout, slot: nat, n: word)
    requires L.Inv() && AllocatedBut(L, NIL) && n > 0 && (slot != 0 ==> slot in L.used)
    ensures AllocatedBut(StoreLayout(L, slot, n).1, NIL)
  {
    hide Layout.Fits, Layout.Ordered, Layout.FreeOk, NoDup, Disjoint, AllocVector, StoreIn;
    AllocVectorKeepsInv(L, 1);
    if slot != 0 {
      StoreInKeepsAllocated(L, slot, n);
    } else {
      AllocKeepsAllocated(L, 1);
      var (s, M, i) := AllocVector(L, 1);
      if s.NoErr? { StoreInKeepsAllocated(M, i, n); }
    }
  }

  lemma AllocKeepsAllocated(L: Layout, elemSize: word)
    requires L.Inv() && AllocatedBut(L, NIL)
    ensures var (s, M, i) := AllocVector(L, elemSize); if s.NoErr? then AllocatedBut(M, i) else AllocatedBut(M, NIL)
  {
    hide Layout.Fits, Layout.Ordered, Layout.FreeOk, NoDup, Disjoint, AllocatedBut, Take, Grow;
    AllocVectorFacts(L);
    GrowKeepsInv(L);
    GrowKeepsAllocated(L, GROWTH_COUNT);
    var G := if L.free == [] then Grow(L, GROWTH_COUNT).1 else L;
    if G.free != [] { TakeKeepsAllocated(G, elemSize); }
  }

  /** A freshly allocated vector, and any vector where every listed array has storage, can be resized. */
  lemma StoreIsSafe(L: Layout, i: nat, n: word)
    requires L.Inv() && i in L.used && L.d[i].elemSize == 1
    requires !L.d[i].Allocated() || AllocatedBut(L, NIL)
    ensures ResizeSafe(L, i, n)
  {
    hide Layout.Ordered, Layout.FreeOk, Layout.Fits;
    var k := IndexOf(L.used, i);
    if k + 1 < |L.used| && AllocatedBut(L, NIL) { assert L.d[L.used[k + 1]].Allocated(); }
  }

  // ---- compact and retry ----

  lemma StoreInFailureAligns(L: Layout, i: nat, n: word)
    requires L.Inv() && i in L.used && StoreIn(L, i, n).0.ErrMem?
    ensures StoreIn(L, i, n).1.dsSize % 4 == 0
  {
    hide Layout.Fits, Layout.Ordered, Layout.FreeOk, NoDup, Disjoint, InPlace, Without, ToWord, Align4;
    Align4Whole(L.dsSize);
  }

  lemma AllocFailureAligns(L: Layout, elemSize: word)
    requires L.Inv() && AllocVector(L, elemSize).0.ErrMem?
    ensures AllocVector(L, elemSize).1.dsSize % 4 == 0
  {
    hide Layout.Fits, Layout.Ordered, Layout.FreeOk, NoDup, Disjoint, Without, ToWord, Align4, Take;
    Align4Whole(L.dsSize);
  }

  /** Running out of memory leaves the end of the dataspace aligned, so compaction cannot move it up. */
  lemma FailureAligns(L: Layout, slot: nat, n: word)
    requires L.Inv() && (slot != 0 ==> slot in L.used) && StoreLayout(L, slot, n).0.ErrMem?
    ensures StoreLayout(L, slot, n).1.dsSize % 4 == 0
  {
    hide Layout.Fits, Layout.Ordered, Layout.FreeOk, NoDup, Disjoint, StoreIn, AllocVector;
    if slot != 0 {
      StoreInFailureAligns(L, slot, n);
    } else {
      AllocVectorKeepsInv(L, 1);
      var (s, M, i) := AllocVector(L, 1);
      if s.ErrMem? { AllocFailureAligns(L, 1); } else { StoreInFailureAligns(M, i, n); }
    }
  }

  /** A fresh vector gets n bytes exactly when they fit behind the aligned end. */
  lemma FreshStoreExactly(L: Layout, n: word)
    requires L.Inv() && L.free != [] && n > 0
    ensures StoreLayout(L, 0, n).0.ErrMem? <==> L.base + Align4(L.dsSize) + n >= POOL_MAX_SIZE
  {
    hide Layout.Fits, Layout.Ordered, Layout.FreeOk, NoDup, Disjoint, Room, Without, Grow;
    AllocVectorKeepsInv(L, 1);
    ToWordOfWord(n);
  }

  /** A write that failed for want of storage fails again after compaction exactly when the live arrays and
      the message do not fit the pool together. */
  lemma RetryFailsExactly(L: Layout, slot: nat, n: word)
    requires L.Inv() && (slot != 0 ==> slot in L.used && slot != 0) && n > 0
    requires StoreLayout(L, slot, n).0.ErrMem? && StoreLayout(L, slot, n).1.free != []
    ensures var F := StoreLayout(L, slot, n).1;
      F.Inv() && Below(F.used, |F.d|) && Compact(F).Inv()
      && (StoreLayout(Compact(F), 0, n).0.ErrMem? <==> F.base + LiveSize(F, |F.used|) + n >= POOL_MAX_SIZE)
  {
    hide StoreLayout, Layout.Fits, Layout.Ordered, Layout.FreeOk, NoDup, Disjoint, Compacted, Pos, LiveSize;
    StoreKeepsInv(L, slot, n);
    var F := StoreLayout(L, slot, n).1;
    CompactKeepsInv(F);
    CompactedIsLive(F, |F.used|);
    FreshStoreExactly(Compact(F), n);
  }

  lemma StoreKeepsInv(L: Layout, slot: nat, n: word)
    requires L.Inv() && (slot != 0 ==> slot in L.used)
    ensures StoreLayout(L, slot, n).0.ErrMem? ==> StoreLayout(L, slot, n).1.Inv()
  {
    hide Layout.Fits, Layout.Ordered, Layout.FreeOk, NoDup, Disjoint, StoreIn, AllocVector;
    AllocVectorKeepsInv(L, 1);
    if slot != 0 {
      StoreInKeepsInv(L, slot, n);
    } else {
      var (s, M, i) := AllocVector(L, 1);
      if s.NoErr? { StoreInKeepsInv(M, i, n); }
    }
  }

  lemma StoreInKeepsInv(L: Layout, i: nat, n: word)
    requires L.Inv() && i in L.used && i != 0
    ensures StoreIn(L, i, n).0.ErrMem? ==> StoreIn(L, i, n).1.Inv()
  {
    hide Layout.Fits, Layout.Ordered, Layout.FreeOk, NoDup, Disjoint, Resize, FreeVector;
    ResizeKeepsInvExactly(L, i, n);
    ResizeOthers(L, i, n);
    var (s, M) := Resize(L, i, n);
    if s.ErrMem? { FreeVectorKeepsInv(M, i); }
  }

  /** The failure was one of storage, not of the table, exactly when a vector was at hand or could be made. */
  lemma StorageFailureLeavesFree(L: Layout, slot: nat, n: word)
    requires L.Inv() && (slot != 0 ==> slot in L.used) && StoreLayout(L, slot, n).0.ErrMem?
    ensures StoreLayout(L, slot, n).1.free != [] <==> slot != 0 || L.free != [] || Grow(L, GROWTH_COUNT).0.NoErr?
  {
    hide Layout.Fits, Layout.Ordered, Layout.FreeOk, NoDup, Disjoint, Room, Without, AtEnd;
    AllocVectorKeepsInv(L, 1);
  }

  /** Whether a write that may compact and retry once runs out of memory in the end. */
  ghost predicate RetryFails(L: Layout, slot: nat, n: word)
    requires L.Inv() && (slot != 0 ==> slot in L.used)
  {
    && StoreLayout(L, slot, n).0.ErrMem?
    && (StoreKeepsInv(L, slot, n);
        var F := StoreLayout(L, slot, n).1;
        CompactKeepsInv(F);
        StoreLayout(Compact(F), 0, n).0.ErrMem?)
  }

  // ---- every run of message operations ----

  /** A store into a fresh vector (slot 0) or into that of a dropped message, the end of a message, a compaction. */
  datatype MessageOp = StoreOp(slot: nat, n: word) | DropOp(i: nat) | CompactOp

  ghost predicate Addressed(L: Layout, op: MessageOp) {
    match op
    case StoreOp(slot, n) => n > 0 && (slot != 0 ==> Holds(L, slot))
    case DropOp(i) => Holds(L, i)
    case CompactOp => true
  }

  function Step(L: Layout, op: MessageOp): Layout
    requires L.Inv() && Addressed(L, op)
  {
    match op
    case StoreOp(slot, n) => StoreLayout(L, slot, n).1
    case DropOp(i) => FreeVector(L, i)
    case CompactOp => Compact(L)
  }

  lemma StepIsSafe(L: Layout, op: MessageOp)
    requires L.Inv() && AllocatedBut(L, NIL) && Addressed(L, op)
    ensures Step(L, op).Inv() && AllocatedBut(Step(L, op), NIL)
    ensures op.CompactOp? ==> Step(L, op).dsSize <= L.dsSize
  {
    hide Layout.Fits, Layout.Ordered, Layout.FreeOk, NoDup, Disjoint, StoreLayout, FreeVector, Compacted, Pos;
    match op
    case StoreOp(slot, n) =>
      StoreKeepsAllocated(L, slot, n);
      StoreStaysValid(L, slot, n);
    case DropOp(i) =>
      FreeVectorKeepsInv(L, i);
      FreeKeepsAllocated(L, i);
    case CompactOp =>
      CompactKeepsInv(L);
      CompactShrinksExactly(L);
      CompactKeepsAllocated(L);
  }

  lemma StoreStaysValid(L: Layout, slot: nat, n: word)
    requires L.Inv() && AllocatedBut(L, NIL) && (slot != 0 ==> Holds(L, slot))
    ensures StoreLayout(L, slot, n).1.Inv()
  {
    hide Layout.Fits, Layout.Ordered, Layout.FreeOk, NoDup, Disjoint, Resize, ResizeSafe, AllocVector, AllocatedBut,
      FreeVector;
    StoreKeepsInv(L, slot, n);
    AllocVectorKeepsInv(L, 1);
    if slot != 0 {
      StoreIsSafe(L, slot, n);
      ResizeKeepsInvExactly(L, slot, n);
    } else {
      var (s, M, i) := AllocVector(L, 1);
      if s.NoErr? {
        StoreIsSafe(M, i, n);
        ResizeKeepsInvExactly(M, i, n);
      }
    }
  }

  /** With storage behind every listed array compaction is safe. */
  lemma AllocatedIsCompactSafe(L: Layout)
    requires L.Inv() && AllocatedBut(L, NIL)
    ensures CompactSafe(L)
  {
    hide Layout.Fits, Layout.Ordered, Layout.FreeOk, NoDup, Disjoint, LiveSize;
  }

  lemma CompactKeepsAllocated(L: Layout)
    requires L.Inv() && AllocatedBut(L, NIL)
    ensures AllocatedBut(Compact(L), NIL)
  {
    hide Desc.Size, Compacted, Pos;
    forall k | 0 <= k < |L.used| ensures Compact(L).d[L.used[k]].Allocated() {
      PartialAt(L, |L.used|, k);
    }
  }

  ghost predicate AddressedRun(L: Layout, ops: seq<MessageOp>)
    requires L.Inv() && AllocatedBut(L, NIL)
    decreases |ops|
  {
    ops == [] || (Addressed(L, ops[0]) && (StepIsSafe(L, ops[0]); AddressedRun(Step(L, ops[0]), ops[1..])))
  }

  function Run(L: Layout, ops: seq<MessageOp>): Layout
    requires L.Inv() && AllocatedBut(L, NIL) && AddressedRun(L, ops)
    decreases |ops|
  {
    if ops == [] then L
    else
      StepIsSafe(L, ops[0]);
      Run(Step(L, ops[0]), ops[1..])
  }

  /** Runs of message operations need no further care: the layout stays valid, every listed array keeps
      its storage, so no growth in place ever meets an array without storage. */
  lemma {:induction false} MessageRunsAreSafe(L: Layout, ops: seq<MessageOp>)
    requires L.Inv() && AllocatedBut(L, NIL) && AddressedRun(L, ops)
    ensures Run(L, ops).Inv() && AllocatedBut(Run(L, ops), NIL)
    decreases |ops|
  {
    hide Layout.Inv, AllocatedBut, Step, Addressed;
    if ops != [] {
      StepIsSafe(L, ops[0]);
      MessageRunsAreSafe(Step(L, ops[0]), ops[1..]);
    }
  }
}

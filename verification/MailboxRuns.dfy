/** Runs of calls on the mailboxes: whatever memory allows, they behave as twenty-one FIFOs that know nothing of one
    another. */
module MailboxRuns {
  import opened Words
  import opened Seqs
  import opened Layouts
  import opened LayoutInvariants
  import opened CompactionProofs
  import A = AllocatorRuns
  import opened Vectors
  import opened Storage
  import opened MemMgrs
  import opened Queues
  import opened Mailboxes

  datatype Call =
    | Write(queueID: nat, buffer: Buffer)
    | Log(buffer: Buffer)
    | Read(queueID: nat, wanted: bool, length: nat, remove: bool)
    | RemoteWrite(queueID: nat, data: seq<byte>)
    | Collect

  /** What a call returns: its status and, for a read, the message. */
  datatype Outcome = Outcome(status: int, data: seq<byte>)

  /** Empty messages get no storage and are left out. */
  predicate NotEmpty(c: Call) {
    (c.Write? || c.Log?) && c.buffer.Bytes? ==> |c.buffer.data| > 0
  }

  /** A bounded FIFO of depth n offered a message; without memory it only loses its oldest if it is full. */
  function Offered(f: seq<seq<byte>>, n: nat, data: seq<byte>, stored: bool): (r: seq<seq<byte>>)
    requires |f| <= n && 0 < n
    ensures |r| <= n
  {
    if stored then FifoWrite(f, n, data) else if |f| == n then f[1..] else f
  }

  /** FIFO p after a call; the only thing it needs of the rest of the machine is whether there was memory. */
  function After(f: seq<seq<byte>>, p: nat, active: bool, c: Call, stored: bool): (r: seq<seq<byte>>)
    requires |f| <= Depth(p)
    ensures |r| <= Depth(p)
  {
    match c
    case Write(q, buffer) =>
      if active && buffer.Bytes? && |buffer.data| <= MAX_MESSAGE_SIZE && q == p < MESSAGE_QUEUE_COUNT
        then Offered(f, Depth(p), buffer.data, stored) else f
    case Log(buffer) =>
      if active && buffer.Bytes? && |buffer.data| <= MAX_DATALOG_SIZE && p == DATALOG
        then Offered(f, Depth(p), buffer.data, stored) else f
    case Read(q, wanted, length, remove) =>
      if q == p < MESSAGE_QUEUE_COUNT && wanted && active && f != [] && length >= |f[0]| && remove then f[1..] else f
    case RemoteWrite(q, data) =>
      if active && LegalMessage(data) && q == p < MESSAGE_QUEUE_COUNT
        then Offered(f, Depth(p), data, stored) else f
    case Collect => f
  }

  /** FIFO p after the first k calls */
  function AfterAll(f: seq<seq<byte>>, p: nat, active: bool, calls: seq<Call>, outcomes: seq<Outcome>, k: nat)
    : (r: seq<seq<byte>>)
    requires |f| <= Depth(p) && k <= |calls| && k <= |outcomes|
    ensures |r| <= Depth(p)
  {
    if k == 0 then f
    else After(AfterAll(f, p, active, calls, outcomes, k - 1), p, active, calls[k - 1], outcomes[k - 1].status != ERR_MEM)
  }

  lemma {:induction false} LaterOutcomesDoNotMatter(f: seq<seq<byte>>, p: nat, active: bool, calls: seq<Call>,
                                                    outcomes: seq<Outcome>, more: seq<Outcome>, k: nat)
    requires |f| <= Depth(p) && k <= |calls| && k <= |outcomes|
    ensures AfterAll(f, p, active, calls, outcomes + more, k) == AfterAll(f, p, active, calls, outcomes, k)
  {
    if k > 0 { LaterOutcomesDoNotMatter(f, p, active, calls, outcomes, more, k - 1); }
  }

  /** What a read must return, given the FIFO it reads from. */
  predicate ReadsRight(f: seq<seq<byte>>, active: bool, c: Call, o: Outcome) {
    c.Read? && c.wanted && active && c.queueID < MESSAGE_QUEUE_COUNT ==>
      if f == [] then o == Outcome(STAT_MSG_EMPTY_MAILBOX, [])
      else if c.length < |f[0]| then o == Outcome(ERR_INVALID_SIZE, [])
      else o == Outcome(NO_ERR, f[0])
  }

  /** The status of a call, as far as the call itself decides it. */
  predicate StatusRight(active: bool, c: Call, o: Outcome) {
    match c
    case Write(q, buffer) =>
      if buffer.Null? then o.status == ERR_ARG
      else if q >= MESSAGE_QUEUE_COUNT then o.status == ERR_INVALID_QUEUE
      else if !active then o.status == ERR_NO_PROG
      else if |buffer.data| > MAX_MESSAGE_SIZE then o.status == ERR_INVALID_SIZE
      else o.status in {NO_ERR, ERR_MEM}
    case Log(buffer) =>
      if buffer.Null? then o.status == ERR_ARG
      else if !active then o.status == ERR_NO_PROG
      else if |buffer.data| > MAX_DATALOG_SIZE then o.status == ERR_INVALID_SIZE
      else o.status in {NO_ERR, STAT_MSG_BUFFERWRAP, ERR_MEM}
    case Read(q, wanted, _, _) =>
      if !wanted then o.status == ERR_ARG
      else if !active then o.status == ERR_NO_PROG
      else q >= MESSAGE_QUEUE_COUNT ==> o.status == ERR_INVALID_QUEUE
    case RemoteWrite(q, data) =>
      if data == [] || |data| > MAX_MESSAGE_SIZE || data[|data| - 1] != 0 then o.status == ERR_RC_ILLEGAL_VAL
      else if q >= MESSAGE_QUEUE_COUNT then o.status == ERR_INVALID_QUEUE
      else if !active then o.status == ERR_NO_PROG
      else o.status in {NO_ERR, ERR_MEM}
    case Collect => o.status == NO_ERR
  }

  /** The contents of all queues, the datalog last */
  type Fifos = f: seq<seq<seq<byte>>> | |f| == DATALOG + 1 && forall p :: 0 <= p < |f| ==> |f[p]| <= Depth(p)
    witness seq(DATALOG + 1, _ => [])

  /** Every queue has gone from what it held in F to what it holds in G as a FIFO on its own would, every call had its
      status, and every read returned the oldest message of its FIFO at that time. */
  ghost predicate Follows(F: Fifos, active: bool, calls: seq<Call>, outcomes: seq<Outcome>, G: Fifos)
    requires |outcomes| <= |calls|
  {
    && (forall p :: 0 <= p <= DATALOG ==> G[p] == AfterAll(F[p], p, active, calls, outcomes, |outcomes|))
    && (forall k :: 0 <= k < |outcomes| ==> StatusRight(active, calls[k], outcomes[k]))
    && forall k :: 0 <= k < |outcomes| && calls[k].Read? && calls[k].queueID <= DATALOG ==>
         ReadsRight(AfterAll(F[calls[k].queueID], calls[k].queueID, active, calls, outcomes, k), active, calls[k], outcomes[k])
  }

  lemma FollowsOneMore(F: Fifos, active: bool, calls: seq<Call>, outcomes: seq<Outcome>, G: Fifos, o: Outcome, H: Fifos)
    requires |outcomes| < |calls| && Follows(F, active, calls, outcomes, G)
    requires forall p :: 0 <= p <= DATALOG ==> H[p] == After(G[p], p, active, calls[|outcomes|], o.status != ERR_MEM)
    requires calls[|outcomes|].Read? && calls[|outcomes|].queueID <= DATALOG ==>
      ReadsRight(G[calls[|outcomes|].queueID], active, calls[|outcomes|], o)
    requires StatusRight(active, calls[|outcomes|], o)
    ensures Follows(F, active, calls, outcomes + [o], H)
  {
    hide After, ReadsRight, StatusRight;
    var n := |outcomes|;
    forall p, k | 0 <= p <= DATALOG && 0 <= k <= n
      ensures AfterAll(F[p], p, active, calls, outcomes + [o], k) == AfterAll(F[p], p, active, calls, outcomes, k)
    {
      LaterOutcomesDoNotMatter(F[p], p, active, calls, outcomes, [o], k);
    }
  }

  ghost function Contents(mb: Mailboxes): (F: Fifos)
    requires mb.Valid()
    reads mb, mb.queues, mb.mm, mb.mm.pool
    ensures forall p :: 0 <= p <= DATALOG ==> F[p] == mb.Messages(p)
  {
    seq(DATALOG + 1, p requires 0 <= p <= DATALOG && mb.Valid() reads mb, mb.queues, mb.mm, mb.mm.pool => mb.Messages(p))
  }

  /** Every listed array has storage, so that no write meets a wrong measurement of room. */
  ghost predicate Ready(mb: Mailboxes)
    reads mb, mb.queues, mb.mm, mb.mm.pool
  {
    mb.Valid() && AllocatedBut(mb.mm.Lay(), NIL)
  }

  /** One call: the mailboxes stay ready, every queue follows its FIFO, and a read returns its oldest message. */
  method Perform(mb: Mailboxes, c: Call) returns (o: Outcome)
    requires Ready(mb) && NotEmpty(c)
    modifies mb`held, mb.queues, mb.mm, mb.mm.pool
    ensures Ready(mb)
    ensures forall p :: 0 <= p <= DATALOG ==> mb.Messages(p) == After(old(mb.Messages(p)), p, mb.active, c, o.status != ERR_MEM)
    ensures c.Read? && c.queueID <= DATALOG ==> ReadsRight(old(mb.Messages(c.queueID)), mb.active, c, o)
    ensures StatusRight(mb.active, c, o)
    ensures OwnKept(old(mb.mm.Lay()), old(mb.mm.pool[..]), old(mb.held), mb.mm.Lay(), mb.mm.pool[..], mb.held)
  {
    hide OwnKept, NotHeld, QueueOk, Layout.Inv, MemMgr.Vecs, Descs, SameBut, Texts, StoreLayout, AllocatedBut,
      AllHold, CompactSafe;
    match c {
      case Write(q, buffer) =>
        if mb.active && buffer.Bytes? && |buffer.data| <= MAX_MESSAGE_SIZE && q < MESSAGE_QUEUE_COUNT {
          mb.WritesAreSafe(q, |buffer.data|);
        }
        var status := mb.MessageWrite(q, buffer);
        o := Outcome(status, []);
      case Log(buffer) =>
        if mb.active && buffer.Bytes? && |buffer.data| <= MAX_DATALOG_SIZE { mb.WritesAreSafe(DATALOG, |buffer.data|); }
        var status := mb.DatalogWrite(buffer);
        o := Outcome(status, []);
      case Read(q, wanted, length, remove) =>
        var status, data := mb.MessageRead(q, wanted, length, remove);
        o := Outcome(status, data);
      case RemoteWrite(q, data) =>
        if mb.active && LegalMessage(data) && q < MESSAGE_QUEUE_COUNT { mb.WritesAreSafe(q, |data|); }
        var status := mb.RemoteMessageWrite(q, data);
        o := Outcome(status, []);
      case Collect =>
        AllocatedIsCompactSafe(mb.mm.Lay());
        mb.Compact();
        o := Outcome(NO_ERR, []);
    }
  }

  lemma FollowsNothing(F: Fifos, active: bool, calls: seq<Call>)
    ensures Follows(F, active, calls, [], F)
  {
  }

  // ---- the program's own arrays in between ----

  /** An operation on an array that no queue holds. */
  ghost predicate OnOwn(mb: Mailboxes, op: A.Op)
    reads mb, mb.mm, mb.mm.pool
  {
    mb.mm.TableInPool() && A.Addressed(mb.mm.Lay(), op) && NotHeld(mb.held, A.Target(op))
  }

  /** The program allocates, frees, resizes or compacts between the calls: if that is safe, the mailboxes stay as
      they are, and they stay ready unless a vector without storage is allocated. */
  method PerformOwn(mb: Mailboxes, op: A.Op)
    requires mb.Valid() && OnOwn(mb, op) && mb.mm.StaysInPool(op)
    modifies mb.mm, mb.mm.pool
    ensures mb.mm.LinksOk() && mb.mm.State() == A.Step(old(mb.mm.State()), op)
    ensures mb.Valid() <==> A.Safe(old(mb.mm.Lay()), op)
    ensures SameBut(old(mb.mm.Lay()), old(mb.mm.pool[..]), mb.mm.Lay(), mb.mm.pool[..], A.Target(op))
    ensures mb.Valid() ==> forall p :: 0 <= p <= DATALOG ==> mb.Messages(p) == old(mb.Messages(p))
    ensures mb.Valid() && old(AllocatedBut(mb.mm.Lay(), NIL)) && !op.AllocOp? ==> AllocatedBut(mb.mm.Lay(), NIL)
  {
    hide QueueOk, Layout.Inv, MemMgr.Vecs, Descs, SameBut, Texts, AllocatedBut, AllHold, Separate, TwoLists, NotHeld,
      A.Step, A.Safe;
    ghost var L, m := mb.mm.Lay(), mb.mm.pool[..];
    mb.mm.Perform(op);
    if A.Safe(L, op) {
      HeldIsNot(mb.held, A.Target(op));
      AllHeldStay(L, m, mb.held, mb.mm.Lay(), mb.mm.pool[..], A.Target(op));
      AllTextsStay(L, m, mb.mm.Lay(), mb.mm.pool[..], A.Target(op), mb.held);
      if AllocatedBut(L, NIL) && !op.AllocOp? {
        StepKeepsAllocated(L, op);
      }
    }
  }

  lemma HeldIsNot(held: seq<seq<nat>>, x: nat)
    requires NotHeld(held, x)
    ensures forall p :: 0 <= p < |held| ==> x !in held[p]
  {
  }

  lemma StepKeepsAllocated(L: Layout, op: A.Op)
    requires L.Inv() && A.Addressed(L, op) && A.Safe(L, op) && AllocatedBut(L, NIL) && !op.AllocOp?
    ensures AllocatedBut(A.Step(A.Pool(L, L.base + L.dsSize), op).lay, NIL)
  {
    hide Layout.Fits, Layout.Ordered, Layout.FreeOk, NoDup, Disjoint, AllocatedBut, Compact, Resize, Grow, FreeVector,
      A.Bumped;
    match op
    case FreeOp(i) => DropKeepsAllocated(L, i);
    case GrowOp(m) =>
      FailureKeepsAllocated(L, 0, 0, m);
      GrowFailsExactly(L, m);
      if Grow(L, m).0.NoErr? { GrowKeepsAllocated(L, m); }
    case ResizeOp(i, n) =>
      FailureKeepsAllocated(L, i, n, 0);
      UsedIsAllocated(L, i);
      if Resize(L, i, n).0.NoErr? { ResizeKeepsAllocated(L, i, n); }
    case CompactOp => CompactKeepsAllocated(L);
  }

  lemma UsedIsAllocated(L: Layout, i: nat)
    requires L.Inv() && AllocatedBut(L, NIL) && i in L.used
    ensures L.d[i].Allocated() && AllocatedBut(L, i)
  {
    hide Layout.Fits, Layout.Ordered, Layout.FreeOk, NoDup, Disjoint;
    assert L.used[IndexOf(L.used, i)] == i;
  }

  /** A request without memory moves the end of the dataspace only. */
  lemma FailureKeepsAllocated(L: Layout, i: nat, n: word, m: nat)
    requires L.Inv() && AllocatedBut(L, NIL) && i in L.used
    ensures Resize(L, i, n).0.ErrMem? ==> AllocatedBut(Resize(L, i, n).1, NIL)
    ensures Grow(L, m).0.ErrMem? ==> AllocatedBut(Grow(L, m).1, NIL)
  {
    hide Layout.Fits, Layout.Ordered, Layout.FreeOk, NoDup, Disjoint, Without, Room, ToWord;
  }

  // ---- runs of both ----

  /** A call on the mailboxes, or the program resizing or freeing one of its own arrays */
  datatype Event = Message(c: Call) | Resizes(i: word, n: word) | Frees(i: word)

  function Calls(es: seq<Event>): seq<Call> {
    if es == [] then [] else (if es[0].Message? then [es[0].c] else []) + Calls(es[1..])
  }

  function Named(es: seq<Event>): set<nat> {
    if es == [] then {} else (if es[0].Message? then {} else {es[0].i}) + Named(es[1..])
  }

  /** The run names arrays that the program owns by then, of sizes that fit a word, and stores no empty message. */
  ghost predicate Planned(L: Layout, own: set<nat>, es: seq<Event>)
    decreases |es|
  {
    es != [] ==>
      match es[0]
      case Message(c) => NotEmpty(c) && Planned(L, own, es[1..])
      case Resizes(i, n) => i in own && i < |L.d| && n * L.d[i].elemSize < 0x1_0000 && Planned(L, own, es[1..])
      case Frees(i) => i in own && Planned(L, own - {i}, es[1..])
  }

  /** The arrays of own are in use, no queue holds them, and their elements are as large as in L. */
  ghost predicate Owns(L: Layout, own: set<nat>, M: Layout, held: seq<seq<nat>>) {
    forall x :: x in own ==>
      x in M.used && x != 0 && NotHeld(held, x) && x < |L.d| && x < |M.d| && M.d[x].elemSize == L.d[x].elemSize
  }

  /** The arrays of idle read as before, and no queue holds them. */
  ghost predicate Spared(L: Layout, m: seq<byte>, M: Layout, m': seq<byte>, held: seq<seq<nat>>, idle: set<nat>) {
    forall x :: x in idle ==> x in L.used && x != 0 && Same(L, m, M, m', x) && NotHeld(held, x)
  }

  /** Where every listed array has storage, a resize whose size fits a word is safe. */
  lemma SafeWithStorage(P: A.Pool, i: nat, n: word)
    requires P.Inv() && AllocatedBut(P.lay, NIL) && i in P.lay.used && i != 0 && n * P.lay.d[i].elemSize < 0x1_0000
    ensures A.Safe(P.lay, A.ResizeOp(i, n)) && CopyInPool(P.lay, i, n)
    ensures var M := A.Step(P, A.ResizeOp(i, n)).lay;
      i in M.used && i < |M.d| && M.d[i].elemSize == P.lay.d[i].elemSize
  {
    hide Layout.Fits, Layout.Ordered, Layout.FreeOk, NoDup, Disjoint, A.Bumped, Full, Align4, ToWord;
    UsedIsAllocated(P.lay, i);
    GrownIsLarger(P.lay, i, n);
  }

  /** Storage that a larger array does not find where it lies holds the old elements. */
  lemma GrownIsLarger(L: Layout, i: nat, n: word)
    requires L.Inv() && i in L.used && n * L.d[i].elemSize < 0x1_0000
    ensures CopyInPool(L, i, n)
  {
    hide Layout.Fits, Layout.Ordered, Layout.FreeOk, NoDup, Disjoint, Align4, Room, Without;
    if !InPlace(L, i, n) {
      Larger(L.d[i].count, n, L.d[i].elemSize);
    }
  }

  lemma Larger(count: nat, n: nat, e: nat)
    requires count <= n
    ensures count * e <= n * e
  {
  }

  /** The program resizes one of its arrays. */
  method ResizeOwn(mb: Mailboxes, i: word, n: word)
    requires Ready(mb) && i in mb.mm.used && i != 0 && i < |mb.mm.Lay().d| && NotHeld(mb.held, i)
    requires n * mb.mm.Lay().d[i].elemSize < 0x1_0000
    modifies mb.mm, mb.mm.pool
    ensures Ready(mb) && Contents(mb) == old(Contents(mb))
    ensures SameBut(old(mb.mm.Lay()), old(mb.mm.pool[..]), mb.mm.Lay(), mb.mm.pool[..], i)
    ensures i in mb.mm.used && i < |mb.mm.Lay().d| && mb.mm.Lay().d[i].elemSize == old(mb.mm.Lay()).d[i].elemSize
  {
    hide NotHeld, QueueOk, Layout.Inv, MemMgr.Vecs, Descs, SameBut, Texts, AllocatedBut, AllHold, TwoLists, A.Step,
      A.Safe;
    SafeWithStorage(mb.mm.State(), i, n);
    PerformOwn(mb, A.ResizeOp(i, n));
  }

  /** The program frees one of its arrays. */
  method FreeOwn(mb: Mailboxes, i: word)
    requires Ready(mb) && i in mb.mm.used && i != 0 && NotHeld(mb.held, i)
    modifies mb.mm, mb.mm.pool
    ensures Ready(mb) && Contents(mb) == old(Contents(mb))
    ensures SameBut(old(mb.mm.Lay()), old(mb.mm.pool[..]), mb.mm.Lay(), mb.mm.pool[..], i)
  {
    hide NotHeld, QueueOk, Layout.Inv, MemMgr.Vecs, Descs, SameBut, Texts, AllocatedBut, AllHold, TwoLists, A.Step;
    PerformOwn(mb, A.FreeOp(i));
  }

  /** Where a run stands: what the program owns, what it has spared, and that the rest of the run is planned. */
  ghost predicate Underway(L: Layout, m: seq<byte>, M: Layout, m': seq<byte>, held: seq<seq<nat>>,
                           own: set<nat>, idle: set<nat>, todo: seq<Event>) {
    && Owns(L, own, M, held) && Planned(L, own, todo)
    && Spared(L, m, M, m', held, idle) && idle <= own && idle !! Named(todo)
  }

  lemma UnderwayAtFirst(L: Layout, m: seq<byte>, held: seq<seq<nat>>, own: set<nat>, es: seq<Event>)
    requires Owns(L, own, L, held) && Planned(L, own, es)
    ensures Underway(L, m, L, m, held, own, own - Named(es), es)
  {
    hide Content, NotHeld, Planned, Named;
  }

  /** A call keeps what is the program's. */
  lemma CallSpares(L: Layout, m: seq<byte>, L1: Layout, m1: seq<byte>, h1: seq<seq<nat>>, M: Layout, m2: seq<byte>,
                   h2: seq<seq<nat>>, own: set<nat>, idle: set<nat>, todo: seq<Event>)
    requires OwnKept(L1, m1, h1, M, m2, h2) && todo != [] && todo[0].Message?
    requires Underway(L, m, L1, m1, h1, own, idle, todo)
    ensures Underway(L, m, M, m2, h2, own, idle, todo[1..])
  {
    hide Content, NotHeld;
    forall x | x in own ensures Same(L1, m1, M, m2, x) && NotHeld(h2, x) {
      assert x in L1.used && x != 0 && NotHeld(h1, x);
    }
  }

  /** An operation on one array keeps the others. */
  lemma OperationSpares(L: Layout, m: seq<byte>, L1: Layout, m1: seq<byte>, M: Layout, m2: seq<byte>,
                        held: seq<seq<nat>>, own: set<nat>, idle: set<nat>, todo: seq<Event>)
    requires todo != [] && !todo[0].Message? && SameBut(L1, m1, M, m2, todo[0].i)
    requires Underway(L, m, L1, m1, held, own, idle, todo)
    requires var i := todo[0].i;
      todo[0].Resizes? ==> i in M.used && i < |M.d| && i < |L1.d| && M.d[i].elemSize == L1.d[i].elemSize
    ensures Underway(L, m, M, m2, held, if todo[0].Frees? then own - {todo[0].i} else own, idle, todo[1..])
  {
    hide Content, NotHeld;
    forall x | x in own && x != todo[0].i ensures Same(L1, m1, M, m2, x) {
    }
  }

  lemma NextEvent(L: Layout, m: seq<byte>, M: Layout, m': seq<byte>, held: seq<seq<nat>>,
                  own: set<nat>, idle: set<nat>, todo: seq<Event>)
    requires Underway(L, m, M, m', held, own, idle, todo) && todo != []
    ensures match todo[0]
      case Message(c) => NotEmpty(c)
      case Resizes(i, n) =>
        i in M.used && i != 0 && i < |M.d| && NotHeld(held, i) && n * M.d[i].elemSize < 0x1_0000
      case Frees(i) => i in M.used && i != 0 && NotHeld(held, i)
  {
    hide Content, NotHeld;
  }

  lemma NextCall(calls: seq<Call>, n: nat, todo: seq<Event>)
    requires todo != [] && n <= |calls| && calls[n..] == Calls(todo)
    ensures if todo[0].Message?
      then n < |calls| && calls[n] == todo[0].c && calls[n + 1..] == Calls(todo[1..])
      else calls[n..] == Calls(todo[1..])
  {
    if todo[0].Message? {
      assert calls[n] == calls[n..][0] && calls[n + 1..] == calls[n..][1..];
    }
  }

  /** Over every run of calls in which the program also resizes and frees arrays of its own, the mailboxes follow
      their FIFOs, and the arrays that it does not name keep their bytes. */
  method PerformAll(mb: Mailboxes, es: seq<Event>, ghost own: set<nat>) returns (outcomes: seq<Outcome>)
    requires Ready(mb) && Owns(mb.mm.Lay(), own, mb.mm.Lay(), mb.held) && Planned(mb.mm.Lay(), own, es)
    modifies mb`held, mb.queues, mb.mm, mb.mm.pool
    ensures Ready(mb) && |outcomes| == |Calls(es)|
    ensures Follows(old(Contents(mb)), mb.active, Calls(es), outcomes, Contents(mb))
    ensures Spared(old(mb.mm.Lay()), old(mb.mm.pool[..]), mb.mm.Lay(), mb.mm.pool[..], mb.held, own - Named(es))
  {
    hide OwnKept, NotHeld, Follows, After, ReadsRight, StatusRight, AllocatedBut, Layout.Inv, MemMgr.Vecs, SameBut,
      Underway, Calls, Planned, Named, Mailboxes.Messages, Texts;
    outcomes := [];
    var todo := es;
    ghost var F, G, L, m := Contents(mb), Contents(mb), mb.mm.Lay(), mb.mm.pool[..];
    ghost var mine, idle := own, own - Named(es);
    FollowsNothing(F, mb.active, Calls(es));
    UnderwayAtFirst(L, m, mb.held, own, es);
    while todo != []
      invariant Ready(mb) && G == Contents(mb)
      invariant |outcomes| <= |Calls(es)| && Calls(es)[|outcomes|..] == Calls(todo)
      invariant Follows(F, mb.active, Calls(es), outcomes, G)
      invariant Underway(L, m, mb.mm.Lay(), mb.mm.pool[..], mb.held, mine, idle, todo)
      decreases |todo|
    {
      ghost var L1, m1, h1 := mb.mm.Lay(), mb.mm.pool[..], mb.held;
      NextCall(Calls(es), |outcomes|, todo);
      NextEvent(L, m, L1, m1, h1, mine, idle, todo);
      match todo[0] {
        case Message(c) =>
          var o := Perform(mb, c);
          FollowsOneMore(F, mb.active, Calls(es), outcomes, G, o, Contents(mb));
          CallSpares(L, m, L1, m1, h1, mb.mm.Lay(), mb.mm.pool[..], mb.held, mine, idle, todo);
          outcomes, G := outcomes + [o], Contents(mb);
        case Resizes(i, n) =>
          ResizeOwn(mb, i, n);
          OperationSpares(L, m, L1, m1, mb.mm.Lay(), mb.mm.pool[..], h1, mine, idle, todo);
        case Frees(i) =>
          FreeOwn(mb, i);
          OperationSpares(L, m, L1, m1, mb.mm.Lay(), mb.mm.pool[..], h1, mine, idle, todo);
          mine := mine - {i};
      }
      todo := todo[1..];
    }
    AtTheEnd(L, m, mb.mm.Lay(), mb.mm.pool[..], mb.held, mine, idle);
  }

  lemma AtTheEnd(L: Layout, m: seq<byte>, M: Layout, m': seq<byte>, held: seq<seq<nat>>, own: set<nat>, idle: set<nat>)
    requires Underway(L, m, M, m', held, own, idle, [])
    ensures Spared(L, m, M, m', held, idle) && Calls([]) == []
  {
  }
}

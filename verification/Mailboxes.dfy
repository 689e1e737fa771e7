/** Message queues and datalog on top of the memory manager. */
module Mailboxes {
  import opened Words
  import opened Seqs
  import opened Layouts
  import opened LayoutInvariants
  import opened CompactionProofs
  import opened Vectors
  import opened Storage
  import opened MemMgrs
  import opened Queues

  const MAX_MESSAGE_SIZE: nat := 59
  const MAX_DATALOG_SIZE: nat := 60

  const NO_ERR: int := 0
  const STAT_MSG_BUFFERWRAP: int := 16
  const STAT_MSG_EMPTY_MAILBOX: int := 64
  const ERR_ARG: int := -1
  const ERR_MEM: int := -5
  const ERR_INVALID_QUEUE: int := -18
  const ERR_INVALID_SIZE: int := -19
  const ERR_NO_PROG: int := -20
  const ERR_RC_ILLEGAL_VAL: int := -64

  /** A pointer argument and what it points to */
  datatype Buffer = Null | Bytes(data: seq<byte>)

  /** A message arriving from another brick is a string ending in a zero byte. */
  predicate LegalMessage(data: seq<byte>) {
    0 < |data| <= MAX_MESSAGE_SIZE && data[|data| - 1] == 0
  }

  class Mailboxes {
    const mm: MemMgr
    /** The message queues and, last, the datalog buffer */
    const queues: array<Queue>
    /** ActiveProgHandle != NOT_A_HANDLE */
    var active: bool
    /** For each queue the vectors of its messages, oldest first */
    ghost var held: seq<seq<nat>>

    ghost predicate HeldOk()
      reads this, queues, mm, mm.pool
    {
      && mm.Valid() && queues.Length == DATALOG + 1 == |held|
      && Separate(held)
      && forall q :: 0 <= q <= DATALOG ==> AllHold(mm.Lay(), held[q])
    }

    ghost predicate Valid()
      reads this, queues, mm, mm.pool
    {
      HeldOk() && forall q :: 0 <= q <= DATALOG ==> QueueOk(queues[q], held[q], Depth(q))
    }

    /** The queue as a FIFO of byte strings */
    ghost function Messages(q: nat): (r: seq<seq<byte>>)
      requires Valid() && q <= DATALOG
      reads this, queues, mm, mm.pool
      ensures |r| == |held[q]| <= Depth(q)
    {
      Texts(mm.Lay(), mm.pool[..], held[q])
    }

    /** Activation empties every queue. */
    constructor (mm: MemMgr)
      requires mm.Valid()
      ensures Valid() && this.mm == mm && active && fresh(queues)
      ensures forall q :: 0 <= q <= DATALOG ==> Messages(q) == []
    {
      this.mm, active := mm, true;
      queues := new Queue[DATALOG + 1](q => Queue(0, 0, seq(Depth(q), _ => NIL)));
      held := seq(DATALOG + 1, _ => []);
    }

    /** Queue q has claimed a vector for the message being written. */
    ghost predicate Claimed(q: nat, slot: word)
      reads this, queues, mm, mm.pool
    {
      && HeldOk() && q <= DATALOG
      && (forall p :: 0 <= p <= DATALOG && p != q ==> QueueOk(queues[p], held[p], Depth(p)))
      && ClaimedOk(queues[q], held[q], Depth(q), slot)
      && Holds(mm.Lay(), slot)
      && forall p :: 0 <= p <= DATALOG ==> slot !in held[p]
    }

    /** The first step of a write: reuse the vector of the oldest message of a full queue, or allocate one. */
    method Claim(q: nat) returns (status: Status, slot: word)
      requires Valid() && q <= DATALOG
      modifies this`held, queues, mm, mm.pool
      ensures status.NoErr? ==> Claimed(q, slot)
      ensures status.ErrMem? ==> Valid()
      ensures mm.Valid() && |old(held[q])| <= Depth(q)
      ensures forall p :: 0 <= p <= DATALOG && p != q ==> queues[p] == old(queues[p])
      ensures if |old(held[q])| == Depth(q) then
          status.NoErr? && slot == old(held[q][0]) && held == old(held)[q := old(held[q])[1..]]
          && mm.Lay() == old(mm.Lay()) && mm.pool[..] == old(mm.pool[..])
        else
          (status, mm.Lay(), slot) == AllocVector(old(mm.Lay()), 1) && held == old(held)
      ensures SameBut(old(mm.Lay()), old(mm.pool[..]), mm.Lay(), mm.pool[..], 0)
    {
      hide QueueOk, ClaimedOk, Layout.Inv, MemMgr.Lay, SameBut, AllocVector, Separate, AllHold, TwoLists;
      var n := Depth(q);
      var queue := queues[q];
      ghost var L, m := mm.Lay(), mm.pool[..];
      QueueBounds(queue, held[q], n);
      WriteSlot(queue, held[q], n);
      mm.ValidFacts();
      if |held[q]| == n { OldestHolds(L, held, q); }
      slot := queue.slots[queue.writeIndex];
      if 0 < slot < mm.Vec(0).count {
        assert queue.writeIndex == queue.readIndex;
        ClaimOldest(queue, held[q], n);
        mm.StillSame();
        queues[q] := queue.(readIndex := (queue.readIndex + 1) % n);
        held := held[q := held[q][1..]];
        status := NoErr;
      } else {
        status, slot := mm.AllocDopeVector(1);
        HeldAreUsed(L, held, slot);
        AllHeldStay(L, m, held, mm.Lay(), mm.pool[..], 0);
        AllocVectorKeepsInv(L, 1);
        if status.ErrMem? {
          return;
        }
        ClaimFresh(queue, held[q], n, slot);
        queues[q] := queue.(slots := queue.slots[queue.writeIndex := slot]);
      }
    }

    /** The second step of a write: storage for the message, the copy, and the new write index; or the
        claimed vector is given back. */
    method Fill(q: nat, slot: word, data: seq<byte>) returns (status: Status)
      requires Claimed(q, slot) && |data| < 0x1_0000 && ResizeSafe(mm.Lay(), slot, |data|)
      modifies this`held, queues, mm, mm.pool
      ensures Valid()
      ensures (status, mm.Lay()) == StoreIn(old(mm.Lay()), slot, |data|)
      ensures held == if status.NoErr? then old(held)[q := old(held[q]) + [slot as nat]] else old(held)
      ensures forall p :: 0 <= p <= DATALOG && p != q ==> queues[p] == old(queues[p])
      ensures SameBut(old(mm.Lay()), old(mm.pool[..]), mm.Lay(), mm.pool[..], slot)
      ensures status.NoErr? ==> Text(mm.Lay(), mm.pool[..], slot) == data
    {
      hide QueueOk, ClaimedOk, Layout.Inv, MemMgr.Vecs, Descs, SameBut, Resize, ResizeSafe, Separate, AllHold,
        TwoLists, FreeVector, Content;
      ghost var L, m := mm.Lay(), mm.pool[..];
      var queue := queues[q];
      ClaimedBounds(queue, held[q], Depth(q), slot);
      ResizeOthers(L, slot, |data|);
      WordSizedFits(L, slot, |data|);
      status := mm.DVArrayAlloc(slot, |data|);
      AllHeldStay(L, m, held, mm.Lay(), mm.pool[..], slot);
      ghost var G, m1 := mm.Lay(), mm.pool[..];
      if status.ErrMem? {
        mm.FreeDopeVector(slot);
        queues[q] := Unclaimed(queue);
      } else {
        mm.CopyIn(slot, data);
        Commit(queue, held[q], Depth(q), slot);
        queues[q] := queue.(writeIndex := (queue.writeIndex + 1) % Depth(q));
      }
      AllHeldStay(G, m1, held, mm.Lay(), mm.pool[..], slot);
      SameButTrans(L, m, G, m1, mm.Lay(), mm.pool[..], slot, slot);
      if status.NoErr? {
        SeparateWith(mm.Lay(), held, q, slot);
        held := held[q := held[q] + [slot as nat]];
      }
    }

    /** The vector a write to queue q will reuse, or 0. */
    ghost function Reused(q: nat): nat
      requires Valid() && q <= DATALOG
      reads this, queues, mm, mm.pool
    {
      if |held[q]| == Depth(q) then held[q][0] else 0
    }

    /** A write to queue q can go wrong only where it grows a reused vector next to an array without storage. */
    ghost predicate WriteSafe(q: nat, n: nat)
      requires Valid() && q <= DATALOG
      reads this, queues, mm, mm.pool
    {
      n < 0x1_0000 && (Reused(q) != 0 ==> (OldestHolds(mm.Lay(), held, q); ResizeSafe(mm.Lay(), Reused(q), n)))
    }

    /** Queue q without its oldest message if it is full */
    ghost function Rest(q: nat): seq<seq<byte>>
      requires Valid() && q <= DATALOG
      reads this, queues, mm, mm.pool
    {
      if |held[q]| == Depth(q) then Messages(q)[1..] else Messages(q)
    }

    /** The part cCmdMessageWrite and cCmdDatalogWrite have in common */
    method Store(q: nat, data: seq<byte>) returns (status: Status)
      requires Valid() && q <= DATALOG && WriteSafe(q, |data|)
      modifies this`held, queues, mm, mm.pool
      ensures Valid()
      ensures old(Reused(q)) != 0 ==> old(Reused(q)) in old(mm.used)
      ensures (status, mm.Lay()) == StoreLayout(old(mm.Lay()), old(Reused(q)), |data|)
      ensures Messages(q) == if status.NoErr? then old(Rest(q)) + [data] else old(Rest(q))
      ensures forall p :: 0 <= p <= DATALOG && p != q ==> Messages(p) == old(Messages(p))
      ensures SameBut(old(mm.Lay()), old(mm.pool[..]), mm.Lay(), mm.pool[..], old(Reused(q)))
      ensures OwnKept(old(mm.Lay()), old(mm.pool[..]), old(held), mm.Lay(), mm.pool[..], held)
    {
      hide QueueOk, ClaimedOk, Layout.Inv, MemMgr.Vecs, Descs, SameBut, OwnKept, NotHeld, ResizeSafe, Separate,
        AllHold, TwoLists, Texts, Text, StoreIn, AllocVector, FifoWrite;
      ghost var L, m, h, i := mm.Lay(), mm.pool[..], held, Reused(q);
      QueueBounds(queues[q], held[q], Depth(q));
      if |held[q]| == Depth(q) { OldestHolds(L, held, q); }
      ReusedIsApart(L, held, q, i);
      AllocVectorKeepsInv(L, 1);
      var slot;
      status, slot := Claim(q);
      if status.ErrMem? {
        AllTextsStay(L, m, mm.Lay(), mm.pool[..], 0, h);
        OwnKeptSame(L, m, mm.Lay(), mm.pool[..], h);
        return;
      }
      ghost var G, m1 := mm.Lay(), mm.pool[..];
      if i == 0 { StoreIsSafe(G, slot, |data|); }
      status := Fill(q, slot, data);
      ghost var M, m2 := mm.Lay(), mm.pool[..];
      SameButTrans(L, m, G, m1, M, m2, 0, slot);
      if i == 0 { SameButUnused(L, m, M, m2, slot); }
      WriteTexts(L, m, M, m2, i, h, q, slot, status.NoErr?, held);
      OwnKeptByWrite(L, m, M, m2, i, h, q, slot, status.NoErr?, held);
    }

    /** cCmdMessageWrite */
    method MessageWrite(queueID: nat, buffer: Buffer) returns (status: int)
      requires Valid()
      requires buffer.Bytes? && queueID < MESSAGE_QUEUE_COUNT && active && |buffer.data| <= MAX_MESSAGE_SIZE ==>
        WriteSafe(queueID, |buffer.data|)
      modifies this`held, queues, mm, mm.pool
      ensures Valid()
      ensures buffer.Null? ==> status == ERR_ARG
      ensures buffer.Bytes? && queueID >= MESSAGE_QUEUE_COUNT ==> status == ERR_INVALID_QUEUE
      ensures buffer.Bytes? && queueID < MESSAGE_QUEUE_COUNT && !active ==> status == ERR_NO_PROG
      ensures buffer.Bytes? && queueID < MESSAGE_QUEUE_COUNT && active && |buffer.data| > MAX_MESSAGE_SIZE ==>
        status == ERR_INVALID_SIZE
      ensures buffer.Null? || queueID >= MESSAGE_QUEUE_COUNT || !active || |buffer.data| > MAX_MESSAGE_SIZE ==>
        mm.pool[..] == old(mm.pool[..]) && mm.Lay() == old(mm.Lay())
        && forall p :: 0 <= p <= DATALOG ==> Messages(p) == old(Messages(p))
      ensures buffer.Bytes? && queueID < MESSAGE_QUEUE_COUNT && active && |buffer.data| <= MAX_MESSAGE_SIZE ==>
        && (status == NO_ERR || status == ERR_MEM)
        && Messages(queueID) == (if status == NO_ERR
          then FifoWrite(old(Messages(queueID)), MESSAGES_PER_QUEUE, buffer.data) else old(Rest(queueID)))
        && Stores(old(mm.Lay()), old(Reused(queueID)), |buffer.data|, status == NO_ERR, mm.Lay())
        && SameBut(old(mm.Lay()), old(mm.pool[..]), mm.Lay(), mm.pool[..], old(Reused(queueID)))
        && forall p :: 0 <= p <= DATALOG && p != queueID ==> Messages(p) == old(Messages(p))
      ensures old(AllocatedBut(mm.Lay(), NIL)) && (buffer.Bytes? ==> |buffer.data| > 0) ==> AllocatedBut(mm.Lay(), NIL)
      ensures OwnKept(old(mm.Lay()), old(mm.pool[..]), old(held), mm.Lay(), mm.pool[..], held)
    {
      hide QueueOk, Layout.Inv, MemMgr.Vecs, Descs, SameBut, OwnKept, NotHeld, Texts, StoreLayout, AllocatedBut,
        AllHold, Separate, TwoLists, ResizeSafe;
      OwnStillKept();
      if buffer.Null? {
        return ERR_ARG;
      }
      if queueID >= MESSAGE_QUEUE_COUNT {
        return ERR_INVALID_QUEUE;
      }
      if !active {
        return ERR_NO_PROG;
      }
      if |buffer.data| > MAX_MESSAGE_SIZE {
        return ERR_INVALID_SIZE;
      }
      ghost var L, i := mm.Lay(), Reused(queueID);
      var s := Store(queueID, buffer.data);
      if AllocatedBut(L, NIL) && |buffer.data| > 0 { StoreKeepsAllocated(L, i, |buffer.data|); }
      status := if s.NoErr? then NO_ERR else ERR_MEM;
    }

    /** cCmdDatalogWrite. A full buffer reports BUFFERWRAP; all bits of BUFFERWRAP are set in ERR_MEM, so
        the two combined by or are ERR_MEM. */
    method DatalogWrite(buffer: Buffer) returns (status: int)
      requires Valid() && (buffer.Bytes? && active && |buffer.data| <= MAX_DATALOG_SIZE ==> WriteSafe(DATALOG, |buffer.data|))
      modifies this`held, queues, mm, mm.pool
      ensures Valid()
      ensures buffer.Null? ==> status == ERR_ARG
      ensures buffer.Bytes? && !active ==> status == ERR_NO_PROG
      ensures buffer.Bytes? && active && |buffer.data| > MAX_DATALOG_SIZE ==> status == ERR_INVALID_SIZE
      ensures buffer.Null? || !active || |buffer.data| > MAX_DATALOG_SIZE ==>
        mm.pool[..] == old(mm.pool[..]) && mm.Lay() == old(mm.Lay())
        && forall p :: 0 <= p <= DATALOG ==> Messages(p) == old(Messages(p))
      ensures buffer.Bytes? && active && |buffer.data| <= MAX_DATALOG_SIZE ==>
        && (status == ERR_MEM || status ==
          if |old(Messages(DATALOG))| == DATALOG_QUEUE_DEPTH then STAT_MSG_BUFFERWRAP else NO_ERR)
        && Messages(DATALOG) == (if status != ERR_MEM
          then FifoWrite(old(Messages(DATALOG)), DATALOG_QUEUE_DEPTH, buffer.data) else old(Rest(DATALOG)))
        && forall p :: 0 <= p < DATALOG ==> Messages(p) == old(Messages(p))
      ensures old(AllocatedBut(mm.Lay(), NIL)) && (buffer.Bytes? ==> |buffer.data| > 0) ==> AllocatedBut(mm.Lay(), NIL)
      ensures OwnKept(old(mm.Lay()), old(mm.pool[..]), old(held), mm.Lay(), mm.pool[..], held)
    {
      hide QueueOk, Layout.Inv, MemMgr.Vecs, Descs, SameBut, OwnKept, NotHeld, Texts, StoreLayout, AllocatedBut,
        AllHold, Separate, TwoLists, ResizeSafe;
      OwnStillKept();
      if buffer.Null? {
        return ERR_ARG;
      }
      if !active {
        return ERR_NO_PROG;
      }
      if |buffer.data| > MAX_DATALOG_SIZE {
        return ERR_INVALID_SIZE;
      }
      var wrap := SlotTaken(DATALOG);
      ghost var L, i := mm.Lay(), Reused(DATALOG);
      var s := Store(DATALOG, buffer.data);
      if AllocatedBut(L, NIL) && |buffer.data| > 0 { StoreKeepsAllocated(L, i, |buffer.data|); }
      status := if s.ErrMem? then ERR_MEM else if wrap then STAT_MSG_BUFFERWRAP else NO_ERR;
    }

    /** IS_DV_INDEX_SANE of the write slot: the queue is full. */
    method SlotTaken(q: nat) returns (taken: bool)
      requires Valid() && q <= DATALOG
      ensures taken <==> |held[q]| == Depth(q)
    {
      hide QueueOk, Layout.Inv, AllHold, Separate;
      QueueBounds(queues[q], held[q], Depth(q));
      WriteSlot(queues[q], held[q], Depth(q));
      mm.ValidFacts();
      if |held[q]| == Depth(q) { OldestHolds(mm.Lay(), held, q); }
      var slot := queues[q].slots[queues[q].writeIndex];
      taken := 0 < slot < mm.Vec(0).count;
    }

    /** cCmdMessageGetSize and cCmdDatalogGetSize past their checks */
    method PeekSize(q: nat) returns (status: int, size: nat)
      requires Valid() && q <= DATALOG
      ensures if Messages(q) == [] then status == STAT_MSG_EMPTY_MAILBOX && size == 0
              else status == NO_ERR && size == |Messages(q)[0]|
    {
      hide QueueOk, Layout.Inv, AllHold, Separate, Desc.Size;
      QueueBounds(queues[q], held[q], Depth(q));
      ReadSlot(queues[q], held[q], Depth(q));
      mm.ValidFacts();
      if |held[q]| > 0 { OldestText(mm.Lay(), mm.pool[..], held, q); SizeOfVector(mm.Vecs(), held[q][0]); }
      var slot := queues[q].slots[queues[q].readIndex];
      if 0 < slot < mm.Vec(0).count {
        return NO_ERR, mm.Vec(slot).count;
      }
      return STAT_MSG_EMPTY_MAILBOX, 0;
    }

    /** cCmdMessageRead and cCmdDatalogRead past their checks: length is the room in the caller's buffer. */
    method Fetch(q: nat, length: nat, remove: bool) returns (status: int, data: seq<byte>)
      requires Valid() && q <= DATALOG
      modifies this`held, queues, mm, mm.pool
      ensures Valid()
      ensures forall p :: 0 <= p <= DATALOG && p != q ==> Messages(p) == old(Messages(p))
      ensures old(Messages(q)) == [] ==> status == STAT_MSG_EMPTY_MAILBOX && data == [] && Messages(q) == []
      ensures old(Messages(q)) != [] && length < |old(Messages(q))[0]| ==>
        status == ERR_INVALID_SIZE && data == [] && Messages(q) == old(Messages(q))
      ensures old(Messages(q)) != [] && length >= |old(Messages(q))[0]| ==>
        status == NO_ERR && data == old(Messages(q))[0]
        && Messages(q) == if remove then old(Messages(q))[1..] else old(Messages(q))
      ensures old(Messages(q)) != [] ==> old(held[q][0]) != 0 && old(held[q][0]) in old(mm.used)
      ensures mm.Lay() == if status == NO_ERR && remove then FreeVector(old(mm.Lay()), old(held[q][0])) else old(mm.Lay())
      ensures OwnKept(old(mm.Lay()), old(mm.pool[..]), old(held), mm.Lay(), mm.pool[..], held)
    {
      hide QueueOk, Layout.Inv, AllHold, Separate, Desc.Size, Texts, Text, SameBut, OwnKept, NotHeld, FreeVector,
        MemMgr.Vecs, Descs;
      OwnStillKept();
      var queue := queues[q];
      ghost var L, m, h := mm.Lay(), mm.pool[..], held;
      QueueBounds(queue, held[q], Depth(q));
      ReadSlot(queue, held[q], Depth(q));
      mm.ValidFacts();
      if |held[q]| > 0 { OldestHolds(L, held, q); OldestText(L, m, held, q); mm.CountOf(held[q][0]); }
      var slot := queue.slots[queue.readIndex];
      if !(0 < slot < mm.Vec(0).count) {
        assert queue.readIndex == queue.writeIndex;
        return STAT_MSG_EMPTY_MAILBOX, [];
      }
      if length < mm.Vec(slot).count {
        return ERR_INVALID_SIZE, [];
      }
      data := mm.CopyOut(slot);
      status := NO_ERR;
      if remove {
        Remove(q, slot);
      }
    }

    /** Frees the oldest message of queue q, whose vector is slot. */
    method Remove(q: nat, slot: word)
      requires Valid() && q <= DATALOG && held[q] != [] && slot == held[q][0]
      modifies this`held, queues, mm, mm.pool
      ensures Valid()
      ensures slot != 0 && slot as nat in old(mm.used) && mm.Lay() == FreeVector(old(mm.Lay()), slot)
      ensures Messages(q) == old(Messages(q))[1..]
      ensures forall p :: 0 <= p <= DATALOG && p != q ==> Messages(p) == old(Messages(p))
      ensures OwnKept(old(mm.Lay()), old(mm.pool[..]), old(held), mm.Lay(), mm.pool[..], held)
    {
      hide QueueOk, Layout.Inv, AllHold, Separate, Texts, Text, SameBut, OwnKept, NotHeld, FreeVector, MemMgr.Vecs,
        Descs;
      var queue := queues[q];
      ghost var L, m, h := mm.Lay(), mm.pool[..], held;
      QueueBounds(queue, held[q], Depth(q));
      ReadSlot(queue, held[q], Depth(q));
      OldestHolds(L, held, q);
      mm.FreeDopeVector(slot);
      Pop(queue, held[q], Depth(q));
      queues[q] := Queue((queue.readIndex + 1) % Depth(q), queue.writeIndex, queue.slots[queue.readIndex := NIL]);
      held := held[q := held[q][1..]];
      ReusedIsApart(L, h, q, slot);
      AllHeldStay(L, m, held, mm.Lay(), mm.pool[..], slot);
      WriteTexts(L, m, mm.Lay(), mm.pool[..], slot, h, q, 0, false, held);
      OwnKeptByWrite(L, m, mm.Lay(), mm.pool[..], slot, h, q, slot, false, held);
    }

    /** cCmdMessageGetSize; wanted says that the size argument is not a null pointer. */
    method MessageGetSize(queueID: nat, wanted: bool) returns (status: int, size: nat)
      requires Valid()
      ensures !wanted ==> status == ERR_ARG
      ensures wanted && !active ==> status == ERR_NO_PROG && size == 0
      ensures wanted && active && queueID >= MESSAGE_QUEUE_COUNT ==> status == ERR_INVALID_QUEUE && size == 0
      ensures wanted && active && queueID < MESSAGE_QUEUE_COUNT ==>
        if Messages(queueID) == [] then status == STAT_MSG_EMPTY_MAILBOX && size == 0
        else status == NO_ERR && size == |Messages(queueID)[0]|
    {
      if !wanted {
        return ERR_ARG, 0;
      }
      if !active {
        return ERR_NO_PROG, 0;
      }
      if queueID >= MESSAGE_QUEUE_COUNT {
        return ERR_INVALID_QUEUE, 0;
      }
      status, size := PeekSize(queueID);
    }

    /** cCmdMessageRead; wanted says that the buffer is not a null pointer, length is its size. */
    method MessageRead(queueID: nat, wanted: bool, length: nat, remove: bool) returns (status: int, data: seq<byte>)
      requires Valid()
      modifies this`held, queues, mm, mm.pool
      ensures Valid()
      ensures !wanted ==> status == ERR_ARG
      ensures wanted && !active ==> status == ERR_NO_PROG
      ensures wanted && active && queueID >= MESSAGE_QUEUE_COUNT ==> status == ERR_INVALID_QUEUE
      ensures !wanted || !active || queueID >= MESSAGE_QUEUE_COUNT ==>
        data == [] && forall p :: 0 <= p <= DATALOG ==> Messages(p) == old(Messages(p))
      ensures wanted && active && queueID < MESSAGE_QUEUE_COUNT ==>
        && (forall p :: 0 <= p <= DATALOG && p != queueID ==> Messages(p) == old(Messages(p)))
        && var f := old(Messages(queueID));
           if f == [] then status == STAT_MSG_EMPTY_MAILBOX && data == [] && Messages(queueID) == []
           else if length < |f[0]| then status == ERR_INVALID_SIZE && data == [] && Messages(queueID) == f
           else status == NO_ERR && data == f[0] && Messages(queueID) == if remove then f[1..] else f
      ensures old(AllocatedBut(mm.Lay(), NIL)) ==> AllocatedBut(mm.Lay(), NIL)
      ensures OwnKept(old(mm.Lay()), old(mm.pool[..]), old(held), mm.Lay(), mm.pool[..], held)
    {
      hide QueueOk, Layout.Inv, Texts, AllocatedBut, FreeVector, OwnKept, NotHeld;
      ghost var L := mm.Lay();
      OwnStillKept();
      if !wanted {
        return ERR_ARG, [];
      }
      if !active {
        return ERR_NO_PROG, [];
      }
      if queueID >= MESSAGE_QUEUE_COUNT {
        return ERR_INVALID_QUEUE, [];
      }
      ghost var i := if held[queueID] != [] then held[queueID][0] else 0;
      status, data := Fetch(queueID, length, remove);
      if status == NO_ERR && remove && AllocatedBut(L, NIL) { DropKeepsAllocated(L, i); }
    }

    /** cCmdDSCompact as the queues see it */
    method Compact()
      requires Valid() && CompactSafe(mm.Lay())
      modifies mm`poolSize, mm`dataspaceSize, mm`table, mm.pool
      ensures Valid() && Below(old(mm.Lay().used), |old(mm.Lay().d)|) && mm.Lay() == Layouts.Compact(old(mm.Lay()))
      ensures forall p :: 0 <= p <= DATALOG ==> Messages(p) == old(Messages(p))
      ensures old(AllocatedBut(mm.Lay(), NIL)) ==> AllocatedBut(mm.Lay(), NIL)
      ensures OwnKept(old(mm.Lay()), old(mm.pool[..]), old(held), mm.Lay(), mm.pool[..], held)
    {
      hide QueueOk, Layout.Inv, AllHold, Separate, Texts, SameBut, OwnKept, NotHeld, MemMgr.Vecs, Descs, TwoLists,
        Compacted, Pos, AllocatedBut, CompactSafe;
      ghost var L, m := mm.Lay(), mm.pool[..];
      if AllocatedBut(L, NIL) { CompactKeepsAllocated(L); }
      mm.ValidFacts();
      mm.DSCompact();
      HeldAreUsed(L, held, 0);
      AllHeldStay(L, m, held, mm.Lay(), mm.pool[..], 0);
      AllTextsStay(L, m, mm.Lay(), mm.pool[..], 0, held);
      OwnKeptSame(L, m, mm.Lay(), mm.pool[..], held);
    }

    /** RC_MESSAGE_WRITE: write, and when memory is short compact and write again */
    method RemoteMessageWrite(queueID: nat, data: seq<byte>) returns (status: int)
      requires Valid()
      requires LegalMessage(data) && queueID < MESSAGE_QUEUE_COUNT && active ==> WriteSafe(queueID, |data|)
      modifies this`held, queues, mm, mm.pool
      ensures Valid()
      ensures forall p :: 0 <= p <= DATALOG && p != queueID ==> Messages(p) == old(Messages(p))
      ensures data == [] || |data| > MAX_MESSAGE_SIZE || data[|data| - 1] != 0 ==> status == ERR_RC_ILLEGAL_VAL
      ensures LegalMessage(data) && queueID >= MESSAGE_QUEUE_COUNT ==> status == ERR_INVALID_QUEUE
      ensures LegalMessage(data) && queueID < MESSAGE_QUEUE_COUNT && !active ==> status == ERR_NO_PROG
      ensures (!LegalMessage(data) || queueID >= MESSAGE_QUEUE_COUNT || !active) && queueID <= DATALOG ==>
        Messages(queueID) == old(Messages(queueID))
      ensures 0 < |data| <= MAX_MESSAGE_SIZE && data[|data| - 1] == 0 && queueID < MESSAGE_QUEUE_COUNT && active ==>
        && (old(Reused(queueID)) != 0 ==> old(Reused(queueID)) in old(mm.used))
        && status == (if RetryFails(old(mm.Lay()), old(Reused(queueID)), |data|) then ERR_MEM else NO_ERR)
        && Messages(queueID) == (if status == NO_ERR
          then FifoWrite(old(Messages(queueID)), MESSAGES_PER_QUEUE, data) else old(Rest(queueID)))
      ensures old(AllocatedBut(mm.Lay(), NIL)) ==> AllocatedBut(mm.Lay(), NIL)
      ensures OwnKept(old(mm.Lay()), old(mm.pool[..]), old(held), mm.Lay(), mm.pool[..], held)
    {
      hide QueueOk, Layout.Inv, AllHold, Separate, Texts, SameBut, OwnKept, NotHeld, MemMgr.Vecs, Descs, TwoLists,
        StoreLayout, Compacted, Pos, ResizeSafe, AllocatedBut;
      OwnStillKept();
      if !LegalMessage(data) {
        return ERR_RC_ILLEGAL_VAL;
      }
      ghost var L, m, h, n := mm.Lay(), mm.pool[..], held, |data|;
      ghost var slot := if queueID <= DATALOG then Reused(queueID) else 0;
      if queueID <= DATALOG { QueueBounds(queues[queueID], held[queueID], Depth(queueID)); }
      status := MessageWrite(queueID, Bytes(data));
      if status == ERR_MEM {
        FailureAligns(L, slot, n);
        AlignedIsSafe(mm.Lay());
        ghost var F, f, h1 := mm.Lay(), mm.pool[..], held;
        Compact();
        ghost var G, g, h2 := mm.Lay(), mm.pool[..], held;
        OwnKeptTrans(L, m, h, F, f, h1, G, g, h2);
        status := MessageWrite(queueID, Bytes(data));
        OwnKeptTrans(L, m, h, G, g, h2, mm.Lay(), mm.pool[..], held);
      }
    }

    lemma OwnStillKept()
      requires Valid()
      ensures OwnKept(mm.Lay(), mm.pool[..], held, mm.Lay(), mm.pool[..], held)
    {
      hide QueueOk, Layout.Inv, AllHold, Separate, MemMgr.Vecs, Descs, OwnKept;
      mm.StillSame();
      OwnKeptSame(mm.Lay(), mm.pool[..], mm.Lay(), mm.pool[..], held);
    }

    /** With storage behind every listed array no write can go wrong. */
    lemma WritesAreSafe(q: nat, n: nat)
      requires Valid() && q <= DATALOG && n < 0x1_0000 && AllocatedBut(mm.Lay(), NIL)
      ensures WriteSafe(q, n)
    {
      hide QueueOk, Layout.Inv, AllHold, Separate, MemMgr.Vecs, Descs, AllocatedBut, ResizeSafe;
      QueueBounds(queues[q], held[q], Depth(q));
      if Reused(q) != 0 {
        OldestHolds(mm.Lay(), held, q);
        StoreIsSafe(mm.Lay(), Reused(q), n);
      }
    }
  }

  lemma QueueBounds(q: Queue, h: seq<nat>, n: nat)
    requires QueueOk(q, h, n)
    ensures |q.slots| == n && q.readIndex < n && q.writeIndex < n && |h| <= n
  {
  }

  /** The oldest message of a queue can be dropped and its vector used for another one. */
  lemma OldestHolds(L: Layout, held: seq<seq<nat>>, q: nat)
    requires q < |held| && |held[q]| > 0 && Separate(held) && forall p :: 0 <= p < |held| ==> AllHold(L, held[p])
    ensures Holds(L, held[q][0]) && 0 < held[q][0] < |L.d|
    ensures var held' := held[q := held[q][1..]];
      && Separate(held')
      && (forall p :: 0 <= p < |held| ==> AllHold(L, held'[p]))
      && forall p :: 0 <= p < |held| ==> held[q][0] !in held'[p]
  {
    var held' := held[q := held[q][1..]];
    forall p | 0 <= p < |held| ensures AllHold(L, held'[p]) {
      assert AllHold(L, held[p]);
    }
    assert AllHold(L, held[q]);
    assert forall p, j :: 0 <= p < |held'| && 0 <= j < |held'[p]| ==> held'[p][j] == held[p][if p == q then j + 1 else j];
  }

  lemma HeldAreUsed(L: Layout, held: seq<seq<nat>>, i: nat)
    requires forall p :: 0 <= p < |held| ==> AllHold(L, held[p])
    ensures forall p :: 0 <= p < |held| ==> 0 !in held[p]
    ensures i !in L.used ==> forall p :: 0 <= p < |held| ==> i !in held[p]
  {
    forall p | 0 <= p < |held| ensures 0 !in held[p] && (i !in L.used ==> i !in held[p]) {
      assert AllHold(L, held[p]);
    }
  }

  lemma ClaimedBounds(q: Queue, h: seq<nat>, n: nat, slot: word)
    requires ClaimedOk(q, h, n, slot)
    ensures |q.slots| == n && q.writeIndex < n && |h| < n && QueueOk(Unclaimed(q), h, n)
  {
  }

  /** A vector that stands for no message can be added to any queue. */
  lemma SeparateWith(L: Layout, held: seq<seq<nat>>, q: nat, i: nat)
    requires q < |held| && Separate(held) && (forall p :: 0 <= p < |held| ==> i !in held[p])
    requires Holds(L, i) && forall p :: 0 <= p < |held| ==> AllHold(L, held[p])
    ensures var held' := held[q := held[q] + [i]];
      Separate(held') && forall p :: 0 <= p < |held| ==> AllHold(L, held'[p])
  {
    var held' := held[q := held[q] + [i]];
    forall p | 0 <= p < |held| ensures AllHold(L, held'[p]) {
      assert AllHold(L, held[p]);
    }
    assert forall p, j :: 0 <= p < |held'| && 0 <= j < |held'[p]| ==>
      held'[p][j] == if p == q && j == |held[q]| then i else held[p][j];
    assert forall p, j :: 0 <= p < |held| && 0 <= j < |held[p]| ==> held[p][j] in held[p];
  }

  /** The vector a write reuses stands for no message but the oldest of the full queue. */
  lemma ReusedIsApart(L: Layout, held: seq<seq<nat>>, q: nat, i: nat)
    requires q < |held| && Separate(held) && (forall p :: 0 <= p < |held| ==> AllHold(L, held[p]))
    requires i == 0 || (|held[q]| > 0 && i == held[q][0])
    ensures forall p :: 0 <= p < |held| && p != q ==> i !in held[p]
    ensures i == 0 ==> i !in held[q]
    ensures i != 0 ==> i !in held[q][1..]
  {
    HeldAreUsed(L, held, 0);
  }

  lemma AllTextsStay(L: Layout, m: seq<byte>, M: Layout, m': seq<byte>, i: nat, held: seq<seq<nat>>)
    requires SameBut(L, m, M, m', i) && forall p :: 0 <= p < |held| ==> AllHold(L, held[p])
    requires i == 0 || forall p :: 0 <= p < |held| ==> i !in held[p]
    ensures forall p :: 0 <= p < |held| ==> Texts(M, m', held[p]) == Texts(L, m, held[p])
  {
    hide SameBut, AllHold, Texts;
    HeldAreUsed(L, held, 0);
    forall p | 0 <= p < |held| ensures Texts(M, m', held[p]) == Texts(L, m, held[p]) {
      TextsStay(L, m, M, m', i, held[p]);
    }
  }

  lemma SameButUnused(L: Layout, m: seq<byte>, M: Layout, m': seq<byte>, i: nat)
    requires SameBut(L, m, M, m', i) && i !in L.used
    ensures SameBut(L, m, M, m', 0)
  {
    hide Same;
  }

  /** How the messages read after a write. */
  lemma WriteTexts(L: Layout, m: seq<byte>, M: Layout, m': seq<byte>, i: nat, h: seq<seq<nat>>, q: nat, slot: nat,
                   ok: bool, h': seq<seq<nat>>)
    requires q < |h| && SameBut(L, m, M, m', i) && forall p :: 0 <= p < |h| ==> AllHold(L, h[p])
    requires forall p :: 0 <= p < |h| && p != q ==> i !in h[p]
    requires if i == 0 then i !in h[q] else |h[q]| > 0 && i == h[q][0] && i !in h[q][1..]
    requires var rest := if i == 0 then h[q] else h[q][1..];
      h' == h[q := if ok then rest + [slot] else rest]
    ensures forall p :: 0 <= p < |h| && p != q ==> Texts(M, m', h'[p]) == Texts(L, m, h[p])
    ensures var rest := if i == 0 then Texts(L, m, h[q]) else Texts(L, m, h[q])[1..];
      Texts(M, m', h'[q]) == if ok then rest + [Text(M, m', slot)] else rest
  {
    hide SameBut, Text;
    forall p | 0 <= p < |h| && p != q ensures Texts(M, m', h'[p]) == Texts(L, m, h[p]) {
      TextsStay(L, m, M, m', i, h[p]);
    }
    var rest := if i == 0 then h[q] else h[q][1..];
    assert AllHold(L, rest) by { assert AllHold(L, h[q]); }
    TextsStay(L, m, M, m', i, rest);
    assert Texts(L, m, rest) == if i == 0 then Texts(L, m, h[q]) else Texts(L, m, h[q])[1..];
    assert Texts(M, m', rest + [slot]) == Texts(M, m', rest) + [Text(M, m', slot)];
  }

  lemma OwnKeptSame(L: Layout, m: seq<byte>, M: Layout, m': seq<byte>, held: seq<seq<nat>>)
    requires SameBut(L, m, M, m', 0)
    ensures OwnKept(L, m, held, M, m', held)
  {
    hide Same;
  }

  /** A write that changes the vector it reuses, or a fresh one, keeps the arrays of the program. */
  lemma OwnKeptByWrite(L: Layout, m: seq<byte>, M: Layout, m': seq<byte>, i: nat, h: seq<seq<nat>>, q: nat, slot: nat,
                       ok: bool, h': seq<seq<nat>>)
    requires q < |h| && SameBut(L, m, M, m', i) && (i == 0 || (|h[q]| > 0 && i == h[q][0])) && (slot in L.used ==> slot == i)
    requires var rest := if i == 0 then h[q] else h[q][1..];
      h' == h[q := if ok then rest + [slot] else rest]
    ensures OwnKept(L, m, h, M, m', h')
  {
    hide SameBut, OwnKept;
    if i != 0 {
      assert i in h[q];
    }
    OwnKeptFrom(L, m, h, M, m', h', i, slot);
  }

  lemma OldestText(L: Layout, m: seq<byte>, held: seq<seq<nat>>, q: nat)
    requires L.Inv() && |m| == POOL_MAX_SIZE && q < |held| && |held[q]| > 0 && forall p :: 0 <= p < |held| ==> AllHold(L, held[p])
    ensures Holds(L, held[q][0])
    ensures Texts(L, m, held[q])[0] == Content(m, L.base, L.d[held[q][0]]) && |Texts(L, m, held[q])[0]| == L.d[held[q][0]].count
  {
    hide Layout.Inv;
    assert AllHold(L, held[q]);
    ContentLength(L, m, held[q][0]);
  }

  lemma AllHeldStay(L: Layout, m: seq<byte>, held: seq<seq<nat>>, M: Layout, m': seq<byte>, i: nat)
    requires SameBut(L, m, M, m', i) && forall q :: 0 <= q < |held| ==> AllHold(L, held[q])
    requires forall q :: 0 <= q < |held| ==> i !in held[q]
    ensures forall q :: 0 <= q < |held| ==> AllHold(M, held[q])
  {
    hide SameBut, AllHold;
    forall q | 0 <= q < |held| ensures AllHold(M, held[q]) {
      TextsStay(L, m, M, m', i, held[q]);
    }
  }
}

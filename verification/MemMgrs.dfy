/**
 The memory manager on the pool itself. The table of dope vectors lies in the pool as array 0, so
 every link and every field is read from and written to the same bytes that hold the program's data.
*/
module MemMgrs {
  import opened Words
  import opened Seqs
  import opened Layouts
  import opened LayoutInvariants
  import opened CompactionProofs
  import opened AllocatorRuns
  import opened Vectors
  import opened Storage

  class MemMgr {
    const pool: array<byte>
    /** pDataspace - Pool */
    const base: nat
    /** DSStaticSize */
    const staticSize: nat
    var poolSize: nat
    var dataspaceSize: nat
    var head: word
    var tail: word
    var freeHead: word
    /** pDopeVectorArray - pDataspace */
    var table: nat
    ghost var count: nat
    ghost var used: seq<nat>
    ghost var free: seq<nat>

    /** Takes over a loaded program: the file supplies forward links only, and activation adds the back links. */
    constructor (pool: array<byte>, base: nat, staticSize: nat, dataspaceSize: nat, head: word, tail: word, table: nat,
                 ghost count: nat, ghost used: seq<nat>)
      requires pool.Length == POOL_MAX_SIZE && base + table + VECTOR_SIZE * count <= pool.Length
      requires var t := Table(pool[..], base + table, count);
        && Forward(t, used, head) && used != [] && tail == used[|used| - 1]
        && Layout(base, staticSize, Descs(t), used, [], dataspaceSize).Inv()
        && Descs(t)[0].offset == table
      modifies pool
      ensures Valid() && this.pool == pool && Lay() == Layout(base, staticSize,
        old(Descs(Table(pool[..], base + table, count))), used, [], dataspaceSize)
      ensures SameOutside(old(pool[..]), pool[..], base + table, base + table + VECTOR_SIZE * count, POOL_MAX_SIZE)
    {
      hide Table, VectorAt, SameOutside, Descs, Layout.Inv, TwoLists, Forward;
      this.pool, this.base, this.staticSize := pool, base, staticSize;
      this.poolSize, this.dataspaceSize := base + dataspaceSize, dataspaceSize;
      this.head, this.tail, this.freeHead, this.table := head, tail, NIL, table;
      this.count, this.used, this.free := count, used, [];
      new;
      FixBackLinks();
    }

    /** The loop of cCmdActivateProgram that stores every back link. */
    method FixBackLinks()
      requires pool.Length == POOL_MAX_SIZE && TableInPool() && Forward(Vecs(), used, head) && used != []
        && tail == used[|used| - 1]
      requires free == [] && freeHead == NIL && Lay().Inv() && table == Lay().d[0].offset && poolSize == base + dataspaceSize
      modifies pool
      ensures Valid() && Lay() == old(Lay()) && OnlyTable(old(pool[..]))
    {
      hide Table, VectorAt, SameOutside, Descs, Layout.Inv, Next;
      ghost var t, m, k := Vecs(), pool[..], 0;
      LayoutFacts(Lay());
      NothingWritten();
      HeadOfForward(t, used, head);
      var i, prev: word := head, NIL;
      while i != NIL
        invariant k <= |used| && i == (if k < |used| then used[k] else NIL)
        invariant k == 0 ==> prev == NIL
        invariant k > 0 ==> prev == used[k - 1]
        invariant BackLinked(t, Vecs(), used, k) && OnlyTable(m) && Descs(Vecs()) == Descs(t)
        modifies pool
        decreases |used| - k
      {
        NextInList(t, used, head, k);
        BackLinkStep(t, Vecs(), used, k, prev);
        Set(i, BackLinkField, prev, m);
        prev := i;
        i := Vec(i).link;
        k := k + 1;
      }
      AllBackLinked(t, Vecs(), used, head, tail);
    }

    ghost predicate TableInPool()
      reads this
    {
      base + table + VECTOR_SIZE * count <= pool.Length
    }

    ghost function Vecs(): (t: seq<Vector>)
      requires TableInPool()
      reads this, pool
      ensures |t| == count
    {
      Table(pool[..], base + table, count)
    }

    ghost function Lay(): Layout
      requires TableInPool()
      reads this, pool
    {
      Layout(base, staticSize, Descs(Vecs()), used, free, dataspaceSize)
    }

    ghost function State(): Pool
      requires TableInPool()
      reads this, pool
    {
      Pool(Lay(), poolSize)
    }

    /** The links stored in the table spell out the two lists. */
    ghost predicate LinksOk()
      reads this, pool
    {
      TableInPool() && TwoLists(Vecs(), used, free, head, tail, freeHead)
    }

    ghost predicate Valid()
      reads this, pool
    {
      && pool.Length == POOL_MAX_SIZE
      && LinksOk()
      && Lay().Inv()
      && table == Lay().d[0].offset
      && poolSize == base + dataspaceSize
    }

    /** What the program stored in array x. */
    ghost function Bytes(x: nat): seq<byte>
      requires TableInPool() && x < count
      reads this, pool
    {
      Content(pool[..], base, Lay().d[x])
    }

    /** Only bytes of the table have changed since the pool held m. */
    ghost predicate OnlyTable(m: seq<byte>)
      reads this, pool
    {
      SameOutside(m, pool[..], base + table, base + table + VECTOR_SIZE * count, pool.Length)
    }

    /** DV_ARRAY[i] */
    function Vec(i: nat): (v: Vector)
      requires TableInPool() && i < count
      reads this, pool
      ensures v == Vecs()[i]
    {
      VectorAt(pool[..], base + table + VECTOR_SIZE * i)
    }

    /** DV_ARRAY[i].field = v */
    method Set(i: nat, field: Field, v: word, ghost m0: seq<byte>)
      requires TableInPool() && i < count && OnlyTable(m0)
      modifies pool
      ensures Vecs() == old(Vecs())[i := old(Vecs())[i].With(field, v)]
      ensures OnlyTable(m0)
    {
      var a := base + table + VECTOR_SIZE * i + 2 * field.Index();
      ghost var m := pool[..];
      pool[a] := v % 0x100;
      pool[a + 1] := v / 0x100;
      assert pool[..] == Put(m, a, v);
      PutChangesOneField(m, base + table, count, i, field, v);
    }

    /** cCmdMemMgrInsertAtTail */
    method InsertAtTail(i: word, ghost m0: seq<byte>)
      requires OnlyTable(m0) && LinksOk() && i < count < NIL && i !in used && i !in free
      modifies pool, `tail, `used
      ensures LinksOk() && OnlyTable(m0)
      ensures used == old(used) + [i]
      ensures Descs(Vecs()) == old(Descs(Vecs()))
    {
      hide Table, VectorAt, SameOutside, Linked, NoDup, Disjoint, Descs;
      InsertedAtTail(Vecs(), used, free, head, tail, freeHead, i);
      InsertKeepsDescs(Vecs(), i, tail);
      Set(tail, LinkField, i, m0);
      Set(i, BackLinkField, tail, m0);
      Set(i, LinkField, NIL, m0);
      tail := i;
      used := used + [i];
    }

    /** Removes vector i from the used list: the part shared by cCmdFreeDopeVector and cCmdMemMgrMoveToTail. */
    method Unlink(i: word, ghost m0: seq<byte>)
      requires OnlyTable(m0) && LinksOk() && i in used && count < NIL
      modifies pool, `head
      ensures TableInPool() && OnlyTable(m0)
      ensures i < count && Vecs() == Cut(old(Vecs()), i, old(head))
      ensures head == if i == old(head) then old(Vecs())[i].link else old(head)
    {
      hide Table, VectorAt, SameOutside, Linked, NoDup, Disjoint;
      LinksInRange(Vecs(), used, head, i);
      if i == head {
        head := Vec(i).link;
        if head != NIL {
          Set(head, BackLinkField, NIL, m0);
        }
      } else {
        var prev, post := Vec(i).backLink, Vec(i).link;
        Set(prev, LinkField, post, m0);
        if post != NIL {
          Set(post, BackLinkField, prev, m0);
        }
      }
    }

    /** cCmdMemMgrMoveToTail */
    method MoveToTail(i: word, ghost m0: seq<byte>)
      requires OnlyTable(m0) && LinksOk() && i in used && count < NIL
      modifies pool, `head, `tail, `used
      ensures LinksOk() && OnlyTable(m0)
      ensures used == Without(old(used), i) + [i]
      ensures Descs(Vecs()) == old(Descs(Vecs()))
    {
      hide Table, VectorAt, SameOutside, Linked, Descs, NoDup, Disjoint;
      if i == tail {
        MoveOfLast(used);
        return;
      }
      MovedToTail(Vecs(), used, free, head, tail, freeHead, i);
      CutUnlinks(Vecs(), used, free, head, tail, freeHead, i);
      MoveKeepsDescs(Cut(Vecs(), i, head), i, tail);
      Unlink(i, m0);
      hide Cut;
      Set(i, LinkField, NIL, m0);
      Set(i, BackLinkField, tail, m0);
      if tail != NIL {
        Set(tail, LinkField, i, m0);
      }
      tail := i;
      used := Without(used, i) + [i];
    }

    /** Empties vector i and drops its storage. */
    method ResetVector(i: word, ghost m0: seq<byte>)
      requires OnlyTable(m0) && TableInPool() && i < count
      modifies pool
      ensures Vecs() == Reset(old(Vecs()), i) && OnlyTable(m0)
    {
      hide Table, VectorAt, SameOutside;
      Set(i, CountField, 0, m0);
      Set(i, ElemSizeField, 0, m0);
      Set(i, OffsetField, NIL, m0);
    }

    /** Makes vector i the head of the free list. With an empty free list the program stores a back link through
        index 0xFFFF; the model leaves that store out, as the other two places with such a store do. */
    method PushOnFreeList(i: word, ghost m0: seq<byte>)
      requires OnlyTable(m0) && TableInPool() && i < count && (freeHead < count || freeHead == NIL)
      modifies pool, `freeHead
      ensures Vecs() == PushFree(old(Vecs()), i, old(freeHead)) && freeHead == i && OnlyTable(m0)
    {
      hide Table, VectorAt, SameOutside;
      Set(i, LinkField, freeHead, m0);
      Set(i, BackLinkField, NIL, m0);
      if freeHead != NIL {
        Set(freeHead, BackLinkField, i, m0);
      }
      freeHead := i;
    }

    /** cCmdFreeDopeVector, as a change to the table */
    method MoveToFree(i: word, ghost m0: seq<byte>)
      requires OnlyTable(m0) && LinksOk() && i in used && |used| > 1 && count < NIL
      modifies pool, `head, `tail, `freeHead, `used, `free
      ensures OnlyTable(m0) && LinksOk()
      ensures used == Without(old(used), i) && free == [i] + old(free) && i < count
      ensures Descs(Vecs()) == old(Descs(Vecs()))[i := Blank]
    {
      hide Table, VectorAt, Linked, Descs, NoDup, Disjoint, Without, Cut, PushFree, SameOutside;
      ghost var t := Vecs();
      Freed(t, used, free, head, tail, freeHead, i);
      ResetKeepsLists(t, used, free, head, tail, freeHead, i);
      var prev, wasHead := Vec(i).backLink, i == head;
      ResetVector(i, m0);
      Unlink(i, m0);
      if !wasHead && i == tail {
        tail := prev;
      }
      PushOnFreeList(i, m0);
      used := Without(used, i);
      free := [i] + free;
    }

    /** cCmdFreeDopeVector */
    method FreeDopeVector(i: word)
      requires Valid() && i in used && i != 0
      modifies pool, `head, `tail, `freeHead, `used, `free
      ensures Valid() && OnlyTable(old(pool[..]))
      ensures Lay() == FreeVector(old(Lay()), i)
      ensures SameBut(old(Lay()), old(pool[..]), Lay(), pool[..], i)
    {
      hide Table, VectorAt, TwoLists, Descs, Layout.Inv, NoDup, Disjoint, Without, SameOutside, AllKept, SameBut,
        OthersStay;
      ghost var L, m0 := Lay(), pool[..];
      FreeVectorKeepsInv(L, i);
      ValidFacts();
      MoveToFree(i, m0);
      TableWritesKeepOthers(L, m0);
      FreeVectorOthers(L, i);
      SameFromKept(L, m0, Lay(), pool[..], i);
    }

    lemma ValidFacts()
      requires Valid()
      ensures 0 in used && Below(used, count) && Below(free, count) && Vec(0).count == count && Vec(0).elemSize == VECTOR_SIZE
      ensures |Lay().d| == count && 0 < count <= 3276 && base + dataspaceSize <= POOL_MAX_SIZE && OnlyTable(pool[..])
      ensures forall i :: i in used && i != 0 ==> |used| > 1
    {
      TableCountIsSmall(Lay());
    }

    /** Storing into the table keeps every array but the table. */
    lemma TableWritesKeepOthers(L: Layout, m: seq<byte>)
      requires L.Inv() && |m| == POOL_MAX_SIZE && TableInPool() && L.base == base
      requires base + table == L.base + L.d[0].offset && count == |L.d| && OnlyTable(m)
      ensures AllKept(L, m, Lay(), pool[..])
    {
      hide Table, VectorAt, Layout.ListsOk, Layout.Ordered, Layout.Fits, Layout.FreeOk, AllKept;
      SameOutsideLess(m, pool[..], base + table, base + table + VECTOR_SIZE * count, pool.Length, L.base + L.dsSize);
      AllOthersKept(L, m, Lay(), pool[..]);
    }

    /** memmove within the pool */
    method MemMove(dst: nat, src: nat, n: nat)
      requires dst + n <= pool.Length && src + n <= pool.Length
      modifies pool
      ensures pool[..] == Moved(old(pool[..]), dst, src, n)
    {
      forall k | 0 <= k < n {
        pool[dst + k] := pool[src + k];
      }
    }

    /** Copies the table to pool address dst and lets pDopeVectorArray follow, with room for more vectors behind it. */
    method MoveTable(dst: nat, ghost newCount: nat)
      requires LinksOk() && base <= dst && dst + VECTOR_SIZE * newCount <= pool.Length
      requires 0 < count <= newCount && Vec(0).count == count
      modifies pool, `table, `count
      ensures table == dst - base && count == newCount
      ensures LinksOk() && old(Vecs()) <= Vecs() && OnlyTable(old(pool[..]))
    {
      hide Table, VectorAt, Linked, NoDup, Disjoint, Moved, SameOutside;
      ghost var m, t := pool[..], Vecs();
      MovedTable(m, dst, base + table, count);
      MovedIsSameElsewhere(m, dst, base + table, VECTOR_SIZE * count);
      MemMove(dst, base + table, VECTOR_SIZE * Vec(0).count);
      table := dst - base;
      SameOutsideMore(m, pool[..], dst, dst + VECTOR_SIZE * count, dst + VECTOR_SIZE * newCount, pool.Length);
      count := newCount;
      TableGrows(pool[..], dst, |t|, newCount);
      LongerTable(t, Vecs(), used, free, head, tail, freeHead);
    }

    /** One turn of the loop in cCmdGrowDopeVectorArray: vector i becomes the head of the free list. */
    method AddFreeVector(i: word, ghost m0: seq<byte>)
      requires OnlyTable(m0) && LinksOk() && i < count < NIL && i !in used && i !in free
      modifies pool, `freeHead, `free
      ensures OnlyTable(m0) && LinksOk() && free == [i] + old(free)
      ensures Descs(Vecs()) == old(Descs(Vecs()))[i := Blank]
    {
      hide Table, VectorAt, Linked, NoDup, Disjoint, SameOutside, Descs, AddFree;
      AddedFree(Vecs(), used, free, head, tail, freeHead, i);
      AddFreeBySteps(Vecs(), i, freeHead);
      Set(i, OffsetField, NIL, m0);
      Set(i, ElemSizeField, 0, m0);
      Set(i, CountField, 0, m0);
      Set(i, BackLinkField, NIL, m0);
      if freeHead != NIL {
        Set(freeHead, BackLinkField, i, m0);
      }
      Set(i, LinkField, freeHead, m0);
      freeHead := i;
      free := [i] + free;
    }

    /** A plain field of vector i, leaving the links alone. */
    method SetPlain(i: nat, field: Field, v: word, ghost m0: seq<byte>)
      requires OnlyTable(m0) && LinksOk() && i < count && !field.BackLinkField? && !field.LinkField?
      modifies pool
      ensures OnlyTable(m0) && LinksOk()
      ensures Vecs() == old(Vecs())[i := old(Vecs())[i].With(field, v)]
      ensures Descs(Vecs()) == old(Descs(Vecs()))[i := old(Vecs())[i].With(field, v).Desc()]
    {
      hide Table, VectorAt, Linked, NoDup, Disjoint, SameOutside, Descs;
      SetKeepsLists(Vecs(), used, free, head, tail, freeHead, i, field, v);
      Set(i, field, v, m0);
    }

    /** The loop of cCmdGrowDopeVectorArray: the vectors from oldCount on are pushed in reverse. */
    method FillNewVectors(oldCount: nat, newCount: nat, ghost m0: seq<byte>)
      requires OnlyTable(m0) && LinksOk() && 0 < oldCount <= newCount == count < NIL
      requires Below(used, oldCount) && Below(free, oldCount)
      modifies pool, `freeHead, `free
      ensures OnlyTable(m0) && LinksOk()
      ensures free == Range(oldCount, count - oldCount) + old(free)
      ensures Descs(Vecs()) == old(Descs(Vecs()))[..oldCount] + Blanks(count - oldCount)
    {
      hide Table, VectorAt, TwoLists, SameOutside, Descs, Range, Blanks;
      var i := newCount;
      NoBlanks(Descs(Vecs()), newCount, free);
      while i > oldCount
        invariant oldCount <= i <= newCount
        invariant OnlyTable(m0) && LinksOk()
        invariant free == Range(i, newCount - i) + old(free)
        invariant Descs(Vecs()) == old(Descs(Vecs()))[..i] + Blanks(newCount - i)
      {
        i := i - 1;
        BlankInFront(old(Descs(Vecs())), i, newCount - i - 1, old(free));
        AddFreeVector(i, m0);
      }
    }

    /** cCmdGrowDopeVectorArray, once the space at pool address dst is known to be there */
    method ExtendTable(dst: nat, newCount: word)
      requires LinksOk() && Below(used, count) && Below(free, count) && 0 in used
      requires base <= dst && dst - base < NIL && dst + VECTOR_SIZE * newCount <= pool.Length
      requires 0 < count <= newCount < NIL && Vec(0).count == count
      modifies pool, `table, `count, `head, `tail, `freeHead, `used, `free
      ensures OnlyTable(old(pool[..])) && LinksOk() && table == dst - base && count == newCount
      ensures used == Without(old(used), 0) + [0]
      ensures free == Range(old(count), newCount - old(count)) + old(free)
      ensures Descs(Vecs()) == old(Descs(Vecs()))[0 := Desc(dst - base, old(Vec(0).elemSize), newCount)]
        + Blanks(newCount - old(count))
    {
      hide Table, VectorAt, TwoLists, SameOutside, Descs;
      var oldCount := Vec(0).count;
      ghost var m0 := pool[..];
      MoveTable(dst, newCount);
      DescsOfLonger(old(Vecs()), Vecs());
      SetPlain(0, OffsetField, table, m0);
      SetPlain(0, CountField, newCount, m0);
      FillNewVectors(oldCount, newCount, m0);
      MoveToTail(0, m0);
    }

    /** cCmdGrowDopeVectorArray. The size of the new table must fit a word, unless memory is short anyway; the code
        does not check that, and would go on to write vectors beyond the pool. */
    method GrowDopeVectorArray(newNodes: word) returns (status: Status)
      requires Valid() && Addressed(Lay(), GrowOp(newNodes)) && Safe(Lay(), GrowOp(newNodes))
      modifies this, pool
      ensures Valid()
      ensures (status, Lay()) == Grow(old(Lay()), newNodes)
      ensures SameBut(old(Lay()), old(pool[..]), Lay(), pool[..], 0)
    {
      hide Table, VectorAt, TwoLists, Descs, Layout.Inv, NoDup, Disjoint, Without, SameOutside, AllKept, SameBut,
        OthersStay, Range, Blanks, ToWord, Align4;
      ghost var L, m0 := Lay(), pool[..];
      GrowKeepsInvExactly(L, newNodes);
      GrowFacts(L, newNodes);
      GrowOthers(L, newNodes);
      ValidFacts();
      var newCount := ToWord(Vec(0).count + newNodes);
      var arraySize := ToWord(Vec(0).elemSize * newCount);
      poolSize := Align4(poolSize);
      dataspaceSize := Align4(dataspaceSize);
      if poolSize + arraySize >= POOL_MAX_SIZE {
        TableWritesKeepOthers(L, m0);
        SameFromKept(L, m0, Lay(), pool[..], 0);
        return ErrMem;
      }
      var pData := poolSize;
      poolSize := poolSize + arraySize;
      dataspaceSize := dataspaceSize + arraySize;
      ExtendTable(pData, newCount);
      AllKeptBelow(L, m0, Lay(), pool[..], base + table, base + table + VECTOR_SIZE * count);
      SameFromKept(L, m0, Lay(), pool[..], 0);
      status := NoErr;
    }

    /** cCmdAllocDopeVector, once the free list has a vector */
    method TakeFree(elemSize: word, ghost m0: seq<byte>) returns (i: word)
      requires OnlyTable(m0) && LinksOk() && freeHead != NIL && count < NIL
      modifies pool, `tail, `freeHead, `used, `free
      ensures OnlyTable(m0) && LinksOk()
      ensures old(free) != [] && i == old(free)[0] && i < count && used == old(used) + [i] && free == old(free)[1..]
      ensures Descs(Vecs()) == old(Descs(Vecs()))[i := Desc(NIL, elemSize, 0)]
    {
      hide Table, VectorAt, TwoLists, Linked, NoDup, Disjoint, SameOutside, Descs;
      Popped(Vecs(), used, free, head, tail, freeHead);
      i := freeHead;
      freeHead := Vec(i).link;
      if freeHead != NIL {
        Set(freeHead, BackLinkField, NIL, m0);
      }
      free := free[1..];
      InsertAtTail(i, m0);
      SetPlain(i, OffsetField, NIL, m0);
      SetPlain(i, ElemSizeField, elemSize, m0);
      SetPlain(i, CountField, 0, m0);
    }

    /** cCmdAllocDopeVector */
    method AllocDopeVector(elemSize: word) returns (status: Status, i: word)
      requires Valid()
      modifies this, pool
      ensures Valid()
      ensures (status, Lay(), i) == AllocVector(old(Lay()), elemSize)
      ensures SameBut(old(Lay()), old(pool[..]), Lay(), pool[..], 0)
    {
      hide Table, VectorAt, TwoLists, Descs, Layout.Inv, NoDup, Disjoint, SameOutside, AllKept, SameBut, OthersStay,
        Grow;
      ghost var L, m := Lay(), pool[..];
      status, i := NoErr, 0;
      AllocVectorKeepsInv(L, elemSize);
      AllocVectorFacts(L);
      FreeHeadFacts();
      ValidFacts();
      StillSame();
      if freeHead == NIL {
        status := GrowDopeVectorArray(GROWTH_COUNT);
        if status.ErrMem? {
          return;
        }
        FreeHeadFacts();
      }
      ghost var G, m0 := Lay(), pool[..];
      ValidFacts();
      i := TakeFree(elemSize, m0);
      TableWritesKeepOthers(G, m0);
      TakeOthers(G, elemSize);
      SameFromKept(G, m0, Lay(), pool[..], 0);
      SameButTrans(L, m, G, m0, Lay(), pool[..], 0, 0);
    }

    lemma CountOf(i: nat)
      requires Valid() && i < count
      ensures Vec(i).count == Lay().d[i].count
    {
      DescOfVector(Vecs(), i);
    }

    lemma StillSame()
      requires Valid()
      ensures SameBut(Lay(), pool[..], Lay(), pool[..], 0)
    {
      ValidFacts();
    }

    lemma FreeHeadFacts()
      requires Valid()
      ensures freeHead == NIL <==> free == []
    {
      ValidFacts();
      HeadInRange(Vecs(), free, freeHead);
    }

    /** Sets Count in place. */
    method Recounted(i: word, n: word)
      requires Valid() && i in used && i != 0
      modifies pool
      ensures LinksOk() && OnlyTable(old(pool[..]))
      ensures Lay() == Recount(old(Lay()), i, n)
      ensures AllKept(old(Lay()), old(pool[..]), Lay(), pool[..])
      ensures Lay().Inv() ==> PrefixKept(old(Lay()), old(pool[..]), Lay(), pool[..], i)
    {
      hide Table, VectorAt, TwoLists, Descs, Layout.Inv, NoDup, Disjoint, SameOutside, AllKept, PrefixKept;
      ghost var L, m0 := Lay(), pool[..];
      ValidFacts();
      DescOfVector(Vecs(), i);
      SetPlain(i, CountField, n, m0);
      TableWritesKeepOthers(L, m0);
      if Lay().Inv() {
        SameOutsideLess(m0, pool[..], base + table, base + table + VECTOR_SIZE * count, pool.Length, base + dataspaceSize);
        RecountKeepsPrefix(L, m0, i, n, pool[..]);
      }
    }

    lemma NothingWritten()
      requires TableInPool()
      ensures OnlyTable(pool[..])
    {
    }

    /** Copies size bytes from pool address src to dst, and describes them as array i, the last one listed. */
    method Relocate(i: word, n: word, dst: nat, src: nat, size: nat)
      requires LinksOk() && i in used && i < count < NIL
      requires base <= dst && dst - base < NIL && dst + size <= pool.Length && src + size <= pool.Length
      requires base + table + VECTOR_SIZE * count <= dst
      modifies pool, `head, `tail, `used
      ensures LinksOk() && used == Without(old(used), i) + [i]
      ensures Descs(Vecs()) == old(Descs(Vecs()))[i := Desc(dst - base, old(Vec(i)).elemSize, n)]
      ensures OnlyTable(Moved(old(pool[..]), dst, src, size))
    {
      hide Table, VectorAt, TwoLists, Descs, NoDup, Disjoint, SameOutside, Without, Moved;
      ghost var m := pool[..];
      ghost var m1 := Moved(m, dst, src, size);
      MovedBehindTable(m, dst, src, size, base + table, count);
      MemMove(dst, src, size);
      NothingWritten();
      SetPlain(i, OffsetField, dst - base, m1);
      SetPlain(i, CountField, n, m1);
      MoveToTail(i, m1);
    }

    /** cCmdDVArrayAlloc, when the array cannot grow in place */
    method AllocAtEnd(i: word, n: word) returns (status: Status)
      requires Valid() && i in used && i != 0 && n >= Lay().d[i].count && !InPlace(Lay(), i, n) && CopyInPool(Lay(), i, n)
      modifies this, pool
      ensures LinksOk() && pool.Length == POOL_MAX_SIZE && table == Lay().d[0].offset && poolSize == base + dataspaceSize
      ensures (status, Lay()) == AtEnd(old(Lay()), i, n)
      ensures AllKept(old(Lay()), old(pool[..]), Lay(), pool[..])
      ensures status.NoErr? && n * old(Lay().d[i].elemSize) < 0x1_0000 ==>
        PrefixKept(old(Lay()), old(pool[..]), Lay(), pool[..], i)
      ensures status.ErrMem? ==> pool[..] == old(pool[..])
    {
      hide Table, VectorAt, TwoLists, Descs, Layout.Inv, SameOutside, AllKept, PrefixKept, ToWord, Align4, Moved,
        Without, NoDup, Disjoint;
      ghost var L, m := Lay(), pool[..];
      ValidFacts();
      DescOfVector(Vecs(), i);
      AtEndExactly(L, i, n);
      AtEndFacts(L, i, n);
      var v := Vec(i);
      var arraySize := ToWord(n * v.elemSize);
      poolSize := Align4(poolSize);
      dataspaceSize := Align4(dataspaceSize);
      if poolSize + arraySize >= POOL_MAX_SIZE {
        TableWritesKeepOthers(L, m);
        return ErrMem;
      }
      var pData := poolSize;
      poolSize := poolSize + arraySize;
      dataspaceSize := dataspaceSize + arraySize;
      Relocate(i, n, pData, if v.count != 0 then base + v.offset else 0, v.elemSize * v.count);
      RelocationKeeps(L, m, i, n, if v.count != 0 then base + v.offset else 0, pool[..]);
      status := NoErr;
    }

    /** cCmdDVArrayAlloc. A size in bytes beyond a word may have the old elements copied to where they leave the pool;
        every request that does not is covered, valid or not. */
    method DVArrayAlloc(i: word, n: word) returns (status: Status)
      requires Valid() && i in used && i != 0 && CopyInPool(Lay(), i, n)
      modifies this, pool
      ensures LinksOk() && pool.Length == POOL_MAX_SIZE && poolSize == base + dataspaceSize
      ensures (status, Lay()) == Resize(old(Lay()), i, n)
      ensures Valid() <==> status.ErrMem? || ResizeSafe(old(Lay()), i, n)
      ensures SameBut(old(Lay()), old(pool[..]), Lay(), pool[..], i)
      ensures status.NoErr? && Valid() ==> PrefixKept(old(Lay()), old(pool[..]), Lay(), pool[..], i)
    {
      hide Table, VectorAt, Linked, Descs, Layout.Inv, SameOutside, AllKept, SameBut, OthersStay, PrefixKept,
        ResizeSafe, CopyInPool, Room, ToWord, AtEnd, NoDup, Disjoint;
      ghost var L, m := Lay(), pool[..];
      ValidFacts();
      DescOfVector(Vecs(), i);
      ResizeKeepsInvExactly(L, i, n);
      ResizeOthers(L, i, n);
      RoomByLinks(L, Vecs(), i, head);
      var v := Vec(i);
      if n <= v.count {
        Recounted(i, n);
        SameFromKept(L, m, Lay(), pool[..], i);
        return NoErr;
      }
      if v.offset != NIL {
        var inplaceSize: word := if v.link != NIL then ToWord(Vec(v.link).offset - v.offset)
          else ToWord(dataspaceSize - v.offset);
        if ToWord(n * v.elemSize) <= inplaceSize {
          Recounted(i, n);
          SameFromKept(L, m, Lay(), pool[..], i);
          return NoErr;
        }
      }
      AtEndExactly(L, i, n);
      status := AllocAtEnd(i, n);
      SameFromKept(L, m, Lay(), pool[..], i);
    }

    /** The first loop of cCmdVerifyMemMgr */
    method VerifyUsed() returns (ok: bool, dvCount: word)
      requires TableInPool() && 0 < count < NIL
      requires NoDup(used) && Forward(Vecs(), used, head)
      requires forall k {:trigger Vecs()[used[k]]} :: 0 <= k < |used| ==>
        Vecs()[used[k]].backLink == NIL || Vecs()[used[k]].backLink < count
      ensures ok <==> SortedUpTo(Vecs(), used, |used|) && NodesOkUpTo(Vecs(), used, |used|, tail)
      ensures ok ==> dvCount == |used|
    {
      hide Table, VectorAt, NoDup, SortedUpTo, BoundUpTo, NodeOk, Next;
      ghost var t := Vecs();
      NothingChecked(t, used);
      NoMoreThan(used, count);
      var i, prevOffset: word := head, 0;
      dvCount := 0;
      ghost var k, w := 0, 0;
      while i != NIL
        invariant k <= |used| && i == (if k < |used| then used[k] else NIL) && dvCount == k
        invariant SortedUpTo(t, used, k) && BoundUpTo(t, used, k, prevOffset) && NodesOkUpTo(t, used, k, tail)
        invariant prevOffset != 0 ==> w < k && t[used[w]].offset == prevOffset != NIL
        invariant 0 < k < |used| ==> t[used[k]].backLink == used[k - 1]
        decreases |used| - k
      {
        var v := Vec(i);
        TestsDecideNode(t, used, k, head, tail);
        if v.offset != NIL && prevOffset > v.offset {
          NotSorted(t, used, w, k);
          return false, dvCount;
        }
        SortedStep(t, used, k, prevOffset);
        if v.offset != NIL {
          prevOffset := v.offset;
          w := k;
        }
        var prev, post := v.backLink, v.link;
        if post == NIL && i != tail {
          return false, dvCount;
        } else if prev == NIL && i != head {
          return false, dvCount;
        } else if prev != NIL && Vec(prev).link != i {
          return false, dvCount;
        } else if post != NIL && Vec(post).backLink != i {
          return false, dvCount;
        }
        dvCount := dvCount + 1;
        i := post;
        NextInList(t, used, head, k);
        k := k + 1;
      }
      ok := true;
    }

    /** cCmdVerifyMemMgr. It terminates when both lists end, and decides Consistent. */
    method VerifyMemMgr() returns (ok: bool)
      requires TableInPool() && 0 < count < NIL && 2 * count < 0x1_0000
      requires NoDup(used) && Forward(Vecs(), used, head) && NoDup(free) && Forward(Vecs(), free, freeHead)
      requires forall k {:trigger Vecs()[used[k]]} :: 0 <= k < |used| ==>
        Vecs()[used[k]].backLink == NIL || Vecs()[used[k]].backLink < count
      ensures ok <==> Consistent(Vecs(), used, free, tail)
    {
      hide Table, VectorAt, NoDup, SortedUpTo, NodesOkUpTo;
      NoMoreThan(used, count);
      NoMoreThan(free, count);
      var dvCount;
      ok, dvCount := VerifyUsed();
      if !ok {
        return;
      }
      var i := freeHead;
      ghost var f := 0;
      while i != NIL
        invariant f <= |free| && i == (if f < |free| then free[f] else NIL) && dvCount == |used| + f
        decreases |free| - f
      {
        assert Vecs()[free[f]].link == Next(free, f);
        dvCount := dvCount + 1;
        i := Vec(i).link;
        f := f + 1;
      }
      ok := dvCount == Vec(0).count;
    }

    /** Every valid state passes the check. */
    lemma ValidPassesVerify()
      requires Valid()
      ensures 0 < count < NIL && 2 * count < 0x1_0000
      ensures NoDup(used) && Forward(Vecs(), used, head) && NoDup(free) && Forward(Vecs(), free, freeHead)
      ensures forall k {:trigger Vecs()[used[k]]} :: 0 <= k < |used| ==>
        Vecs()[used[k]].backLink == NIL || Vecs()[used[k]].backLink < count
      ensures Consistent(Vecs(), used, free, tail)
    {
      hide Table, VectorAt, Descs, Linked, Layout.Inv, Consistent, Forward;
      ValidFacts();
      LinkedIsForward(Vecs(), used, head);
      LinkedIsForward(Vecs(), free, freeHead);
      InvIsConsistent(Lay(), Vecs(), head, tail, freeHead);
    }

    /** memset within the pool, with 0xFF */
    method MemFill(a: nat, n: nat)
      requires a + n <= pool.Length
      modifies pool
      ensures pool[..] == Filled(old(pool[..]), a, n)
    {
      forall k | 0 <= k < n {
        pool[a + k] := 0xFF;
      }
    }

    /** The compaction of one array: memmove, memset, and the table's own address if it is the one that moved. */
    method SlideDown(i: word, newOffset: word, currOffset: word, size: word)
      requires LinksOk() && i < count && newOffset < currOffset && base + currOffset + size <= pool.Length
      requires i == 0 ==> table == currOffset && size == VECTOR_SIZE * count
      requires i != 0 ==> table + VECTOR_SIZE * count <= newOffset || newOffset + size <= table
      requires i != 0 ==> table + VECTOR_SIZE * count <= currOffset || currOffset + size <= table
      modifies pool, `table
      ensures LinksOk() && table == if i == 0 then newOffset as nat else old(table)
      ensures Vecs() == old(Vecs())[i := old(Vecs())[i].(offset := newOffset)]
      ensures Descs(Vecs()) == old(Descs(Vecs()))[i := old(Vecs())[i].(offset := newOffset).Desc()]
      ensures OnlyTable(Slid(old(pool[..]), base + newOffset, base + currOffset, size))
    {
      hide Table, VectorAt, TwoLists, Descs, SameOutside, Moved, Filled;
      ghost var m := pool[..];
      SlidTable(m, base + newOffset, base + currOffset, size, base + table,
        base + (if i == 0 then newOffset as nat else table), count);
      MemMove(base + newOffset, base + currOffset, size);
      if newOffset + size > currOffset {
        var tempOffset := newOffset + size;
        var tempSize := size - (tempOffset - currOffset);
        MemFill(base + tempOffset, tempSize);
      } else {
        MemFill(base + currOffset, size);
      }
      assert pool[..] == Slid(m, base + newOffset, base + currOffset, size);
      if i == 0 {
        table := newOffset;
      }
      ghost var m1 := pool[..];
      NothingWritten();
      SetPlain(i, OffsetField, newOffset, m1);
    }

    /** The state of compaction of layout L and memory m when the loop reaches position k. */
    ghost predicate Compacting(L: Layout, m: seq<byte>, k: nat)
      requires Below(L.used, |L.d|) && k <= |L.used|
      reads this, pool
    {
      && LinksOk() && base == L.base && staticSize == L.staticSize && used == L.used && free == L.free && count == |L.d| > 0
      && pool.Length == |m| == POOL_MAX_SIZE
      && Descs(Vecs()) == Compacted(L, k) && table == Compacted(L, k)[0].offset
      && ContentsKept(L, m, Compacted(L, k), pool[..])
      && SameOutside(m, pool[..], base + staticSize, |m|, |m|)
      && (Compact(L) == L ==> pool[..] == m)
    }

    /** One turn of the loop in cCmdDSCompact */
    method CompactOne(curr: word, offset: nat, ghost L: Layout, ghost m: seq<byte>, ghost k: nat)
      returns (newOffset: nat)
      requires L.Inv() && k < |L.used| && Compacting(L, m, k) && curr == L.used[k] && offset == Pos(L, k)
      modifies pool, `table
      ensures Compacting(L, m, k + 1) && newOffset == Pos(L, k + 1)
    {
      hide Table, VectorAt, TwoLists, Descs, SameOutside, Slid, ContentsKept, Layout.Inv, RegionsOk, Compacted, Pos,
        Align4, Compact, Desc.Size;
      CompactStep(L, k);
      SizeOfVector(Vecs(), curr);
      newOffset := Align4(offset);
      var currOffset := Vec(curr).offset;
      if currOffset != NIL {
        var size := Vec(curr).elemSize * Vec(curr).count;
        if currOffset != newOffset {
          if Compact(L) == L { CompactAlready(L, k); }
          ghost var m1 := pool[..];
          SlideDown(curr, newOffset, currOffset, size);
          CompactStepKeeps(L, m, k, m1, pool[..]);
        } else {
          assert Compacted(L, k + 1) == Compacted(L, k);
        }
        newOffset := newOffset + size;
      }
    }

    /** cCmdDSCompact. PoolSize is a ULONG and the difference a UWORD, so a dataspace that would have to
        grow leaves PoolSize wrong: the state is valid afterwards exactly when the compaction is safe. */
    method DSCompact()
      requires Valid()
      modifies this`poolSize, `dataspaceSize, `table, pool
      ensures LinksOk() && Lay() == Compact(old(Lay())) && count == old(count)
      ensures poolSize == (old(poolSize) - ToWord(old(dataspaceSize) - dataspaceSize)) % 0x1_0000_0000
      ensures Valid() <==> CompactSafe(old(Lay()))
      ensures SameBut(old(Lay()), old(pool[..]), Lay(), pool[..], 0)
      ensures SameOutside(old(pool[..]), pool[..], base + staticSize, POOL_MAX_SIZE, POOL_MAX_SIZE)
      ensures Compact(old(Lay())) == old(Lay()) ==> pool[..] == old(pool[..]) && poolSize == old(poolSize)
    {
      hide Table, VectorAt, Descs, SameOutside, ContentsKept, Layout.Inv, Compacted, Pos, NoDup, Disjoint, Linked,
        ToWord, SameBut, CompactSafe;
      ghost var L, m := Lay(), pool[..];
      ghost var k := 0;
      CompactKeepsInv(L);
      CompactShrinksExactly(L);
      CompactBounds(L);
      ValidFacts();
      StartCompacting();
      var newOffset := staticSize;
      var curr := head;
      LinkAfter(Vecs(), used, head, 0);
      while curr != NIL
        invariant k <= |L.used| && Compacting(L, m, k) && newOffset == Pos(L, k)
        invariant curr == if k < |L.used| then L.used[k] else NIL
        modifies pool, `table
        decreases |L.used| - k
      {
        newOffset := CompactOne(curr, newOffset, L, m, k);
        LinkAfter(Vecs(), used, head, k);
        curr := Vec(curr).link;
        k := k + 1;
      }
      ShrinkArithmetic(base, dataspaceSize, newOffset);
      var delta := ToWord(dataspaceSize - newOffset);
      poolSize := (poolSize - delta) % 0x1_0000_0000;
      dataspaceSize := ToWord(dataspaceSize - delta);
      SameFromCompaction(L, m, pool[..]);
    }

    /** Nothing is written beyond the pool: the table to be made has a size that fits a word, and old elements are
        copied within the pool. */
    ghost predicate StaysInPool(op: Op)
      requires Valid() && Addressed(Lay(), op)
      reads this, pool
    {
      match op
      case GrowOp(_) => Safe(Lay(), op)
      case ResizeOp(i, n) => CopyInPool(Lay(), i, n)
      case _ => true
    }

    /** Any operation, on the bytes of the pool: the state follows the step on layouts, it is valid afterwards exactly
        when the operation is safe, and no other array changes. */
    method Perform(op: Op)
      requires Valid() && Addressed(Lay(), op) && StaysInPool(op)
      modifies this, pool
      ensures LinksOk() && State() == Step(old(State()), op)
      ensures Valid() <==> Safe(old(Lay()), op)
      ensures SameBut(old(Lay()), old(pool[..]), Lay(), pool[..], Target(op))
    {
      hide Table, TwoLists, Layout.Inv, Vecs, Descs, ResizeSafe, Resize, Grow, AllocVector, FreeVector, CompactSafe,
        Compact, SameBut, InPlace, Full, AtEnd, Bumped, ToWord;
      if !op.CompactOp? { PoolSizeFollows(State(), op); }
      StepKeepsInvExactly(State(), op);
      SafeByStatus(Lay(), op);
      match op {
        case AllocOp(elemSize) =>
          var status, i := AllocDopeVector(elemSize);
        case FreeOp(i) =>
          FreeDopeVector(i);
        case GrowOp(m) =>
          var status := GrowDopeVectorArray(m);
        case ResizeOp(i, n) =>
          var status := DVArrayAlloc(i, n);
        case CompactOp =>
          DSCompact();
      }
    }

    lemma StartCompacting()
      requires Valid()
      ensures Below(used, count) && Compacting(Lay(), pool[..], 0) && Pos(Lay(), 0) == staticSize
    {
    }

    /** memmove from a buffer of the caller to the storage of array i */
    method CopyIn(i: word, data: seq<byte>)
      requires Valid() && i in used && i != 0 && |data| == Lay().d[i].Size()
      modifies pool
      ensures Valid() && Lay() == old(Lay())
      ensures Bytes(i) == data
      ensures SameBut(old(Lay()), old(pool[..]), Lay(), pool[..], i)
    {
      hide Table, VectorAt, TwoLists, Descs, Layout.Inv, SameBut, Content, Desc.Size, Paste;
      ghost var L, m := Lay(), pool[..];
      ValidFacts();
      DescOfVector(Vecs(), i);
      WrittenContent(L, m, i, data);
      if |data| > 0 {
        var a := base + Vec(i).offset;
        PutBytes(a, data);
        TableOfBytes(m, base + table, pool[..], base + table, count);
      }
    }

    /** Whoever leaves the bytes of the table alone leaves the manager valid. */
    twostate lemma SameTableStaysValid()
      requires old(Valid()) && unchanged(this)
      requires pool[base + table..base + table + VECTOR_SIZE * count] ==
        old(pool[base + table..base + table + VECTOR_SIZE * count])
      ensures Valid() && Lay() == old(Lay())
    {
      hide Table, VectorAt, TwoLists, Descs, Layout.Inv;
      ghost var m := old(pool[..]);
      assert m[base + table..base + table + VECTOR_SIZE * count] == pool[..][base + table..base + table + VECTOR_SIZE * count];
      TableOfBytes(m, base + table, pool[..], base + table, count);
    }

    /** Whoever changes the pool within the storage of array i only, leaves the manager valid and all other arrays
        alone. */
    twostate lemma ChangesKeepValid(i: word)
      requires old(Valid()) && unchanged(this) && i in used && i != 0 && i < |old(Lay()).d| && old(Lay()).d[i].Allocated()
      requires var d := old(Lay()).d[i];
        SameOutside(old(pool[..]), pool[..], base + d.offset, base + d.offset + d.Size(), pool.Length)
      ensures Valid() && Lay() == old(Lay()) && SameBut(Lay(), old(pool[..]), Lay(), pool[..], i)
    {
      hide Table, VectorAt, TwoLists, Descs, Layout.Inv, SameBut, SameOutside, Desc.Size;
      ghost var L, m := old(Lay()), old(pool[..]);
      ChangesWithin(L, m, pool[..], i);
      TableOfBytes(m, base + table, pool[..], base + table, count);
    }

    method PutBytes(a: nat, data: seq<byte>)
      requires a + |data| <= pool.Length
      modifies pool
      ensures pool[..] == Paste(old(pool[..]), a, data)
    {
      forall k | 0 <= k < |data| {
        pool[a + k] := data[k];
      }
    }

    /** memmove from the storage of array i to a buffer of the caller */
    method CopyOut(i: word) returns (data: seq<byte>)
      requires Valid() && i in used && i < count && Lay().d[i].elemSize == 1
      ensures data == Bytes(i)
    {
      hide Table, VectorAt, TwoLists, Descs, Layout.Inv;
      ghost var L := Lay();
      ContentLength(L, pool[..], i);
      DescOfVector(Vecs(), i);
      var v := Vec(i);
      if v.count == 0 {
        return [];
      }
      data := pool[base + v.offset..base + v.offset + v.count];
    }
  }
}

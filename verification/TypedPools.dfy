/** Typed data in the pool of the memory manager: copying a value in and out keeps the manager and all other arrays. */
module TypedPools {
  import opened Words
  import opened Seqs
  import opened Layouts
  import C = CompactionProofs
  import opened Vectors
  import S = Storage
  import opened MemMgrs
  import opened TypeTrees
  import opened Dataspaces
  import opened Flattening

  /** The scalars and indexes of t at off lie from lo to hi, and so do, each within the storage of its own array, those
      of all nested arrays; these are in use, have elements of the right size if they are scalars, and none of them is
      array y. Addresses count from the dataspace, as in m. */
  ghost predicate Placed(L: Layout, m: seq<byte>, t: Ty, off: nat, lo: nat, hi: nat, y: nat)
    decreases t, 0
  {
    match t
    case Scalar(code, o) => lo <= off + o && off + o + SizeOf(code) <= hi
    case Array(o, e) =>
      && lo <= off + o && off + o + 2 <= hi && hi <= |m|
      && var i: nat := WordAt(m, off + o);
      && i in L.used && 0 < i < |L.d| && i != y
      && (L.d[i].count > 0 ==> L.d[i].Allocated())
      && (e.Scalar? ==> e.off == 0 && L.d[i].elemSize == SizeOf(e.code))
      && ElemsPlaced(L, m, e, L.d[i], 0, y)
    case Cluster(fs) => FieldsPlaced(L, m, fs, off, lo, hi, y)
  }

  ghost predicate ElemsPlaced(L: Layout, m: seq<byte>, e: Ty, d: Desc, i: nat, y: nat)
    decreases e, d.count - i + 1
  {
    i < d.count ==> Placed(L, m, e, Elem(d, i), d.offset, d.offset + d.Size(), y) && ElemsPlaced(L, m, e, d, i + 1, y)
  }

  ghost predicate FieldsPlaced(L: Layout, m: seq<byte>, fs: Tys, off: nat, lo: nat, hi: nat, y: nat)
    decreases fs, 0
  {
    fs.Fields? ==> Placed(L, m, fs.head, off, lo, hi, y) && FieldsPlaced(L, m, fs.tail, off, lo, hi, y)
  }

  /** The stretch from lo to hi has nothing of the storage of array y. */
  ghost predicate Clear(L: Layout, lo: nat, hi: nat, y: nat) {
    && Below(L.used, |L.d|) && L.Ordered() && y in L.used && L.d[y].Allocated()
    && (hi <= L.d[y].offset || L.d[y].offset + L.d[y].Size() <= lo)
  }

  /** No byte of a value lies in an array that the value does not have. */
  lemma {:induction false} ValueIsApart(L: Layout, m: seq<byte>, t: Ty, off: nat, lo: nat, hi: nat, y: nat)
    requires Clear(L, lo, hi, y) && Placed(L, m, t, off, lo, hi, y)
    ensures Apart(L.d[y].offset, L.d[y].offset + L.d[y].Size(), Scalars(m, L.d, t, off), Indexes(m, L.d, t, off))
    decreases t, 0
  {
    hide Desc.Size, Layout.Ordered;
    match t
    case Scalar(_, _) =>
    case Array(o, e) =>
      var i: nat := WordAt(m, off + o);
      if L.d[i].count > 0 {
        C.Apart(L, i, y);
      }
      ElemsAreApart(L, m, e, L.d[i], 0, y);
    case Cluster(fs) => FieldsAreApart(L, m, fs, off, lo, hi, y);
  }

  lemma {:induction false} ElemsAreApart(L: Layout, m: seq<byte>, e: Ty, d: Desc, i: nat, y: nat)
    requires y < |L.d| && (d.count > 0 ==> Clear(L, d.offset, d.offset + d.Size(), y)) && ElemsPlaced(L, m, e, d, i, y)
    ensures Apart(L.d[y].offset, L.d[y].offset + L.d[y].Size(), ElemScalars(m, L.d, e, d, i), ElemIndexes(m, L.d, e, d, i))
    decreases e, d.count - i + 1
  {
    hide Desc.Size, Clear;
    if i < d.count {
      ValueIsApart(L, m, e, Elem(d, i), d.offset, d.offset + d.Size(), y);
      ElemsAreApart(L, m, e, d, i + 1, y);
    }
  }

  lemma {:induction false} FieldsAreApart(L: Layout, m: seq<byte>, fs: Tys, off: nat, lo: nat, hi: nat, y: nat)
    requires Clear(L, lo, hi, y) && FieldsPlaced(L, m, fs, off, lo, hi, y)
    ensures Apart(L.d[y].offset, L.d[y].offset + L.d[y].Size(), FieldScalars(m, L.d, fs, off), FieldIndexes(m, L.d, fs, off))
    decreases fs, 0
  {
    hide Desc.Size, Clear;
    if fs.Fields? {
      ValueIsApart(L, m, fs.head, off, lo, hi, y);
      FieldsAreApart(L, m, fs.tail, off, lo, hi, y);
    }
  }

  /** The static data holds nothing of any array. */
  lemma StaticIsClear(L: Layout, y: nat)
    requires L.Inv() && y in L.used && y < |L.d| && L.d[y].Allocated()
    ensures Clear(L, 0, L.staticSize, y) && L.d[y].offset + L.d[y].Size() <= L.dsSize
  {
    hide Desc.Size;
    C.InsideDataspace(L, y);
  }

  /** A value of the program may be flattened into any byte array that is none of its own: the two lie apart. */
  lemma MayFlatten(L: Layout, m: seq<byte>, t: Ty, off: nat, y: nat)
    requires L.Inv() && y in L.used && y < |L.d| && L.d[y].Allocated() && Placed(L, m, t, off, 0, L.staticSize, y)
    ensures Apart(L.d[y].offset, L.d[y].offset + L.d[y].Size(), Scalars(m, L.d, t, off), Indexes(m, L.d, t, off))
  {
    hide Layout.Inv;
    StaticIsClear(L, y);
    ValueIsApart(L, m, t, off, 0, L.staticSize, y);
  }

  // ---- such a value can be read and written ----

  lemma {:induction false} PlacedIsOk(L: Layout, m: seq<byte>, t: Ty, off: nat, lo: nat, hi: nat, y: nat)
    requires L.Inv() && L.dsSize <= |m| && hi <= |m| && Placed(L, m, t, off, lo, hi, y)
    ensures Ok(m, L.d, t, off)
    decreases t, 0
  {
    hide Desc.Size, Layout.ListsOk, Layout.TableOk, Layout.FreeOk, Layout.Fits, Layout.Ordered;
    match t
    case Scalar(_, _) =>
    case Array(o, e) =>
      var i: nat := WordAt(m, off + o);
      if L.d[i].count > 0 {
        S.RegionsOfInv(L);
        C.InsideDataspace(L, i);
      }
      ElemsPlacedAreOk(L, m, e, L.d[i], 0, y);
    case Cluster(fs) => FieldsPlacedAreOk(L, m, fs, off, lo, hi, y);
  }

  lemma {:induction false} ElemsPlacedAreOk(L: Layout, m: seq<byte>, e: Ty, d: Desc, i: nat, y: nat)
    requires L.Inv() && L.dsSize <= |m| && (d.count > 0 ==> d.offset + d.Size() <= |m|) && ElemsPlaced(L, m, e, d, i, y)
    ensures ElemsOk(m, L.d, e, d, i)
    decreases e, d.count - i + 1
  {
    hide Desc.Size, Layout.Inv;
    if i < d.count {
      PlacedIsOk(L, m, e, Elem(d, i), d.offset, d.offset + d.Size(), y);
      ElemsPlacedAreOk(L, m, e, d, i + 1, y);
    }
  }

  lemma {:induction false} FieldsPlacedAreOk(L: Layout, m: seq<byte>, fs: Tys, off: nat, lo: nat, hi: nat, y: nat)
    requires L.Inv() && L.dsSize <= |m| && hi <= |m| && FieldsPlaced(L, m, fs, off, lo, hi, y)
    ensures FieldsOk(m, L.d, fs, off)
    decreases fs, 0
  {
    hide Layout.Inv;
    if fs.Fields? {
      PlacedIsOk(L, m, fs.head, off, lo, hi, y);
      FieldsPlacedAreOk(L, m, fs.tail, off, lo, hi, y);
    }
  }

  // ---- on the pool itself ----

  /** The dataspace as typed data and as the memory manager's */
  ghost predicate Shared(ds: Dataspace, mm: MemMgr)
    reads mm, mm.pool
  {
    ds.Valid() && mm.Valid() && ds.pool == mm.pool && ds.start == mm.base && ds.dv == mm.Lay().d
  }

  /** Dataspace bytes from lo to hi are the only ones that differ. */
  lemma PasteWithin(m: seq<byte>, m': seq<byte>, base: nat, at: nat, b: seq<byte>, lo: nat, hi: nat)
    requires |m| == |m'| && base <= |m| && base + at + |b| <= |m| && lo <= at && at + |b| <= hi
    requires m'[..base] == m[..base] && m'[base..] == Paste(m[base..], at, b)
    ensures S.SameOutside(m, m', base + lo, base + hi, |m|)
  {
    forall a | 0 <= a < |m| && !(base + lo <= a < base + hi) ensures m'[a] == m[a] {
      if a < base {
        assert m'[a] == m'[..base][a] == m[..base][a];
      } else {
        assert m'[a] == m'[base..][a - base] && m[a] == m[base..][a - base];
      }
    }
  }

  /** A value can be moved to or from array y behind any offset. */
  lemma MayTransfer(L: Layout, m: seq<byte>, t: Ty, off: nat, y: nat, byteOffset: nat)
    requires L.Inv() && L.dsSize <= |m| && y in L.used && y < |L.d| && L.d[y].Allocated()
    requires Placed(L, m, t, off, 0, L.staticSize, y)
    ensures Ok(m, L.d, t, off)
    ensures Apart(L.d[y].offset + byteOffset, L.d[y].offset + L.d[y].Size(), Scalars(m, L.d, t, off), Indexes(m, L.d, t, off))
  {
    hide Placed, Ok, Scalars, Indexes, Desc.Size, Layout.Inv;
    ArrayInPool(L, y);
    PlacedIsOk(L, m, t, off, 0, L.staticSize, y);
    MayFlatten(L, m, t, off, y);
  }

  /** The value with table entry id at offset off can be moved to or from array y at byteOffset. */
  ghost predicate Transferable(mm: MemMgr, ds: Dataspace, id: nat, off: nat, t: Ty, y: nat, byteOffset: nat)
    reads mm, mm.pool
  {
    && Shared(ds, mm) && At(ds.toc, id, t) && WellFormed(t) && Placed(mm.Lay(), ds.Mem(), t, off, 0, mm.staticSize, y)
    && y in mm.used && y != 0 && y < |ds.dv| && ds.dv[y].Allocated()
    && byteOffset + |Scalars(ds.Mem(), ds.dv, t, off)| <= ds.dv[y].Size()
  }

  lemma TransferFacts(mm: MemMgr, ds: Dataspace, id: nat, off: nat, t: Ty, y: nat, byteOffset: nat)
    requires Transferable(mm, ds, id, off, t, y, byteOffset)
    ensures Shared(ds, mm) && At(ds.toc, id, t) && WellFormed(t) && Ok(ds.Mem(), ds.dv, t, off)
    ensures mm.pool.Length == POOL_MAX_SIZE && ds.pool == mm.pool && ds.start == mm.base && ds.Valid()
    ensures mm.TableInPool() && y < mm.count && mm.Vec(y).offset == ds.dv[y].offset
    ensures y < |ds.dv| && var lo, hi := ds.dv[y].offset + byteOffset, ds.dv[y].offset + ds.dv[y].Size();
      && lo + |Scalars(ds.Mem(), ds.dv, t, off)| <= hi <= |ds.Mem()|
      && Apart(lo, hi, Scalars(ds.Mem(), ds.dv, t, off), Indexes(ds.Mem(), ds.dv, t, off))
  {
    hide Placed, Ok, Scalars, Indexes, At, WellFormed, Desc.Size, Layout.Inv, Table, TwoLists, Descs;
    mm.ValidFacts();
    ArrayInPool(mm.Lay(), y);
    MayTransfer(mm.Lay(), ds.Mem(), t, off, y, byteOffset);
    S.DescOfVector(mm.Vecs(), y);
  }

  /** Flattening a value into byte array y: the memory manager stays valid with its layout, and y is the one array
      that changes. */
  method FlattenInto(mm: MemMgr, ds: Dataspace, id: nat, off: nat, ghost t: Ty, y: word, byteOffset: word)
    returns (next: word)
    requires Transferable(mm, ds, id, off, t, y, byteOffset)
    modifies mm.pool
    ensures mm.Valid() && mm.Lay() == old(mm.Lay()) && S.SameBut(mm.Lay(), old(mm.pool[..]), mm.Lay(), mm.pool[..], y)
    ensures next == byteOffset + |Scalars(old(ds.Mem()), ds.dv, t, off)|
    ensures ds.Mem() == Paste(old(ds.Mem()), mm.Lay().d[y].offset + byteOffset,
      Bytes(old(ds.Mem()), Scalars(old(ds.Mem()), ds.dv, t, off)))
  {
    hide Placed, Ok, Scalars, Indexes, At, WellFormed, Paste, Bytes, Desc.Size, Layout.Inv, Table, TwoLists, Descs,
      S.SameOutside, S.SameBut;
    ghost var L, m, d := mm.Lay(), mm.pool[..], ds.Mem();
    mm.ValidFacts();
    ArrayInPool(L, y);
    MayTransfer(L, d, t, off, y, byteOffset);
    var at := mm.Vec(y).offset;
    S.DescOfVector(mm.Vecs(), y);
    ghost var hi := at + L.d[y].Size();
    next := ds.Flatten(at, byteOffset, id, off, t, hi);
    PasteWithin(m, mm.pool[..], mm.base, at + byteOffset, Bytes(d, Scalars(d, L.d, t, off)), at, hi);
    mm.ChangesKeepValid(y);
  }

  lemma SameInDataspace(m: seq<byte>, m': seq<byte>, base: nat, lo: nat, hi: nat)
    requires base <= |m| == |m'| && lo <= hi <= |m| - base && m'[base..][lo..hi] == m[base..][lo..hi]
    ensures m'[base + lo..base + hi] == m[base + lo..base + hi]
  {
    assert m'[base + lo..base + hi] == m'[base..][lo..hi];
    assert m[base + lo..base + hi] == m[base..][lo..hi];
  }

  /** Array x reads as before if the dataspace does in its storage. */
  lemma SameStorage(L: Layout, m: seq<byte>, m': seq<byte>, x: nat)
    requires L.Inv() && |m| == |m'| == POOL_MAX_SIZE && x in L.used && x < |L.d|
    requires var d := L.d[x]; d.Allocated() ==>
      d.offset + d.Size() <= |m| - L.base
      && m'[L.base..][d.offset..d.offset + d.Size()] == m[L.base..][d.offset..d.offset + d.Size()]
    ensures S.Same(L, m, L, m', x)
  {
    hide Layout.Inv, Desc.Size;
    var d := L.d[x];
    if d.Allocated() {
      ArrayInPool(L, x);
      SameInDataspace(m, m', L.base, d.offset, d.offset + d.Size());
    }
  }

  /** What writing to the scalars of a value does not reach */
  lemma WriteSpares(L: Layout, m: seq<byte>, t: Ty, off: nat, b: seq<byte>, x: nat)
    requires L.Inv() && L.dsSize <= |m| && x in L.used && x < |L.d| && L.d[x].Allocated()
    requires Placed(L, m, t, off, 0, L.staticSize, x) && |b| == |Scalars(m, L.d, t, off)|
    ensures var m' := Write(m, Scalars(m, L.d, t, off), b); var lo, hi := L.d[x].offset, L.d[x].offset + L.d[x].Size();
      hi <= |m| && m'[lo..hi] == m[lo..hi]
  {
    hide Desc.Size, Layout.Inv, Placed, Scalars, Indexes;
    ArrayInPool(L, x);
    MayFlatten(L, m, t, off, x);
    var lo, hi := L.d[x].offset as nat, L.d[x].offset + L.d[x].Size();
    WriteSparesBlock(m, Scalars(m, L.d, t, off), b, lo, hi, lo, hi);
  }

  lemma {:induction false} PlacedOffTable(L: Layout, m: seq<byte>, t: Ty, off: nat, lo: nat, hi: nat, y: nat)
    requires Placed(L, m, t, off, lo, hi, y)
    ensures Placed(L, m, t, off, lo, hi, 0)
    decreases t, 0
  {
    match t
    case Scalar(_, _) =>
    case Array(o, e) => ElemsOffTable(L, m, e, L.d[WordAt(m, off + o)], 0, y);
    case Cluster(fs) => FieldsOffTable(L, m, fs, off, lo, hi, y);
  }

  lemma {:induction false} ElemsOffTable(L: Layout, m: seq<byte>, e: Ty, d: Desc, i: nat, y: nat)
    requires ElemsPlaced(L, m, e, d, i, y)
    ensures ElemsPlaced(L, m, e, d, i, 0)
    decreases e, d.count - i + 1
  {
    if i < d.count {
      PlacedOffTable(L, m, e, Elem(d, i), d.offset, d.offset + d.Size(), y);
      ElemsOffTable(L, m, e, d, i + 1, y);
    }
  }

  lemma {:induction false} FieldsOffTable(L: Layout, m: seq<byte>, fs: Tys, off: nat, lo: nat, hi: nat, y: nat)
    requires FieldsPlaced(L, m, fs, off, lo, hi, y)
    ensures FieldsPlaced(L, m, fs, off, lo, hi, 0)
    decreases fs, 0
  {
    if fs.Fields? {
      PlacedOffTable(L, m, fs.head, off, lo, hi, y);
      FieldsOffTable(L, m, fs.tail, off, lo, hi, y);
    }
  }

  /** Writing to the scalars of a value changes neither the table nor an array that the value does not have. */
  lemma WrittenSpares(L: Layout, m: seq<byte>, m': seq<byte>, t: Ty, off: nat, b: seq<byte>, y: nat)
    requires L.Inv() && |m| == |m'| == POOL_MAX_SIZE && L.base + L.dsSize <= |m|
    requires Placed(L, m[L.base..], t, off, 0, L.staticSize, y) && |b| == |Scalars(m[L.base..], L.d, t, off)|
    requires m'[L.base..] == Write(m[L.base..], Scalars(m[L.base..], L.d, t, off), b)
    ensures 0 < |L.d|
    ensures var lo, hi := L.base + L.d[0].offset, L.base + L.d[0].offset + VECTOR_SIZE * |L.d|;
      hi <= |m| && m'[lo..hi] == m[lo..hi]
    ensures forall x :: x in L.used && x != 0 && Placed(L, m[L.base..], t, off, 0, L.staticSize, x) ==> S.Same(L, m, L, m', x)
  {
    hide Placed, Scalars, Write, Desc.Size, Layout.Inv, S.Same;
    var d := m[L.base..];
    PlacedOffTable(L, d, t, off, 0, L.staticSize, y);
    TableInUse(L);
    WriteSpares(L, d, t, off, b, 0);
    SameInDataspace(m, m', L.base, L.d[0].offset, L.d[0].offset + VECTOR_SIZE * |L.d|);
    forall x | x in L.used && x != 0 && Placed(L, d, t, off, 0, L.staticSize, x) ensures S.Same(L, m, L, m', x) {
      if L.d[x].Allocated() { WriteSpares(L, d, t, off, b, x); }
      SameStorage(L, m, m', x);
    }
  }

  /** The same, for the storage that is both the memory manager's and typed data's. */
  lemma WrittenOnPool(mm: MemMgr, ds: Dataspace, id: nat, off: nat, t: Ty, y: nat, byteOffset: nat, b: seq<byte>, m': seq<byte>)
    requires Transferable(mm, ds, id, off, t, y, byteOffset)
    requires |b| == |Scalars(ds.Mem(), ds.dv, t, off)| && |m'| == POOL_MAX_SIZE
    requires m'[mm.base..] == Write(ds.Mem(), Scalars(ds.Mem(), ds.dv, t, off), b)
    ensures mm.Valid() && |mm.pool[..]| == POOL_MAX_SIZE && mm.base + mm.table + VECTOR_SIZE * mm.count <= POOL_MAX_SIZE
    ensures m'[mm.base + mm.table..mm.base + mm.table + VECTOR_SIZE * mm.count] ==
      mm.pool[..][mm.base + mm.table..mm.base + mm.table + VECTOR_SIZE * mm.count]
    ensures forall x :: x in mm.used && x != 0 && Placed(mm.Lay(), ds.Mem(), t, off, 0, mm.staticSize, x) ==>
      S.Same(mm.Lay(), mm.pool[..], mm.Lay(), m', x)
  {
    hide Placed, Scalars, Write, Desc.Size, Layout.Inv, Table, TwoLists, Descs, S.Same;
    mm.ValidFacts();
    WrittenSpares(mm.Lay(), mm.pool[..], m', t, off, b, y);
  }

  /** Unflattening out of byte array y into a value: the memory manager stays valid with its layout, and no array
      changes that the value does not have, y among them. */
  method UnflattenOutOf(mm: MemMgr, ds: Dataspace, id: nat, off: nat, ghost t: Ty, y: word, byteOffset: word)
    returns (next: word)
    requires Transferable(mm, ds, id, off, t, y, byteOffset)
    requires Unshared(Scalars(ds.Mem(), ds.dv, t, off), Indexes(ds.Mem(), ds.dv, t, off))
    modifies mm.pool
    ensures mm.Valid() && mm.Lay() == old(mm.Lay())
    ensures forall x :: x in mm.used && x != 0 && Placed(mm.Lay(), old(ds.Mem()), t, off, 0, mm.staticSize, x) ==>
      S.Same(mm.Lay(), old(mm.pool[..]), mm.Lay(), mm.pool[..], x)
    ensures next == byteOffset + |Scalars(old(ds.Mem()), ds.dv, t, off)| && ds.dv[y].offset + next <= |ds.Mem()|
    ensures ds.Mem() == Write(old(ds.Mem()), Scalars(old(ds.Mem()), ds.dv, t, off),
                              old(ds.Mem())[ds.dv[y].offset + byteOffset..ds.dv[y].offset + next])
  {
    hide Transferable, MemMgr.Valid, Shared, Placed, Ok, Scalars, Indexes, At, WellFormed, Write, Unshared, Desc.Size,
      Layout.Inv, Table, TwoLists, Descs, S.Same;
    TransferFacts(mm, ds, id, off, t, y, byteOffset);
    ghost var d, lo, hi, s := ds.Mem(), ds.dv[y].offset + byteOffset, ds.dv[y].offset + ds.dv[y].Size(),
      Scalars(ds.Mem(), ds.dv, t, off);
    ghost var m' := ds.Program() + Write(d, s, d[lo..lo + |s|]);
    WrittenOnPool(mm, ds, id, off, t, y, byteOffset, d[lo..lo + |s|], m');
    var at := mm.Vec(y).offset;
    next := ds.Unflatten(at, byteOffset, id, off, t, hi);
    assert mm.pool[..] == m';
    assert mm.pool[mm.base + mm.table..mm.base + mm.table + VECTOR_SIZE * mm.count] ==
      mm.pool[..][mm.base + mm.table..mm.base + mm.table + VECTOR_SIZE * mm.count];
    mm.SameTableStaysValid();
  }

  lemma TableInUse(L: Layout)
    requires L.Inv()
    ensures forall x :: x in L.used ==> x < |L.d|
    ensures 0 in L.used && 0 < |L.d| && L.d[0].Allocated() && L.d[0].Size() == VECTOR_SIZE * |L.d|
  {
    C.TableSize(L);
  }

  lemma ArrayInPool(L: Layout, y: nat)
    requires L.Inv() && y in L.used && y < |L.d| && L.d[y].Allocated()
    ensures L.staticSize <= L.dsSize && L.base + L.dsSize <= POOL_MAX_SIZE && L.d[y].offset + L.d[y].Size() <= L.dsSize
    ensures L.base + L.d[y].offset + L.d[y].Size() <= POOL_MAX_SIZE
  {
    hide Desc.Size;
    C.InsideDataspace(L, y);
  }
}

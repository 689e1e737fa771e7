/**
 The layout of the dataspace: which arrays exist, where they lie, and in which order the memory
 manager lists them. Every allocator operation is a function on layouts; MemMgrs.dfy performs the
 same operations in place on the pool. A layout says nothing about the bytes stored in the arrays.
*/
module Layouts {
  import opened Words
  import opened Seqs

  const POOL_MAX_SIZE: nat := 32768
  /** sizeof(DOPE_VECTOR): five words */
  const VECTOR_SIZE: nat := 10
  const GROWTH_COUNT: nat := 25

  datatype Status = NoErr | ErrMem

  datatype Desc = Desc(offset: word, elemSize: word, count: word) {
    predicate Allocated() { offset != NIL }
    function Size(): nat { elemSize * count }
    predicate Within(lo: int, hi: int) {
      if Allocated() then offset % 4 == 0 && lo <= offset && offset + Size() <= hi else count == 0
    }
    predicate Before(next: Desc) {
      Allocated() && next.Allocated() ==> offset + Size() <= next.offset
    }
  }

  const Blank: Desc := Desc(NIL, 0, 0)

  /** used runs from Head to Tail, free from FreeHead; dsSize is DataspaceSize. */
  datatype Layout = Layout(base: nat, staticSize: nat, d: seq<Desc>, used: seq<nat>, free: seq<nat>, dsSize: nat) {

    /** The two lists hold distinct vectors, as many as there are, and vector 0, the table itself, is in use. */
    ghost predicate ListsOk() {
      && NoDup(used) && NoDup(free) && Disjoint(used, free)
      && Below(used, |d|) && Below(free, |d|)
      && |used| + |free| == |d|
      && 0 in used
    }

    /** Vector 0 describes the table of vectors. */
    ghost predicate TableOk() {
      && 0 < |d| < NIL
      && d[0].Allocated() && d[0].elemSize == VECTOR_SIZE && d[0].count == |d|
    }

    /** Storage is aligned, lies between the static data and the end of the dataspace, and an
        array without storage is empty. */
    ghost predicate Fits()
      requires Below(used, |d|)
    {
      forall k :: 0 <= k < |used| ==> d[used[k]].Within(staticSize, dsSize)
    }

    /** Along the used list storage ascends and does not overlap. */
    ghost predicate Ordered()
      requires Below(used, |d|)
    {
      forall j, k :: 0 <= j < k < |used| ==> d[used[j]].Before(d[used[k]])
    }

    /** Vectors on the free list own nothing. */
    ghost predicate FreeOk()
      requires Below(free, |d|)
    {
      forall k :: 0 <= k < |free| ==> d[free[k]] == Blank
    }

    ghost predicate Inv() {
      && base % 4 == 0 && staticSize <= dsSize && base + dsSize <= POOL_MAX_SIZE
      && ListsOk() && TableOk() && Fits() && Ordered() && FreeOk()
    }
  }

  /** The part of the invariant that keeps storage apart, which also holds halfway through a compaction. */
  ghost predicate RegionsOk(L: Layout) {
    && Below(L.used, |L.d|) && NoDup(L.used) && L.Fits() && L.Ordered()
    && 0 in L.used && L.d[0].Allocated() && L.base + L.dsSize <= POOL_MAX_SIZE
  }

  // ---- cCmdDVArrayAlloc ----

  /** InplaceSize: the distance to the next vector's offset as a UWORD, even when that vector has no storage. */
  function Room(L: Layout, i: nat): word
    requires i in L.used && i < |L.d| && Below(L.used, |L.d|)
  {
    var k := IndexOf(L.used, i);
    if k + 1 < |L.used| then ToWord(L.d[L.used[k + 1]].offset - L.d[i].offset)
    else ToWord(L.dsSize - L.d[i].offset)
  }

  /** No room for size bytes at the aligned end of the dataspace. */
  predicate Full(L: Layout, size: word) {
    L.base + Align4(L.dsSize) + size >= POOL_MAX_SIZE
  }

  /** Fresh storage for n elements of array i at the aligned end of the dataspace. */
  function AtEnd(L: Layout, i: nat, n: word): (Status, Layout)
    requires i in L.used && i < |L.d|
    requires L.dsSize <= POOL_MAX_SIZE
  {
    var size := ToWord(n * L.d[i].elemSize);
    var at := Align4(L.dsSize);
    if Full(L, size) then
      (ErrMem, L.(dsSize := at))
    else
      (NoErr, L.(d := L.d[i := Desc(at, L.d[i].elemSize, n)], used := Without(L.used, i) + [i], dsSize := at + size))
  }

  /** The layout with vector i holding n elements where it lies. */
  function Recount(L: Layout, i: nat, n: word): Layout
    requires i < |L.d|
  {
    L.(d := L.d[i := L.d[i].(count := n)])
  }

  /** The code leaves array i where it is. */
  predicate InPlace(L: Layout, i: nat, n: word)
    requires i in L.used && i < |L.d| && Below(L.used, |L.d|)
  {
    var v := L.d[i];
    n <= v.count || (v.Allocated() && ToWord(n * v.elemSize) <= Room(L, i))
  }

  function Resize(L: Layout, i: nat, n: word): (Status, Layout)
    requires i in L.used && i < |L.d| && Below(L.used, |L.d|)
    requires L.dsSize <= POOL_MAX_SIZE
  {
    if InPlace(L, i, n) then (NoErr, Recount(L, i, n)) else AtEnd(L, i, n)
  }

  /** The old elements, if they are copied to the end, stay within the pool. */
  predicate CopyInPool(L: Layout, i: nat, n: word)
    requires i in L.used && i < |L.d| && Below(L.used, |L.d|)
    requires L.dsSize <= POOL_MAX_SIZE
  {
    InPlace(L, i, n) || AtEnd(L, i, n).0.ErrMem? || L.base + Align4(L.dsSize) + L.d[i].Size() <= POOL_MAX_SIZE
  }

  /** Where the storage after position k of the used list begins. */
  function NextOffset(L: Layout, k: nat): nat
    requires Below(L.used, |L.d|)
    decreases |L.used| - k
  {
    if k >= |L.used| then L.dsSize
    else if L.d[L.used[k]].Allocated() then L.d[L.used[k]].offset
    else NextOffset(L, k + 1)
  }

  /** When a request for n elements is one the code serves correctly. */
  ghost predicate ResizeSafe(L: Layout, i: nat, n: word)
    requires i in L.used && i < |L.d| && Below(L.used, |L.d|)
  {
    var v := L.d[i];
    var k := IndexOf(L.used, i);
    && n * v.elemSize < 0x1_0000
    && (|| n <= v.count
        || !v.Allocated()
        || k + 1 == |L.used|
        || L.d[L.used[k + 1]].Allocated()
        || n * v.elemSize > NIL - v.offset
        || n * v.elemSize <= NextOffset(L, k + 1) - v.offset)
  }

  // ---- cCmdAllocDopeVector, cCmdFreeDopeVector, cCmdGrowDopeVectorArray ----

  function Blanks(n: nat): (r: seq<Desc>)
    ensures |r| == n
  {
    seq(n, _ => Blank)
  }

  function Range(lo: nat, n: nat): (r: seq<nat>)
    ensures |r| == n
  {
    seq(n, k requires 0 <= k < n => lo + k)
  }

  function Grow(L: Layout, m: nat): (Status, Layout)
    requires 0 < |L.d| && 0 in L.used
  {
    var size := ToWord(VECTOR_SIZE * (|L.d| + m));
    var at := Align4(L.dsSize);
    if Full(L, size) then
      (ErrMem, L.(dsSize := at))
    else
      (NoErr, L.(d := L.d[0 := Desc(ToWord(at), L.d[0].elemSize, ToWord(|L.d| + m))] + Blanks(m),
                 used := Without(L.used, 0) + [0],
                 free := Range(|L.d|, m) + L.free,
                 dsSize := at + size))
  }

  /** Takes the first free vector. */
  function Take(L: Layout, elemSize: word): (r: (Layout, nat))
    requires L.free != [] && L.free[0] < |L.d|
  {
    var i := L.free[0];
    (L.(d := L.d[i := Desc(NIL, elemSize, 0)], used := L.used + [i], free := L.free[1..]), i)
  }

  function AllocVector(L: Layout, elemSize: word): (r: (Status, Layout, nat))
    requires 0 < |L.d| && 0 in L.used && Below(L.free, |L.d|)
  {
    var (s, G) := if L.free == [] then Grow(L, GROWTH_COUNT) else (NoErr, L);
    if s.ErrMem? then (ErrMem, G, 0)
    else
      assert L.free == [] ==> G.free[0] == |L.d|;
      var (T, i) := Take(G, elemSize);
      (NoErr, T, i)
  }

  function FreeVector(L: Layout, i: nat): Layout
    requires i in L.used && i < |L.d|
  {
    L.(d := L.d[i := Blank], used := Without(L.used, i), free := [i] + L.free)
  }

  // ---- cCmdDSCompact ----

  /** NewOffset when the compaction loop reaches position k of the used list. Every position
      aligns it, also one without storage. */
  function Pos(L: Layout, k: nat): nat
    requires Below(L.used, |L.d|) && k <= |L.used|
  {
    if k == 0 then L.staticSize
    else
      var v := L.d[L.used[k - 1]];
      Align4(Pos(L, k - 1)) + if v.Allocated() then v.Size() else 0
  }

  /** The vectors once the first n positions have been compacted. */
  function Compacted(L: Layout, n: nat): (r: seq<Desc>)
    requires Below(L.used, |L.d|) && n <= |L.used|
    ensures |r| == |L.d|
    decreases n
  {
    if n == 0 then L.d
    else
      var d := Compacted(L, n - 1);
      var i := L.used[n - 1];
      if L.d[i].Allocated() then d[i := d[i].(offset := ToWord(Align4(Pos(L, n - 1))))] else d
  }

  /** The layout when the compaction loop reaches position n, the sizes not yet corrected. */
  function Partial(L: Layout, n: nat): Layout
    requires Below(L.used, |L.d|) && n <= |L.used|
  {
    L.(d := Compacted(L, n))
  }

  function Compact(L: Layout): Layout
    requires Below(L.used, |L.d|)
  {
    L.(d := Compacted(L, |L.used|), dsSize := Pos(L, |L.used|))
  }
}

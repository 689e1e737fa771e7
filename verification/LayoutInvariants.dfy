/** Every allocator operation keeps the layout invariant, or keeps it exactly under a stated condition. */
module LayoutInvariants {
  import opened Words
  import opened Seqs
  import opened Layouts

  lemma MoveToTailKeepsLists(L: Layout, i: nat, M: Layout)
    requires L.ListsOk() && i in L.used
    requires M.used == Without(L.used, i) + [i] && M.free == L.free && |M.d| == |L.d|
    ensures M.ListsOk()
  {
    WithoutKeepsRest(L.used, i);
    var p := IndexOf(L.used, i);
    assert M.used[|M.used| - 1] == L.used[p];
    assert 0 in M.used by {
      if i != 0 { assert 0 in Without(L.used, i); }
    }
  }

  /** Giving vector i fresh storage at the end keeps the regions apart. */
  lemma AppendKeepsRegions(L: Layout, i: nat, M: Layout)
    requires Below(L.used, |L.d|) && NoDup(L.used) && L.Fits() && L.Ordered() && i in L.used
    requires L.staticSize <= L.dsSize <= POOL_MAX_SIZE && M.staticSize == L.staticSize
    requires M.used == Without(L.used, i) + [i] && |L.d| <= |M.d|
    requires forall x :: 0 <= x < |L.d| && x != i ==> M.d[x] == L.d[x]
    requires M.d[i].offset == Align4(L.dsSize) && M.d[i].offset + M.d[i].Size() <= M.dsSize
    ensures Below(M.used, |M.d|) && M.Fits() && M.Ordered()
  {
    hide Desc.Size;
    WithoutKeepsRest(L.used, i);
    var p := IndexOf(L.used, i);
    forall k | 0 <= k < |M.used| ensures M.used[k] < |M.d| && M.d[M.used[k]].Within(M.staticSize, M.dsSize) {
      if k < |M.used| - 1 {
        assert M.used[k] == L.used[if k < p then k else k + 1];
      }
    }
    forall j, k | 0 <= j < k < |M.used| ensures M.d[M.used[j]].Before(M.d[M.used[k]]) {
      var j' := if j < p then j else j + 1;
      assert M.used[j] == L.used[j'];
      if k < |M.used| - 1 {
        assert M.used[k] == L.used[if k < p then k else k + 1];
      } else {
        assert L.d[L.used[j']].Within(L.staticSize, L.dsSize);
      }
    }
  }

  lemma MulMono(a: nat, x: nat, y: nat)
    requires x <= y
    ensures a * x <= a * y
  {
    assert a * y == a * x + a * (y - x);
  }

  // ---- resizing ----

  lemma ShrinkKeepsInv(L: Layout, i: nat, n: word)
    requires L.Inv() && i in L.used && i != 0 && n <= L.d[i].count
    ensures Recount(L, i, n).Inv()
  {
    var M := Recount(L, i, n);
    assert M.d[i].Size() <= L.d[i].Size() by { MulMono(L.d[i].elemSize, n, L.d[i].count); }
    hide Desc.Size;
    forall k | 0 <= k < |M.used| ensures M.d[M.used[k]].Within(M.staticSize, M.dsSize) {
      assert L.d[L.used[k]].Within(L.staticSize, L.dsSize);
    }
    forall j, k | 0 <= j < k < |M.used| ensures M.d[M.used[j]].Before(M.d[M.used[k]]) {
      assert L.d[L.used[j]].Before(L.d[L.used[k]]);
    }
    FreeUntouched(L, i, M);
  }

  lemma FreeUntouched(L: Layout, i: nat, M: Layout)
    requires L.ListsOk() && L.FreeOk() && i in L.used && M.free == L.free && |L.d| <= |M.d|
    requires forall x :: 0 <= x < |L.d| && x != i ==> M.d[x] == L.d[x]
    ensures Below(M.free, |M.d|) && M.FreeOk()
  {
    var p := IndexOf(L.used, i);
    forall k | 0 <= k < |M.free| ensures M.d[M.free[k]] == Blank {
      assert L.used[p] != L.free[k];
    }
  }

  /** Storage listed from position k on starts no earlier than NextOffset. */
  lemma NextOffsetIsLeast(L: Layout, k: nat, j: nat)
    requires Below(L.used, |L.d|) && L.Ordered() && k <= j < |L.used| && L.d[L.used[j]].Allocated()
    ensures NextOffset(L, k) <= L.d[L.used[j]].offset
    decreases |L.used| - k
  {
    if L.d[L.used[k]].Allocated() {
      if k < j { assert L.d[L.used[k]].Before(L.d[L.used[j]]); }
    } else {
      NextOffsetIsLeast(L, k + 1, j);
    }
  }

  /** NextOffset is the end of the dataspace or the start of some array from position k on. */
  lemma NextOffsetIsReached(L: Layout, k: nat) returns (j: nat)
    requires Below(L.used, |L.d|) && L.Fits() && k <= |L.used|
    ensures k <= j <= |L.used|
    ensures j == |L.used| ==> NextOffset(L, k) == L.dsSize
    ensures j < |L.used| ==> L.d[L.used[j]].Allocated() && NextOffset(L, k) == L.d[L.used[j]].offset
    ensures NextOffset(L, k) <= L.dsSize
    decreases |L.used| - k
  {
    j := k;
    if k < |L.used| {
      assert L.d[L.used[k]].Within(L.staticSize, L.dsSize);
      if !L.d[L.used[k]].Allocated() { j := NextOffsetIsReached(L, k + 1); }
    }
  }

  /** If array i still ends before the next storage, everything stays in its place and apart. */
  lemma GrowInPlaceKeeps(L: Layout, i: nat, n: word)
    requires Below(L.used, |L.d|) && NoDup(L.used) && L.Fits() && L.Ordered() && i in L.used && L.d[i].Allocated()
    requires Recount(L, i, n).d[i].offset + Recount(L, i, n).d[i].Size() <= NextOffset(L, IndexOf(L.used, i) + 1)
    ensures Recount(L, i, n).Fits() && Recount(L, i, n).Ordered()
  {
    hide Desc.Size;
    var p := IndexOf(L.used, i);
    var M := Recount(L, i, n);
    var _ := NextOffsetIsReached(L, p + 1);
    forall k | 0 <= k < |M.used| ensures M.d[M.used[k]].Within(M.staticSize, M.dsSize) {
      assert L.d[L.used[k]].Within(L.staticSize, L.dsSize);
    }
    forall j, k | 0 <= j < k < |M.used| ensures M.d[M.used[j]].Before(M.d[M.used[k]]) {
      assert L.d[L.used[j]].Before(L.d[L.used[k]]);
      if j == p && L.d[L.used[k]].Allocated() { NextOffsetIsLeast(L, p + 1, k); }
    }
  }

  /** If it does not, it runs into that storage or over the end of the dataspace. */
  lemma GrowInPlaceBreaks(L: Layout, i: nat, n: word)
    requires Below(L.used, |L.d|) && NoDup(L.used) && L.Fits() && i in L.used && L.d[i].Allocated()
    requires Recount(L, i, n).d[i].offset + Recount(L, i, n).d[i].Size() > NextOffset(L, IndexOf(L.used, i) + 1)
    ensures !(Recount(L, i, n).Fits() && Recount(L, i, n).Ordered())
  {
    hide Desc.Size, NextOffset, Layout.Fits, Layout.Ordered;
    var p := IndexOf(L.used, i);
    var M := Recount(L, i, n);
    var q := NextOffsetIsReached(L, p + 1);
    if q < |L.used| {
      assert M.d[M.used[q]] == L.d[L.used[q]];
      NotOrdered(M, p, q);
    } else {
      NotFitting(M, p);
    }
  }

  lemma NotOrdered(M: Layout, p: nat, q: nat)
    requires Below(M.used, |M.d|) && p < q < |M.used| && !M.d[M.used[p]].Before(M.d[M.used[q]])
    ensures !M.Ordered()
  {
  }

  lemma NotFitting(M: Layout, p: nat)
    requires Below(M.used, |M.d|) && p < |M.used| && !M.d[M.used[p]].Within(M.staticSize, M.dsSize)
    ensures !M.Fits()
  {
  }

  /** Growing in place is sound exactly when the array still ends before the next storage. */
  lemma GrowInPlaceExactly(L: Layout, i: nat, n: word)
    requires L.Inv() && i in L.used && i != 0 && L.d[i].Allocated()
    ensures Recount(L, i, n).Inv() <==> L.d[i].offset + n * L.d[i].elemSize <= NextOffset(L, IndexOf(L.used, i) + 1)
  {
    hide Layout.Fits, Layout.Ordered, NextOffset, NoDup, Disjoint;
    var M := Recount(L, i, n);
    assert M.d[i].Size() == n * L.d[i].elemSize;
    FreeUntouched(L, i, M);
    if M.d[i].offset + M.d[i].Size() <= NextOffset(L, IndexOf(L.used, i) + 1) {
      GrowInPlaceKeeps(L, i, n);
    } else {
      GrowInPlaceBreaks(L, i, n);
    }
  }

  /** With its successor in storage, or with no successor, the room the code measures is the real gap;
      otherwise it is the distance to 0xFFFF. */
  lemma RoomIsGap(L: Layout, i: nat)
    requires Below(L.used, |L.d|) && L.Fits() && L.Ordered() && L.dsSize <= POOL_MAX_SIZE
    requires i in L.used && i < |L.d| && L.d[i].Allocated()
    ensures var k := IndexOf(L.used, i);
      Room(L, i) == if k + 1 == |L.used| || L.d[L.used[k + 1]].Allocated() then NextOffset(L, k + 1) - L.d[i].offset
                    else NIL - L.d[i].offset
  {
    hide Desc.Size, ToWord;
    var k := IndexOf(L.used, i);
    assert L.d[L.used[k]].Within(L.staticSize, L.dsSize);
    if k + 1 == |L.used| {
      ToWordOfWord(L.dsSize - L.d[i].offset);
    } else {
      assert L.d[L.used[k]].Before(L.d[L.used[k + 1]]);
      ToWordOfWord(L.d[L.used[k + 1]].offset - L.d[i].offset);
    }
  }

  lemma AtEndExactly(L: Layout, i: nat, n: word)
    requires L.Inv() && i in L.used && i != 0
    ensures AtEnd(L, i, n).0.NoErr? ==> (AtEnd(L, i, n).1.Inv() <==> n * L.d[i].elemSize < 0x1_0000)
    ensures AtEnd(L, i, n).0.ErrMem? ==> AtEnd(L, i, n).1.Inv()
  {
    var (s, M) := AtEnd(L, i, n);
    if s.ErrMem? {
      AlignKeepsInv(L);
    } else {
      MoveToEndExactly(L, i, n, M);
    }
  }

  lemma MoveToEndExactly(L: Layout, i: nat, n: word, M: Layout)
    requires L.Inv() && i in L.used && i != 0
    requires AtEnd(L, i, n) == (NoErr, M)
    ensures M.Inv() <==> n * L.d[i].elemSize < 0x1_0000
  {
    assert M.d[i].Size() == n * L.d[i].elemSize;
    hide Desc.Size;
    MoveToTailKeepsLists(L, i, M);
    FreeUntouched(L, i, M);
    if n * L.d[i].elemSize < 0x1_0000 {
      AppendKeepsRegions(L, i, M);
    } else {
      assert !M.d[M.used[|M.used| - 1]].Within(M.staticSize, M.dsSize);
    }
  }

  /** The arithmetic of allocating at the end stays within words and within the pool. */
  lemma AtEndFacts(L: Layout, i: nat, n: word)
    requires L.Inv() && i in L.used && n >= L.d[i].count
    ensures var at := Align4(L.dsSize); var v := L.d[i];
      && L.dsSize <= at <= POOL_MAX_SIZE - L.base && Align4(L.base + L.dsSize) == L.base + at
      && (n * v.elemSize < 0x1_0000 ==> ToWord(n * v.elemSize) == n * v.elemSize)
      && 0 <= v.elemSize * v.count <= n * v.elemSize
      && (if v.Allocated() then L.base + v.offset + v.elemSize * v.count <= POOL_MAX_SIZE else v.count == 0)
      && L.d[0].offset + VECTOR_SIZE * |L.d| <= L.dsSize
  {
    hide Layout.Fits, Layout.Ordered, Layout.FreeOk, ToWord, NoDup, Disjoint, Align4;
    StorageInside(L, i);
    StorageInside(L, 0);
    Align4Sum(L.base, L.dsSize);
    Align4IsLeast(L.dsSize, POOL_MAX_SIZE - L.base);
    Align4Whole(L.dsSize);
    Align4Whole(POOL_MAX_SIZE - L.base);
    if n * L.d[i].elemSize < 0x1_0000 { ToWordOfWord(n * L.d[i].elemSize); }
    MulMono(L.d[i].elemSize, L.d[i].count, n);
  }

  /** A request whose size fits a word copies within the pool. */
  lemma WordSizedFits(L: Layout, i: nat, n: word)
    requires L.Inv() && i in L.used && n * L.d[i].elemSize < 0x1_0000
    ensures CopyInPool(L, i, n)
  {
    hide Layout.Inv, Room, ToWord, Align4;
    LayoutFacts(L);
    if n > L.d[i].count { AtEndFacts(L, i, n); }
  }

  lemma StorageInside(L: Layout, i: nat)
    requires Below(L.used, |L.d|) && L.Fits() && i in L.used
    ensures i < |L.d|
    ensures if L.d[i].Allocated() then L.staticSize <= L.d[i].offset && L.d[i].offset + L.d[i].elemSize * L.d[i].count <= L.dsSize
            else L.d[i].count == 0
  {
    var k := IndexOf(L.used, i);
    assert L.d[L.used[k]].Within(L.staticSize, L.dsSize);
  }

  /** Resizing keeps the invariant exactly when ResizeSafe says so; running out of memory always keeps it. */
  lemma ResizeKeepsInvExactly(L: Layout, i: nat, n: word)
    requires L.Inv() && i in L.used && i != 0
    ensures Resize(L, i, n).0.NoErr? ==> (Resize(L, i, n).1.Inv() <==> ResizeSafe(L, i, n))
    ensures Resize(L, i, n).0.ErrMem? ==> Resize(L, i, n).1.Inv()
  {
    var v := L.d[i];
    var (s, M) := Resize(L, i, n);
    var k := IndexOf(L.used, i);
    SizeIsSmall(L, i);
    if n <= v.count {
      MulMono(v.elemSize, n, v.count);
      ShrinkKeepsInv(L, i, n);
    } else {
      ResizeUpKeepsInvExactly(L, i, n);
    }
  }

  lemma SizeIsSmall(L: Layout, i: nat)
    requires Below(L.used, |L.d|) && L.Fits() && L.dsSize <= POOL_MAX_SIZE && i in L.used
    ensures L.d[i].elemSize * L.d[i].count <= POOL_MAX_SIZE
    ensures L.d[i].Allocated() ==> L.d[i].offset <= L.dsSize
  {
    var k := IndexOf(L.used, i);
    assert L.d[L.used[k]].Within(L.staticSize, L.dsSize);
  }

  lemma RoomFacts(L: Layout, i: nat)
    requires L.Inv() && i in L.used && L.d[i].Allocated()
    ensures var k := IndexOf(L.used, i);
      && Room(L, i) == (if k + 1 == |L.used| || L.d[L.used[k + 1]].Allocated() then NextOffset(L, k + 1) - L.d[i].offset
                        else NIL - L.d[i].offset)
      && NextOffset(L, k + 1) <= POOL_MAX_SIZE && L.d[i].offset <= POOL_MAX_SIZE
  {
    RoomIsGap(L, i);
    SizeIsSmall(L, i);
    var _ := NextOffsetIsReached(L, IndexOf(L.used, i) + 1);
  }

  lemma ResizeUpKeepsInvExactly(L: Layout, i: nat, n: word)
    requires L.Inv() && i in L.used && i != 0 && n > L.d[i].count
    ensures Resize(L, i, n).0.NoErr? ==> (Resize(L, i, n).1.Inv() <==> ResizeSafe(L, i, n))
    ensures Resize(L, i, n).0.ErrMem? ==> Resize(L, i, n).1.Inv()
  {
    hide Layout.Fits, Layout.Ordered, NextOffset, Room, AtEnd;
    var v := L.d[i];
    var size: nat := n * v.elemSize;
    if v.Allocated() { RoomFacts(L, i); GrowInPlaceExactly(L, i, n); }
    if size < 0x1_0000 { ToWordOfWord(size); }
    AtEndExactly(L, i, n);
  }

  /**
   What a resize does. Fewer elements, and more where the size modulo 2 to the 16 fits up to the next storage, only change
   the count; before a listed array without storage it is the distance to 0xFFFF that counts. Otherwise the array gets
   storage at the aligned end and becomes the last one, unless that reaches the end of the pool.
  */
  lemma ResizeExactly(L: Layout, i: nat, n: word)
    requires L.Inv() && i in L.used && i != 0
    ensures var v, k, end := L.d[i], IndexOf(L.used, i), if L.dsSize % 4 == 0 then L.dsSize else L.dsSize / 4 * 4 + 4;
      var size := n * v.elemSize % 0x1_0000;
      var gap := if k + 1 < |L.used| && !L.d[L.used[k + 1]].Allocated() then 0xFFFF - v.offset
                 else NextOffset(L, k + 1) - v.offset;
      Resize(L, i, n) ==
        if n <= v.count || (v.Allocated() && size <= gap) then (NoErr, L.(d := L.d[i := v.(count := n)]))
        else if L.base + end + size >= POOL_MAX_SIZE then (ErrMem, L.(dsSize := end))
        else (NoErr, L.(d := L.d[i := Desc(end, v.elemSize, n)], used := Without(L.used, i) + [i], dsSize := end + size))
  {
    hide Layout.Fits, Layout.Ordered, Layout.FreeOk, NextOffset, Room, NoDup, Disjoint, Without;
    if L.d[i].Allocated() { RoomFacts(L, i); }
  }

  lemma ResizeFailsExactly(L: Layout, i: nat, n: word)
    requires i in L.used && i < |L.d| && Below(L.used, |L.d|) && L.dsSize <= POOL_MAX_SIZE
    ensures Resize(L, i, n).0.ErrMem? <==> !InPlace(L, i, n) && Full(L, ToWord(n * L.d[i].elemSize))
  {
    hide InPlace, Full, ToWord, Without;
  }

  lemma GrowFailsExactly(L: Layout, m: nat)
    requires 0 < |L.d| && 0 in L.used
    ensures Grow(L, m).0.ErrMem? <==> Full(L, ToWord(VECTOR_SIZE * (|L.d| + m)))
  {
    hide Full, Without;
  }

  /**
   What enlarging the table does: m vectors more, blank and in order in front of the free list, in a table of ten bytes
   each that moves to the aligned end and becomes the last array; unless that reaches the end of the pool.
  */
  lemma GrowExactly(L: Layout, m: nat)
    requires L.Inv() && |L.d| + m < 0x1_0000
    ensures var end, size := if L.dsSize % 4 == 0 then L.dsSize else L.dsSize / 4 * 4 + 4, 10 * (|L.d| + m) % 0x1_0000;
      var (s, M) := Grow(L, m);
      if L.base + end + size >= POOL_MAX_SIZE then s == ErrMem && M == L.(dsSize := end)
      else
        && s == NoErr && |M.d| == |L.d| + m && M.d[0] == Desc(end, 10, |L.d| + m)
        && (forall x :: 0 < x < |L.d| ==> M.d[x] == L.d[x])
        && (forall x :: |L.d| <= x < |M.d| ==> M.d[x] == Desc(0xFFFF, 0, 0))
        && M.used == Without(L.used, 0) + [0] && |M.free| == m + |L.free| && M.free[m..] == L.free
        && (forall k :: 0 <= k < m ==> M.free[k] == |L.d| + k)
        && M.dsSize == end + size && M.base == L.base && M.staticSize == L.staticSize
  {
    hide Layout.Fits, Layout.Ordered, Layout.FreeOk, NoDup, Disjoint, Without;
    GrowFacts(L, m);
  }

  /**
   Which vector is allocated: the first free one, or, with 25 more vectors if none is free, the first of those. It is the
   last of the used list, without storage.
  */
  lemma AllocVectorExactly(L: Layout, elemSize: word)
    requires L.Inv()
    ensures var (s, M, i) := AllocVector(L, elemSize);
      if L.free != [] then
        s == NoErr && i == L.free[0] &&
        M == L.(d := L.d[i := Desc(0xFFFF, elemSize, 0)], used := L.used + [i], free := L.free[1..])
      else
        var (r, G) := Grow(L, 25);
        s == r && M.base == G.base && M.dsSize == G.dsSize && |M.d| == |G.d| &&
        if s == ErrMem then M == G
        else
          i == |L.d| && M.d[i] == Desc(0xFFFF, elemSize, 0) && M.used == G.used + [i] && M.free == G.free[1..]
          && forall x :: 0 <= x < |G.d| && x != i ==> M.d[x] == G.d[x]
  {
    hide Layout.Fits, Layout.Ordered, NoDup, Disjoint, Without, Full, Align4, ToWord;
  }

  /** The vector freed last is the next to be allocated; all that remains of both is its place in the list. */
  lemma FreeThenAlloc(L: Layout, i: nat, elemSize: word)
    requires L.Inv() && i in L.used && i != 0
    ensures AllocVector(FreeVector(L, i), elemSize) ==
      (NoErr, L.(d := L.d[i := Desc(0xFFFF, elemSize, 0)], used := Without(L.used, i) + [i]), i)
  {
    hide Layout.Fits, Layout.Ordered, Layout.FreeOk, NoDup, Disjoint, Without, Grow;
    var F := FreeVector(L, i);
    assert F.free[1..] == L.free && F.d[i := Desc(NIL, elemSize, 0)] == L.d[i := Desc(NIL, elemSize, 0)];
    FreeVectorKeepsInv(L, i);
    assert 0 in F.used;
  }

  lemma AlignKeepsInv(L: Layout)
    requires L.Inv()
    ensures L.(dsSize := Align4(L.dsSize)).Inv()
  {
    hide Desc.Size;
    var M := L.(dsSize := Align4(L.dsSize));
    forall k | 0 <= k < |M.used| ensures M.d[M.used[k]].Within(M.staticSize, M.dsSize) {
      assert L.d[L.used[k]].Within(L.staticSize, L.dsSize);
    }
  }

  // ---- the table of vectors ----

  lemma TableCountIsSmall(L: Layout)
    requires L.Inv()
    ensures VECTOR_SIZE * |L.d| <= L.dsSize && |L.d| <= 3276
  {
    var k := IndexOf(L.used, 0);
    assert L.d[L.used[k]].Within(L.staticSize, L.dsSize);
  }

  /** The arithmetic of growth stays within words. */
  lemma GrowFacts(L: Layout, m: nat)
    requires L.Inv() && |L.d| + m < 0x1_0000
    ensures var size := VECTOR_SIZE * (|L.d| + m);
      && (size < 0x1_0000 ==> ToWord(size) == size && |L.d| + m < NIL) && ToWord(|L.d| + m) == |L.d| + m
      && L.d[0].elemSize == VECTOR_SIZE && L.d[0].count == |L.d|
      && L.dsSize <= Align4(L.dsSize) <= POOL_MAX_SIZE - L.base && ToWord(Align4(L.dsSize)) == Align4(L.dsSize)
      && Align4(L.base + L.dsSize) == L.base + Align4(L.dsSize)
  {
    TableCountIsSmall(L);
  }

  lemma LayoutFacts(L: Layout)
    requires L.Inv()
    ensures NoDup(L.used) && 0 in L.used && 0 < |L.d| < NIL && Below(L.used, |L.d|) && L.dsSize <= POOL_MAX_SIZE
  {
  }

  lemma RangeJoins(n: nat, m: nat, free: seq<nat>)
    requires NoDup(free) && Below(free, n)
    ensures NoDup(Range(n, m) + free) && Below(Range(n, m) + free, n + m)
  {
  }

  /** Enlarging the table keeps the invariant exactly when its size fits a word; running out of memory always keeps
      it. */
  lemma GrowKeepsInvExactly(L: Layout, m: nat)
    requires L.Inv() && |L.d| + m < 0x1_0000
    ensures Grow(L, m).0.NoErr? ==> (Grow(L, m).1.Inv() <==> VECTOR_SIZE * (|L.d| + m) < 0x1_0000)
    ensures Grow(L, m).0.ErrMem? ==> Grow(L, m).1.Inv()
  {
    hide Layout.Fits, Layout.Ordered, Layout.FreeOk;
    var (s, M) := Grow(L, m);
    TableCountIsSmall(L);
    if s.ErrMem? {
      AlignKeepsInv(L);
    } else {
      assert M.d[0].Size() == VECTOR_SIZE * (|L.d| + m);
      hide Desc.Size;
      MoveToTailKeepsLists(L, 0, L.(used := M.used));
      if VECTOR_SIZE * (|L.d| + m) < 0x1_0000 {
        AppendKeepsRegions(L, 0, M);
        RangeJoins(|L.d|, m, L.free);
        GrowKeepsFree(L, m, M);
      } else {
        OverflowingTable(M);
      }
    }
  }

  lemma OverflowingTable(M: Layout)
    requires M.used != [] && M.used[|M.used| - 1] == 0 && |M.d| > 0 && M.d[0].Allocated() && M.d[0].Size() > POOL_MAX_SIZE
    ensures !M.Inv()
  {
    hide Desc.Size, Layout.Ordered, Layout.FreeOk, NoDup, Disjoint;
  }

  lemma GrowKeepsInv(L: Layout)
    requires L.Inv()
    ensures Grow(L, GROWTH_COUNT).1.Inv()
    ensures VECTOR_SIZE * (|L.d| + GROWTH_COUNT) < 0x1_0000
  {
    hide Layout.Inv, Grow;
    TableCountIsSmall(L);
    GrowKeepsInvExactly(L, GROWTH_COUNT);
  }

  lemma GrowKeepsFree(L: Layout, m: nat, M: Layout)
    requires L.ListsOk() && L.FreeOk() && Below(M.used, |L.d|) && NoDup(M.used) && Disjoint(M.used, L.free)
    requires M.free == Range(|L.d|, m) + L.free && |M.d| == |L.d| + m
    requires forall x :: 0 < x < |L.d| ==> M.d[x] == L.d[x]
    requires forall x :: |L.d| <= x < |M.d| ==> M.d[x] == Blank
    ensures Below(M.free, |M.d|) && M.FreeOk() && Disjoint(M.used, M.free)
  {
    var p := IndexOf(L.used, 0);
    forall k | 0 <= k < |M.free| ensures M.free[k] < |M.d| && M.d[M.free[k]] == Blank {
      if k >= m {
        assert M.free[k] == L.free[k - m];
        assert L.used[p] != L.free[k - m];
      }
    }
  }

  lemma TakeKeepsInv(L: Layout, elemSize: word)
    requires L.Inv() && L.free != []
    ensures Take(L, elemSize).0.Inv() && Take(L, elemSize).1 == L.free[0] != 0
  {
    hide Desc.Size;
    var (M, i) := Take(L, elemSize);
    var p := IndexOf(L.used, 0);
    assert L.used[p] != L.free[0];
    assert M.used[p] == 0;
    forall k | 0 <= k < |M.used| ensures M.d[M.used[k]].Within(M.staticSize, M.dsSize) {
      if k < |L.used| {
        assert L.used[k] != L.free[0];
        assert L.d[L.used[k]].Within(L.staticSize, L.dsSize);
      }
    }
    forall j, k | 0 <= j < k < |M.used| ensures M.d[M.used[j]].Before(M.d[M.used[k]]) {
      if k < |L.used| {
        assert L.used[j] != L.free[0] && L.used[k] != L.free[0];
        assert L.d[L.used[j]].Before(L.d[L.used[k]]);
      }
    }
    forall k | 0 <= k < |M.free| ensures M.d[M.free[k]] == Blank {
      assert L.free[0] != L.free[k + 1];
    }
  }

  lemma AllocVectorKeepsInv(L: Layout, elemSize: word)
    requires L.Inv()
    ensures AllocVector(L, elemSize).1.Inv()
    ensures var (s, M, i) := AllocVector(L, elemSize);
      s.NoErr? ==>
        i != 0 && i !in L.used && i in M.used && i < |M.d| && M.d[i] == Desc(NIL, elemSize, 0)
        && M.used[|M.used| - 1] == i
  {
    if L.free == [] {
      GrowKeepsInv(L);
      var (s, G) := Grow(L, GROWTH_COUNT);
      if s.NoErr? {
        TakeKeepsInv(G, elemSize);
        assert G.free[0] == |L.d|;
      }
    } else {
      TakeKeepsInv(L, elemSize);
      assert forall k :: 0 <= k < |L.used| ==> L.used[k] != L.free[0];
    }
  }

  lemma RemoveKeepsRegions(L: Layout, i: nat, M: Layout)
    requires Below(L.used, |L.d|) && NoDup(L.used) && L.Fits() && L.Ordered() && i in L.used
    requires M == FreeVector(L, i)
    ensures Below(M.used, |M.d|) && M.Fits() && M.Ordered()
  {
    hide Desc.Size, Desc.Within, Desc.Before;
    var p := IndexOf(L.used, i);
    WithoutKeepsRest(L.used, i);
    forall k | 0 <= k < |M.used| ensures M.d[M.used[k]].Within(M.staticSize, M.dsSize) {
      assert L.d[L.used[if k < p then k else k + 1]].Within(L.staticSize, L.dsSize);
    }
    forall j, k | 0 <= j < k < |M.used| ensures M.d[M.used[j]].Before(M.d[M.used[k]]) {
      assert L.d[L.used[if j < p then j else j + 1]].Before(L.d[L.used[if k < p then k else k + 1]]);
    }
  }

  lemma AllocVectorFacts(L: Layout)
    requires L.Inv()
    ensures L.free == [] && Grow(L, GROWTH_COUNT).0.NoErr? ==> var G := Grow(L, GROWTH_COUNT).1;
      && G.free != [] && G.base == L.base
      && forall x :: x in L.used && x != 0 ==> x in G.used && x < |L.d| && x < |G.d| && G.d[x] == L.d[x]
    ensures forall x :: x in L.used ==> x < |L.d|
  {
    var (s, G) := Grow(L, GROWTH_COUNT);
    if L.free == [] && s.NoErr? {
      assert G.free[0] == |L.d|;
      WithoutKeepsRest(L.used, 0);
      forall x | x in L.used && x != 0 ensures x in G.used {
        assert x in Without(L.used, 0);
      }
    }
  }

  lemma FreeVectorKeepsInv(L: Layout, i: nat)
    requires L.Inv() && i in L.used && i != 0
    ensures FreeVector(L, i).Inv()
  {
    var M := FreeVector(L, i);
    RemoveKeepsRegions(L, i, M);
    hide Layout.Fits, Layout.Ordered, Desc.Size;
    var p := IndexOf(L.used, i);
    WithoutKeepsRest(L.used, i);
    assert 0 in M.used;
    forall k | 0 <= k < |M.free| ensures M.d[M.free[k]] == Blank {
      if k > 0 { assert L.used[p] != L.free[k - 1]; }
    }
  }

  // ---- what an operation does not touch ----

  /** Every array but the table and array i stays in use where it is. */
  ghost predicate OthersStay(L: Layout, M: Layout, i: nat) {
    forall x :: x in L.used && x != 0 && x != i ==> x in M.used && x < |L.d| && x < |M.d| && M.d[x] == L.d[x]
  }

  lemma GrowOthers(L: Layout, m: nat)
    requires L.Inv()
    ensures OthersStay(L, Grow(L, m).1, 0)
  {
    hide Layout.Fits, Layout.Ordered, Layout.FreeOk;
    WithoutKeepsRest(L.used, 0);
  }

  lemma TakeOthers(L: Layout, elemSize: word)
    requires L.Inv() && L.free != []
    ensures OthersStay(L, Take(L, elemSize).0, 0)
  {
    hide Layout.Fits, Layout.Ordered, Layout.FreeOk;
    forall x | x in L.used ensures x != L.free[0] {
      var k := IndexOf(L.used, x);
      assert L.used[k] != L.free[0];
    }
  }

  lemma FreeVectorOthers(L: Layout, i: nat)
    requires L.Inv() && i in L.used
    ensures OthersStay(L, FreeVector(L, i), i)
  {
    hide Layout.Fits, Layout.Ordered, Layout.FreeOk;
    WithoutKeepsRest(L.used, i);
  }

  lemma ResizeOthers(L: Layout, i: nat, n: word)
    requires L.Inv() && i in L.used
    ensures OthersStay(L, Resize(L, i, n).1, i)
    ensures i in Resize(L, i, n).1.used && Resize(L, i, n).1.d[i].elemSize == L.d[i].elemSize
    ensures Resize(L, i, n).1.d[i].count == if Resize(L, i, n).0.NoErr? then n else L.d[i].count
    ensures |Resize(L, i, n).1.d| == |L.d|
  {
    hide Layout.Fits, Layout.Ordered, Layout.FreeOk;
    WithoutKeepsRest(L.used, i);
    var M := Resize(L, i, n).1;
    assert AtEnd(L, i, n).0.NoErr? ==> AtEnd(L, i, n).1.used[|L.used| - 1] == i;
  }
}

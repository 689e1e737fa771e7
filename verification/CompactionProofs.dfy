/** Compaction as a function on layouts: it slides storage down, keeps the order and leaves gaps under four bytes. */
module CompactionProofs {
  import opened Words
  import opened Seqs
  import opened Layouts

  /** NewOffset never passes storage that is still to be moved, so every slide goes downward. */
  lemma {:induction false} PosStaysBehind(L: Layout, j: nat, k: nat)
    requires Below(L.used, |L.d|) && L.Fits() && L.Ordered()
    requires j <= k < |L.used| && L.d[L.used[k]].Allocated()
    ensures L.staticSize <= Pos(L, j) && Align4(Pos(L, j)) <= L.d[L.used[k]].offset
  {
    hide Desc.Size, Align4;
    assert L.d[L.used[k]].Within(L.staticSize, L.dsSize);
    Align4IsLeast(Pos(L, j), L.d[L.used[k]].offset);
    if j > 0 {
      Align4Whole(Pos(L, j - 1));
      PosStaysBehind(L, j - 1, k);
      if L.d[L.used[j - 1]].Allocated() {
        PosStaysBehind(L, j - 1, j - 1);
        assert L.d[L.used[j - 1]].Before(L.d[L.used[k]]);
      }
    }
  }

  /** The compacted end stays within the dataspace rounded up to a multiple of four. */
  lemma {:induction false} PosStaysInside(L: Layout, j: nat)
    requires Below(L.used, |L.d|) && L.Fits() && L.Ordered() && L.staticSize <= L.dsSize && j <= |L.used|
    ensures L.staticSize <= Pos(L, j) <= Align4(L.dsSize)
    ensures 0 < j && L.d[L.used[j - 1]].Allocated() ==> Pos(L, j) <= L.dsSize
  {
    hide Desc.Size, Align4;
    Align4Whole(L.dsSize);
    if j > 0 {
      Align4Whole(Pos(L, j - 1));
      Align4IsLeast(Pos(L, j - 1), Align4(L.dsSize));
      PosStaysInside(L, j - 1);
      assert L.d[L.used[j - 1]].Within(L.staticSize, L.dsSize);
      if L.d[L.used[j - 1]].Allocated() { PosStaysBehind(L, j - 1, j - 1); }
    }
  }

  lemma {:induction false} PosAscends(L: Layout, j: nat, k: nat)
    requires Below(L.used, |L.d|) && j <= k <= |L.used|
    ensures Pos(L, j) <= Pos(L, k)
    decreases k
  {
    if j < k { PosAscends(L, j, k - 1); }
  }

  lemma CompactedLast(L: Layout, n: nat)
    requires Below(L.used, |L.d|) && 0 < n <= |L.used|
    ensures var d, i := Compacted(L, n - 1), L.used[n - 1];
      Compacted(L, n) == if L.d[i].Allocated() then d[i := d[i].(offset := ToWord(Align4(Pos(L, n - 1))))] else d
  {
  }

  lemma {:induction false} CompactedAt(L: Layout, n: nat)
    requires Below(L.used, |L.d|) && NoDup(L.used) && n <= |L.used|
    ensures forall j :: 0 <= j < |L.used| ==>
      Compacted(L, n)[L.used[j]] ==
        if j < n && L.d[L.used[j]].Allocated() then L.d[L.used[j]].(offset := ToWord(Align4(Pos(L, j)))) else L.d[L.used[j]]
    ensures forall x :: 0 <= x < |L.d| && x !in L.used ==> Compacted(L, n)[x] == L.d[x]
  {
    hide Pos, Align4, ToWord, Desc.Size;
    if n > 0 {
      CompactedAt(L, n - 1);
      assert L.used[n - 1] in L.used;
      CompactedLast(L, n);
    }
  }

  /** Where compaction puts each array. */
  lemma CompactPlaces(L: Layout, k: nat)
    requires Below(L.used, |L.d|) && NoDup(L.used) && L.Fits() && L.Ordered() && k < |L.used| && L.d[L.used[k]].Allocated()
    ensures Align4(Pos(L, k)) <= L.d[L.used[k]].offset
    ensures Compact(L).d[L.used[k]] == L.d[L.used[k]].(offset := Align4(Pos(L, k)))
  {
    hide Desc.Size;
    CompactedAt(L, |L.used|);
    PosStaysBehind(L, k, k);
    ToWordOfWord(Align4(Pos(L, k)));
  }

  /** What position j looks like when the loop has reached position n. */
  lemma PartialAt(L: Layout, n: nat, j: nat)
    requires Below(L.used, |L.d|) && NoDup(L.used) && L.Fits() && L.Ordered() && n <= |L.used| && j < |L.used|
    ensures var v, w := L.d[L.used[j]], Compacted(L, n)[L.used[j]];
      && w.Allocated() == v.Allocated() && w.Size() == v.Size() && w.count == v.count
      && (w.Allocated() ==> w.offset == if j < n then Align4(Pos(L, j)) else v.offset)
      && (w.Allocated() ==> Align4(Pos(L, j)) <= v.offset)
  {
    hide Layout.Ordered, Layout.Fits, NoDup;
    CompactedAt(L, n);
    if L.d[L.used[j]].Allocated() {
      PosStaysBehind(L, j, j);
      ToWordOfWord(Align4(Pos(L, j)));
    }
  }

  lemma PartialBefore(L: Layout, n: nat, j: nat, k: nat)
    requires Below(L.used, |L.d|) && NoDup(L.used) && L.Fits() && L.Ordered() && n <= |L.used| && j < k < |L.used|
    ensures Compacted(L, n)[L.used[j]].Before(Compacted(L, n)[L.used[k]])
  {
    hide Desc.Size, NoDup, Layout.Fits, Compacted;
    PartialAt(L, n, j);
    PartialAt(L, n, k);
    if L.d[L.used[j]].Allocated() && L.d[L.used[k]].Allocated() {
      if k < n {
        PosAscends(L, j + 1, k);
      } else {
        assert L.d[L.used[j]].Before(L.d[L.used[k]]);
      }
    }
  }

  lemma PosNext(L: Layout, k: nat)
    requires Below(L.used, |L.d|) && k < |L.used|
    ensures var v := L.d[L.used[k]];
      Pos(L, k + 1) == Align4(Pos(L, k)) + if v.Allocated() then v.Size() else 0
  {
  }

  lemma PartialWithin(L: Layout, n: nat, k: nat)
    requires Below(L.used, |L.d|) && NoDup(L.used) && L.Fits() && L.Ordered() && n <= |L.used| && k < |L.used|
    ensures Compacted(L, n)[L.used[k]].Within(L.staticSize, L.dsSize)
    ensures n == |L.used| ==> Compacted(L, n)[L.used[k]].Within(L.staticSize, Pos(L, n))
  {
    hide Desc.Size, NoDup, Layout.Ordered, Compacted, Pos, Align4;
    assert L.d[L.used[k]].Within(L.staticSize, L.dsSize);
    PartialAt(L, n, k);
    PosNext(L, k);
    Align4Whole(Pos(L, k));
    if L.d[L.used[k]].Allocated() {
      PosStaysBehind(L, k, k);
      PosAscends(L, k + 1, |L.used|);
    }
  }

  /** Halfway through, storage is still apart. */
  lemma PartialKeepsRegions(L: Layout, n: nat)
    requires RegionsOk(L) && n <= |L.used|
    ensures RegionsOk(Partial(L, n))
    ensures |Compacted(L, n)| == |L.d| && Compacted(L, n)[0].Size() == L.d[0].Size()
  {
    hide Compacted, Pos, Desc.Size, Desc.Within, Desc.Before, Layout.Fits, Layout.Ordered, NoDup;
    PartialFitsAndOrdered(L, n);
    PartialAt(L, n, IndexOf(L.used, 0));
  }

  lemma PartialFitsAndOrdered(L: Layout, n: nat)
    requires Below(L.used, |L.d|) && NoDup(L.used) && L.Fits() && L.Ordered() && n <= |L.used|
    ensures Partial(L, n).Fits() && Partial(L, n).Ordered()
    ensures n == |L.used| ==> Compact(L).Fits() && Compact(L).Ordered()
  {
    hide Compacted, Pos, Desc.Size, Desc.Within, Desc.Before, NoDup;
    forall k | 0 <= k < |L.used|
      ensures Compacted(L, n)[L.used[k]].Within(L.staticSize, L.dsSize)
      ensures n == |L.used| ==> Compacted(L, n)[L.used[k]].Within(L.staticSize, Pos(L, n))
    {
      PartialWithin(L, n, k);
    }
    forall j, k | 0 <= j < k < |L.used| ensures Compacted(L, n)[L.used[j]].Before(Compacted(L, n)[L.used[k]]) {
      PartialBefore(L, n, j, k);
    }
  }

  lemma CompactKeepsLists(L: Layout)
    requires L.Inv()
    ensures Compact(L).ListsOk() && Compact(L).TableOk() && Compact(L).FreeOk()
  {
    hide Desc.Size, Layout.Fits, Layout.Ordered, Pos;
    CompactedAt(L, |L.used|);
    PartialAt(L, |L.used|, IndexOf(L.used, 0));
    forall k | 0 <= k < |L.free| ensures Compact(L).d[L.free[k]] == Blank {
      assert L.free[k] !in L.used;
    }
  }

  lemma CompactKeepsInv(L: Layout)
    requires L.Inv()
    ensures Compact(L).Inv()
  {
    hide Compacted, Pos, Desc.Size, Layout.Fits, Layout.Ordered, NoDup, Disjoint;
    CompactKeepsLists(L);
    PartialFitsAndOrdered(L, |L.used|);
    PosStaysInside(L, |L.used|);
  }

  lemma SameSize(L: Layout, k: nat)
    requires Below(L.used, |L.d|) && NoDup(L.used) && k < |L.used|
    ensures Compact(L).d[L.used[k]].Size() == L.d[L.used[k]].Size()
  {
    CompactedAt(L, |L.used|);
  }

  /** The bytes the first k listed arrays need, each rounded up to whole words. */
  function LiveSize(L: Layout, k: nat): nat
    requires Below(L.used, |L.d|) && k <= |L.used|
  {
    if k == 0 then Align4(L.staticSize)
    else LiveSize(L, k - 1) + if L.d[L.used[k - 1]].Allocated() then Align4(L.d[L.used[k - 1]].Size()) else 0
  }

  /** Compaction leaves exactly the live size, rounded up. */
  lemma {:induction false} CompactedIsLive(L: Layout, k: nat)
    requires Below(L.used, |L.d|) && k <= |L.used|
    ensures Align4(Pos(L, k)) == LiveSize(L, k)
  {
    hide Desc.Size, Align4;
    if k == 0 {
      Align4Whole(L.staticSize);
    } else {
      CompactedIsLive(L, k - 1);
      Align4Whole(Pos(L, k - 1));
      Align4Sum(Align4(Pos(L, k - 1)), if L.d[L.used[k - 1]].Allocated() then L.d[L.used[k - 1]].Size() else 0);
      Align4Whole(0);
    }
  }

  /** The last listed array has storage, or the arrays rounded up to whole words fit the dataspace as it is. */
  ghost predicate CompactSafe(L: Layout)
    requires Below(L.used, |L.d|) && L.used != []
  {
    L.d[L.used[|L.used| - 1]].Allocated() || LiveSize(L, |L.used|) <= L.dsSize
  }

  /** Compaction does not ask for a larger dataspace exactly when it is safe. */
  lemma CompactShrinksExactly(L: Layout)
    requires L.Inv()
    ensures Compact(L).dsSize <= L.dsSize <==> CompactSafe(L)
  {
    var n := |L.used|;
    PosStaysInside(L, n);
    CompactedIsLive(L, n);
    if !L.d[L.used[n - 1]].Allocated() {
      Align4Whole(Pos(L, n - 1));
      Align4Whole(Pos(L, n));
    }
  }

  /** An aligned end is always safe. */
  lemma AlignedIsSafe(L: Layout)
    requires L.Inv() && L.dsSize % 4 == 0
    ensures CompactSafe(L)
  {
    PosStaysInside(L, |L.used|);
    CompactShrinksExactly(L);
  }

  /** Storage starts less than four bytes after the end of the storage before it, or of the static data. */
  lemma GapsAreSmall(L: Layout, k: nat) returns (j: int)
    requires L.Inv() && k < |L.used| && L.d[L.used[k]].Allocated()
    ensures -1 <= j < k
    ensures j >= 0 ==> L.d[L.used[j]].Allocated()
    ensures var M := Compact(L);
      var end := if j < 0 then M.staticSize else M.d[M.used[j]].offset + M.d[M.used[j]].Size();
      end <= M.d[M.used[k]].offset < end + 4
  {
    j := PreviousStorage(L, k);
    CompactPlaces(L, k);
    if j >= 0 { CompactPlaces(L, j); SameSize(L, j); }
  }

  /** The compacted dataspace ends where the storage of the last listed array ends, if it has any; behind one without
      storage it ends at a multiple of four. */
  lemma EndIsLast(L: Layout)
    requires L.Inv()
    ensures var M := Compact(L);
      M.used != [] && M.used[|M.used| - 1] < |M.d| &&
      var v := M.d[M.used[|M.used| - 1]];
      if v.Allocated() then M.dsSize == v.offset + v.Size() else M.dsSize % 4 == 0
  {
    hide Desc.Size, Layout.Fits, Layout.Ordered, Layout.FreeOk, NoDup, Disjoint, Align4, ToWord, Compacted;
    var k := |L.used| - 1;
    PosNext(L, k);
    CompactedAt(L, |L.used|);
    if L.d[L.used[k]].Allocated() {
      CompactPlaces(L, k);
      SameSize(L, k);
    } else {
      Align4Whole(Pos(L, k));
    }
  }

  lemma {:induction false} PreviousStorage(L: Layout, k: nat) returns (j: int)
    requires Below(L.used, |L.d|) && k <= |L.used|
    ensures -1 <= j < k && (j >= 0 ==> L.d[L.used[j]].Allocated())
    ensures Align4(Pos(L, k)) == Align4(if j < 0 then L.staticSize else Align4(Pos(L, j)) + L.d[L.used[j]].Size())
  {
    hide Desc.Size, Align4;
    if k == 0 {
      j := -1;
    } else if L.d[L.used[k - 1]].Allocated() {
      j := k - 1;
    } else {
      j := PreviousStorage(L, k - 1);
      Align4Whole(Pos(L, k - 1));
      Align4Whole(Align4(Pos(L, k - 1)));
    }
  }

  /** Two layouts that list arrays of the same sizes in the same order. */
  ghost predicate SameArrays(L: Layout, M: Layout) {
    && L.used == M.used && |L.d| == |M.d| && L.staticSize == M.staticSize
    && Below(L.used, |L.d|)
    && forall k :: 0 <= k < |L.used| ==>
        L.d[L.used[k]].Allocated() == M.d[M.used[k]].Allocated() && L.d[L.used[k]].Size() == M.d[M.used[k]].Size()
  }

  lemma {:induction false} PosDependsOnSizes(L: Layout, M: Layout, k: nat)
    requires SameArrays(L, M) && k <= |L.used|
    ensures Pos(L, k) == Pos(M, k)
  {
    if k > 0 { PosDependsOnSizes(L, M, k - 1); }
  }

  /** No valid layout of the same arrays in the same order needs fewer whole words than the compacted one. */
  lemma CompactIsLeast(L: Layout, M: Layout)
    requires L.Inv() && M.Inv() && SameArrays(L, M)
    ensures Compact(L).dsSize <= Align4(M.dsSize)
  {
    PosDependsOnSizes(L, M, |L.used|);
    PosStaysInside(M, |M.used|);
  }

  /** Compacting a second time changes nothing. */
  lemma CompactIsIdempotent(L: Layout)
    requires L.Inv()
    ensures Compact(Compact(L)) == Compact(L)
  {
    var M := Compact(L);
    CompactKeepsInv(L);
    CompactedAt(L, |L.used|);
    forall k | 0 <= k < |L.used|
      ensures L.d[L.used[k]].Allocated() == M.d[M.used[k]].Allocated() && L.d[L.used[k]].Size() == M.d[M.used[k]].Size()
    {
      SameSize(L, k);
      if L.d[L.used[k]].Allocated() { CompactPlaces(L, k); }
    }
    var N := Compact(M);
    CompactedAt(M, |M.used|);
    PosDependsOnSizes(L, M, |L.used|);
    forall x | 0 <= x < |M.d| ensures N.d[x] == M.d[x] {
      if x in M.used {
        var k := IndexOf(M.used, x);
        PosDependsOnSizes(L, M, k);
        if L.d[L.used[k]].Allocated() { CompactPlaces(L, k); CompactPlaces(M, k); }
      }
    }
  }

  /** One turn of the loop, on the layout. */
  lemma CompactStep(L: Layout, k: nat)
    requires L.Inv() && k < |L.used|
    ensures Below(L.used, |L.d|) && L.used[k] < |L.d| && L.staticSize <= Compacted(L, k + 1)[0].offset
    ensures var i := L.used[k]; var P, Q := Partial(L, k), Partial(L, k + 1);
      var at := Align4(Pos(L, k));
      && RegionsOk(P) && RegionsOk(Q) && P.d[i].Allocated() == Q.d[i].Allocated() == L.d[i].Allocated()
      && P.d[i] == L.d[i] && Q.d[i].Size() == P.d[i].Size()
      && P.d[0].Size() == Q.d[0].Size() == VECTOR_SIZE * |L.d|
      && (if P.d[i].Allocated() then
            L.staticSize <= at <= P.d[i].offset && L.base + P.d[i].offset + P.d[i].Size() <= POOL_MAX_SIZE &&
            Q.d == P.d[i := P.d[i].(offset := at)] && Pos(L, k + 1) == at + P.d[i].Size()
          else Q.d == P.d && Pos(L, k + 1) == at)
      && (P.d[i].Allocated() && i != 0 ==>
            && (P.d[0].offset + P.d[0].Size() <= at || at + P.d[i].Size() <= P.d[0].offset)
            && (P.d[0].offset + P.d[0].Size() <= P.d[i].offset || P.d[i].offset + P.d[i].Size() <= P.d[0].offset))
  {
    hide Desc.Size, Layout.Fits, Layout.Ordered, Layout.FreeOk, NoDup, Disjoint;
    var i := L.used[k];
    var P, Q := Partial(L, k), Partial(L, k + 1);
    PartialKeepsRegions(L, k);
    PartialKeepsRegions(L, k + 1);
    PartialAt(L, k, k);
    PartialAt(L, k + 1, k);
    CompactedAt(L, k);
    assert L.d[0].Size() == VECTOR_SIZE * |L.d| by { TableSize(L); }
    InsideDataspace(Q, 0);
    if L.d[i].Allocated() {
      PosStaysBehind(L, k, k);
      ToWordOfWord(Align4(Pos(L, k)));
      InsideDataspace(P, i);
      if i != 0 {
        Apart(P, 0, i);
        Apart(Q, 0, i);
      }
    }
  }

  lemma TableSize(L: Layout)
    requires L.TableOk()
    ensures L.d[0].Size() == VECTOR_SIZE * |L.d|
  {
  }

  /** Two listed arrays lie apart. */
  lemma Apart(L: Layout, x: nat, y: nat)
    requires Below(L.used, |L.d|) && L.Ordered() && x in L.used && y in L.used && x != y
    requires L.d[x].Allocated() && L.d[y].Allocated()
    ensures L.d[x].offset + L.d[x].Size() <= L.d[y].offset || L.d[y].offset + L.d[y].Size() <= L.d[x].offset
  {
    hide Desc.Size;
    var p, q := IndexOf(L.used, x), IndexOf(L.used, y);
    if p < q { assert L.d[L.used[p]].Before(L.d[L.used[q]]); } else { assert L.d[L.used[q]].Before(L.d[L.used[p]]); }
  }

  lemma InsideDataspace(L: Layout, x: nat)
    requires RegionsOk(L) && x in L.used && L.d[x].Allocated()
    ensures L.staticSize <= L.d[x].offset && L.d[x].offset + L.d[x].Size() <= L.dsSize
  {
    hide Desc.Size;
    var k := IndexOf(L.used, x);
    assert L.d[L.used[k]].Within(L.staticSize, L.dsSize);
  }

  /** A layout is compact when the loop finds every array where it would put it. */
  lemma CompactAlready(L: Layout, k: nat)
    requires L.Inv() && Compact(L) == L && k < |L.used| && L.d[L.used[k]].Allocated()
    ensures L.d[L.used[k]].offset == Align4(Pos(L, k))
  {
    CompactPlaces(L, k);
  }

  lemma CompactBounds(L: Layout)
    requires L.Inv()
    ensures L.staticSize <= Compact(L).dsSize <= Align4(L.dsSize) && Compact(L).dsSize < 0x1_0000
      && Compact(L).dsSize < L.dsSize + 4
    ensures Compact(L).dsSize == Pos(L, |L.used|) && Compact(L).d == Compacted(L, |L.used|)
  {
    PosStaysInside(L, |L.used|);
  }

  /** DataspaceSize is a word and recovers from an unsigned difference below zero; PoolSize does not. */
  lemma ShrinkArithmetic(base: nat, dsSize: nat, end: nat)
    requires base + dsSize <= POOL_MAX_SIZE && end < dsSize + 4
    ensures ToWord(dsSize - ToWord(dsSize - end)) == end
    ensures (base + dsSize - ToWord(dsSize - end)) % 0x1_0000_0000 == base + end <==> end <= dsSize
    ensures 0 <= (base + dsSize - ToWord(dsSize - end)) % 0x1_0000_0000
  {
    if end <= dsSize {
      ToWordOfWord(dsSize - end);
    } else {
      assert ToWord(dsSize - end) == 0x1_0000 - (end - dsSize);
    }
  }

  lemma {:induction false} ElemSizeStays(L: Layout, n: nat, x: nat)
    requires Below(L.used, |L.d|) && n <= |L.used| && x < |L.d|
    ensures Compacted(L, n)[x].elemSize == L.d[x].elemSize
  {
    if n > 0 { ElemSizeStays(L, n - 1, x); }
  }
}

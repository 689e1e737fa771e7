/** The bytes that arrays keep while layouts change, and what the memory manager's checks and moves do to them. */
module Storage {
  import opened Words
  import opened Seqs
  import opened Layouts
  import opened LayoutInvariants
  import opened CompactionProofs
  import opened Vectors

  // ---- the bytes of an array ----

  /** What memory m holds for an array, the dataspace beginning at base. */
  function Content(m: seq<byte>, base: nat, v: Layouts.Desc): seq<byte> {
    if v.Allocated() && base + v.offset + v.Size() <= |m| then m[base + v.offset..base + v.offset + v.Size()] else []
  }

  /** Below end the two memories agree, except perhaps from lo to hi. */
  ghost predicate SameOutside(m: seq<byte>, m': seq<byte>, lo: int, hi: int, end: int) {
    end <= |m| == |m'| && forall a :: 0 <= a < end && !(lo <= a < hi) ==> m'[a] == m[a]
  }

  lemma SameOutsideMore(m: seq<byte>, m': seq<byte>, lo: int, hi: int, hi': int, end: int)
    requires SameOutside(m, m', lo, hi, end) && hi <= hi'
    ensures SameOutside(m, m', lo, hi', end)
  {
  }

  lemma SameOutsideLess(m: seq<byte>, m': seq<byte>, lo: int, hi: int, end: int, end': int)
    requires SameOutside(m, m', lo, hi, end) && end' <= end
    ensures SameOutside(m, m', lo, hi, end')
  {
  }

  /** An array other than the table survives any change to the table and beyond the dataspace. */
  lemma ContentSurvives(L: Layout, x: nat, m: seq<byte>, m': seq<byte>)
    requires Below(L.used, |L.d|) && NoDup(L.used) && L.Fits() && L.Ordered() && 0 in L.used
    requires x in L.used && x != 0
    requires |m| == |m'| && L.base + L.dsSize <= |m| && L.d[0].Allocated()
    requires forall a ::
      L.base <= a < L.base + L.dsSize && !(L.d[0].offset <= a - L.base < L.d[0].offset + L.d[0].Size()) ==> m'[a] == m[a]
    ensures Content(m', L.base, L.d[x]) == Content(m, L.base, L.d[x])
  {
    hide Desc.Size;
    var v := L.d[x];
    var p, q := IndexOf(L.used, 0), IndexOf(L.used, x);
    assert L.d[L.used[q]].Within(L.staticSize, L.dsSize);
    assert if p < q then L.d[L.used[p]].Before(L.d[L.used[q]]) else L.d[L.used[q]].Before(L.d[L.used[p]]);
    if v.Allocated() {
      assert m'[L.base + v.offset..L.base + v.offset + v.Size()] == m[L.base + v.offset..L.base + v.offset + v.Size()];
    }
  }

  /** Array x, in use before and after, is stored where it was and reads the same. */
  ghost predicate Kept(L: Layout, m: seq<byte>, M: Layout, m': seq<byte>, x: nat) {
    x in L.used && x < |L.d| && x < |M.d| && M.d[x] == L.d[x] && Content(m', M.base, M.d[x]) == Content(m, L.base, L.d[x])
  }

  ghost predicate AllKept(L: Layout, m: seq<byte>, M: Layout, m': seq<byte>) {
    forall x :: x in L.used && x in M.used && x != 0 && x < |L.d| && x < |M.d| && M.d[x] == L.d[x] ==> Kept(L, m, M, m', x)
  }

  /** Writing only to the table, and past the dataspace, keeps every other array that is not redescribed. */
  lemma AllOthersKept(L: Layout, m: seq<byte>, M: Layout, m': seq<byte>)
    requires L.Inv() && |m| == |m'| == POOL_MAX_SIZE && L.base == M.base
    requires SameOutside(m, m', L.base + L.d[0].offset, L.base + L.d[0].offset + VECTOR_SIZE * |L.d|, L.base + L.dsSize)
    ensures AllKept(L, m, M, m')
  {
    assert L.d[0].Size() == VECTOR_SIZE * |L.d|;
    hide Layout.TableOk;
    forall x | x in L.used && x in M.used && x != 0 && x < |L.d| && x < |M.d| && M.d[x] == L.d[x] ensures Kept(L, m, M, m', x) {
      ContentSurvives(L, x, m, m');
    }
  }

  /** Writing only past the dataspace keeps every array but the table. */
  lemma AllKeptBelow(L: Layout, m: seq<byte>, M: Layout, m': seq<byte>, lo: int, hi: int)
    requires L.Inv() && |m| == |m'| == POOL_MAX_SIZE && L.base == M.base
    requires SameOutside(m, m', lo, hi, |m|) && L.base + L.dsSize <= lo
    ensures AllKept(L, m, M, m')
  {
    hide Layout.ListsOk, Layout.TableOk, Layout.Fits, Layout.Ordered, Layout.FreeOk, AllKept;
    AllOthersKept(L, m, M, m');
  }

  /** The memory after copying n bytes from src to dst, overlapping or not. */
  function Moved(m: seq<byte>, dst: nat, src: nat, n: nat): (r: seq<byte>)
    requires dst + n <= |m| && src + n <= |m|
    ensures |r| == |m|
  {
    m[..dst] + m[src..src + n] + m[dst + n..]
  }

  lemma MovedIsSameElsewhere(m: seq<byte>, dst: nat, src: nat, n: nat)
    requires dst + n <= |m| && src + n <= |m|
    ensures SameOutside(m, Moved(m, dst, src, n), dst, dst + n, |m|)
    ensures Moved(m, dst, src, n)[dst..dst + n] == m[src..src + n]
  {
  }

  /** A copy of the table describes the same vectors. */
  lemma MovedTable(m: seq<byte>, dst: nat, src: nat, n: nat)
    requires dst + VECTOR_SIZE * n <= |m| && src + VECTOR_SIZE * n <= |m|
    ensures Table(Moved(m, dst, src, VECTOR_SIZE * n), dst, n) == Table(m, src, n)
  {
    MovedIsSameElsewhere(m, dst, src, VECTOR_SIZE * n);
    TableOfBytes(Moved(m, dst, src, VECTOR_SIZE * n), dst, m, src, n);
  }

  lemma TableGrows(m: seq<byte>, a: nat, n: nat, k: nat)
    requires a + VECTOR_SIZE * k <= |m| && n <= k
    ensures Table(m, a, k)[..n] == Table(m, a, n)
  {
  }

  lemma DescsOfLonger(t: seq<Vector>, t': seq<Vector>)
    requires t <= t'
    ensures Descs(t')[..|t|] == Descs(t)
  {
    assert forall i :: 0 <= i < |t| ==> t'[i] == t[i];
  }

  /** More entries behind the table leave the lists as they were. */
  lemma LongerTable(t: seq<Vector>, t': seq<Vector>, used: seq<nat>, free: seq<nat>, head: int, tail: int,
                    freeHead: int)
    requires TwoLists(t, used, free, head, tail, freeHead) && t <= t'
    ensures TwoLists(t', used, free, head, tail, freeHead)
  {
    LinkedElsewhere(t, t', used, head);
    LinkedElsewhere(t, t', free, freeHead);
  }

  lemma SetKeepsLists(t: seq<Vector>, used: seq<nat>, free: seq<nat>, head: int, tail: int, freeHead: int, i: nat,
                      f: Field, v: word)
    requires TwoLists(t, used, free, head, tail, freeHead) && i < |t| && !f.BackLinkField? && !f.LinkField?
    ensures TwoLists(t[i := t[i].With(f, v)], used, free, head, tail, freeHead)
    ensures Descs(t[i := t[i].With(f, v)]) == Descs(t)[i := t[i].With(f, v).Desc()]
  {
    var t' := t[i := t[i].With(f, v)];
    LinkedElsewhere(t, t', used, head);
    LinkedElsewhere(t, t', free, freeHead);
  }

  /** A fresh entry i, pushed on the free list the way the growth loop does it. */
  function AddFree(t: seq<Vector>, i: word, freeHead: word): (r: seq<Vector>)
    requires i < |t|
    ensures |r| == |t|
  {
    var t1 := t[i := t[i].(offset := NIL, elemSize := 0, count := 0, backLink := NIL)];
    var t2 := if freeHead != NIL then SetBackLink(t1, freeHead, i) else t1;
    SetLink(t2, i, freeHead)
  }

  lemma AddFreeBySteps(t: seq<Vector>, i: word, freeHead: word)
    requires i < |t| && (freeHead < |t| || freeHead == NIL)
    ensures var t1 := t[i := t[i].With(OffsetField, NIL)];
      var t2 := t1[i := t1[i].With(ElemSizeField, 0)];
      var t3 := t2[i := t2[i].With(CountField, 0)];
      var t4 := t3[i := t3[i].With(BackLinkField, NIL)];
      var t5 := if freeHead != NIL then t4[freeHead := t4[freeHead].With(BackLinkField, i)] else t4;
      t5[i := t5[i].With(LinkField, freeHead)] == AddFree(t, i, freeHead)
  {
  }

  lemma AddedFree(t: seq<Vector>, used: seq<nat>, free: seq<nat>, head: int, tail: int, freeHead: word, i: word)
    requires TwoLists(t, used, free, head, tail, freeHead) && i < |t| < NIL && i !in used && i !in free
    ensures freeHead < |t| || freeHead == NIL
    ensures TwoLists(AddFree(t, i, freeHead), used, [i] + free, head, tail, i)
    ensures Descs(AddFree(t, i, freeHead)) == Descs(t)[i := Blank]
  {
    HeadInRange(t, free, freeHead);
    PushedFree(t, AddFree(t, i, freeHead), used, free, head, freeHead, i);
  }

  lemma DescOfVector(t: seq<Vector>, i: nat)
    requires i < |t|
    ensures Descs(t)[i] == t[i].Desc()
  {
  }

  /** Copying to the space behind the table leaves the table alone. */
  lemma MovedBehindTable(m: seq<byte>, dst: nat, src: nat, n: nat, a: nat, count: nat)
    requires dst + n <= |m| && src + n <= |m| && a + VECTOR_SIZE * count <= dst
    ensures Table(Moved(m, dst, src, n), a, count) == Table(m, a, count)
  {
    assert Moved(m, dst, src, n)[a..a + VECTOR_SIZE * count] == m[a..a + VECTOR_SIZE * count];
    TableOfBytes(Moved(m, dst, src, n), a, m, a, count);
  }

  /** The successor the code finds through Link is the next one on the used list. */
  lemma RoomByLinks(L: Layout, t: seq<Vector>, i: nat, head: int)
    requires Linked(t, L.used, head) && L.d == Descs(t) && i in L.used && |t| < NIL
    ensures i < |t| && (t[i].link == NIL || t[i].link < |t|)
    ensures Room(L, i) == ToWord((if t[i].link != NIL then t[t[i].link].offset else L.dsSize) - t[i].offset)
  {
    hide ToWord;
    var k := IndexOf(L.used, i);
    assert t[L.used[k]].link == Next(L.used, k);
    DescOfVector(t, i);
    if k + 1 < |L.used| { DescOfVector(t, L.used[k + 1]); }
  }

  /** Array i holds what it held before, as far as both sizes reach. */
  ghost predicate PrefixKept(L: Layout, m: seq<byte>, M: Layout, m': seq<byte>, i: nat) {
    && i < |L.d| && i < |M.d|
    && var a, b := Content(m, L.base, L.d[i]), Content(m', M.base, M.d[i]);
       && |a| == L.d[i].Size() && |b| == M.d[i].Size()
       && if |a| <= |b| then a == b[..|a|] else a[..|b|] == b
  }

  lemma ContentLength(L: Layout, m: seq<byte>, i: nat)
    requires L.Inv() && |m| == POOL_MAX_SIZE && i in L.used
    ensures i < |L.d| && |Content(m, L.base, L.d[i])| == L.d[i].Size()
    ensures L.d[i].Allocated() ==> L.base + L.d[i].offset + L.d[i].Size() <= |m|
  {
    var k := IndexOf(L.used, i);
    assert L.d[L.used[k]].Within(L.staticSize, L.dsSize);
  }

  lemma RecountKeepsPrefix(L: Layout, m: seq<byte>, i: nat, n: word, m': seq<byte>)
    requires L.Inv() && i in L.used && i != 0 && Recount(L, i, n).Inv() && |m| == |m'| == POOL_MAX_SIZE
    requires SameOutside(m, m', L.base + L.d[0].offset, L.base + L.d[0].offset + VECTOR_SIZE * |L.d|, L.base + L.dsSize)
    ensures PrefixKept(L, m, Recount(L, i, n), m', i)
  {
    hide Layout.Inv, Desc.Size, SameOutside;
    OneKept(L, i, m, m');
    var M := Recount(L, i, n);
    ContentLength(L, m, i);
    ContentLength(M, m', i);
  }

  lemma OneKept(L: Layout, i: nat, m: seq<byte>, m': seq<byte>)
    requires L.Inv() && i in L.used && i != 0 && |m| == |m'| == POOL_MAX_SIZE
    requires SameOutside(m, m', L.base + L.d[0].offset, L.base + L.d[0].offset + VECTOR_SIZE * |L.d|, L.base + L.dsSize)
    ensures i < |L.d| && Content(m', L.base, L.d[i]) == Content(m, L.base, L.d[i])
  {
    hide Desc.Within;
    assert L.d[0].Size() == VECTOR_SIZE * |L.d|;
    ContentSurvives(L, i, m, m');
  }

  /** Moving array i to fresh storage carries its bytes along. */
  lemma MoveKeepsPrefix(L: Layout, m: seq<byte>, M: Layout, m': seq<byte>, i: nat, src: nat, lo: int, hi: int)
    requires L.Inv() && i in L.used && M.Inv() && i in M.used && |m| == |m'| == POOL_MAX_SIZE && L.base == M.base
    requires M.d[i].Allocated() && L.dsSize <= M.d[i].offset && L.d[i].Size() <= M.d[i].Size()
    requires L.d[i].Size() != 0 ==> L.d[i].Allocated() && src == L.base + L.d[i].offset
    requires src + L.d[i].Size() <= |m|
    requires hi <= L.base + M.d[i].offset
    requires L.base + M.d[i].offset + L.d[i].Size() <= |m|
    requires SameOutside(Moved(m, L.base + M.d[i].offset, src, L.d[i].Size()), m', lo, hi, |m|)
    ensures PrefixKept(L, m, M, m', i)
  {
    hide Layout.Inv, Desc.Size;
    ContentLength(L, m, i);
    ContentLength(M, m', i);
    var dst, size := L.base + M.d[i].offset, L.d[i].Size();
    var m1 := Moved(m, dst, src, size);
    MovedIsSameElsewhere(m, dst, src, size);
    assert m'[dst..dst + size] == m1[dst..dst + size] == m[src..src + size];
    assert Content(m', M.base, M.d[i])[..size] == m'[dst..dst + size];
  }

  /** After a copy to the end and some stores into the table, every array is kept. */
  lemma RelocationKeeps(L: Layout, m: seq<byte>, i: nat, n: word, src: nat, m': seq<byte>)
    requires L.Inv() && i in L.used && i != 0 && i < |L.d| && |m| == |m'| == POOL_MAX_SIZE
    requires n >= L.d[i].count && AtEnd(L, i, n).0.NoErr?
    requires src == if L.d[i].count != 0 then L.base + L.d[i].offset else 0
    requires src + L.d[i].elemSize * L.d[i].count <= |m|
    requires L.base + Align4(L.dsSize) + L.d[i].elemSize * L.d[i].count <= |m| && L.dsSize <= Align4(L.dsSize)
    requires SameOutside(Moved(m, L.base + Align4(L.dsSize), src, L.d[i].elemSize * L.d[i].count), m',
               L.base + L.d[0].offset, L.base + L.d[0].offset + VECTOR_SIZE * |L.d|, |m|)
    ensures AllKept(L, m, AtEnd(L, i, n).1, m')
    ensures n * L.d[i].elemSize < 0x1_0000 ==> PrefixKept(L, m, AtEnd(L, i, n).1, m', i)
  {
    hide Layout.Fits, Layout.Ordered, Layout.ListsOk, Layout.FreeOk, AllKept, PrefixKept, ToWord, Align4, Moved;
    var M := AtEnd(L, i, n).1;
    var dst, size: nat := L.base + Align4(L.dsSize), L.d[i].elemSize * L.d[i].count;
    MovedIsSameElsewhere(m, dst, src, size);
    AtEndFacts(L, i, n);
    AtEndExactly(L, i, n);
    AllOthersKept(L, m, M, m');
    if n * L.d[i].elemSize < 0x1_0000 {
      assert M.used[|M.used| - 1] == i;
      assert L.d[i].Size() == size;
      assert M.d[i].Size() == n * L.d[i].elemSize;
      MoveKeepsPrefix(L, m, M, m', i, src, L.base + L.d[0].offset, L.base + L.d[0].offset + VECTOR_SIZE * |L.d|);
    }
  }

  // ---- cCmdVerifyMemMgr ----

  /** From head, Link visits s in order and ends. Nothing is said of BackLink. */
  ghost predicate Forward(t: seq<Vector>, s: seq<nat>, head: int) {
    && Below(s, |t|)
    && head == (if s == [] then NIL else s[0])
    && forall k {:trigger t[s[k]]} :: 0 <= k < |s| ==> t[s[k]].link == Next(s, k)
  }

  /** Among the first k listed arrays, storage ascends. */
  ghost predicate SortedUpTo(t: seq<Vector>, s: seq<nat>, k: nat)
    requires Below(s, |t|) && k <= |s|
  {
    forall i, j :: 0 <= i < j < k && t[s[i]].offset != NIL && t[s[j]].offset != NIL ==> t[s[i]].offset <= t[s[j]].offset
  }

  ghost predicate BoundUpTo(t: seq<Vector>, s: seq<nat>, k: nat, bound: int)
    requires Below(s, |t|) && k <= |s|
  {
    forall j :: 0 <= j < k && t[s[j]].offset != NIL ==> t[s[j]].offset <= bound
  }

  lemma SortedStep(t: seq<Vector>, s: seq<nat>, k: nat, bound: int)
    requires Below(s, |t|) && k < |s| && SortedUpTo(t, s, k) && BoundUpTo(t, s, k, bound)
    requires t[s[k]].offset == NIL || bound <= t[s[k]].offset
    ensures SortedUpTo(t, s, k + 1)
    ensures BoundUpTo(t, s, k + 1, if t[s[k]].offset == NIL then bound else t[s[k]].offset)
  {
  }

  lemma NothingChecked(t: seq<Vector>, s: seq<nat>)
    requires Below(s, |t|)
    ensures SortedUpTo(t, s, 0) && BoundUpTo(t, s, 0, 0)
  {
  }

  lemma NotSorted(t: seq<Vector>, s: seq<nat>, j: nat, k: nat)
    requires Below(s, |t|) && j < k < |s| && t[s[j]].offset != NIL && t[s[k]].offset < t[s[j]].offset
    ensures !SortedUpTo(t, s, |s|)
  {
  }

  /** What the check demands of position k: the tail is last, and BackLink leads to the predecessor. At the
      head it only demands that a BackLink, if there is one, belongs to a vector linked to the head. */
  ghost predicate NodeOk(t: seq<Vector>, s: seq<nat>, k: nat, tail: int)
    requires Below(s, |t|) && k < |s|
  {
    && (k + 1 == |s| ==> s[k] == tail)
    && if k > 0 then t[s[k]].backLink == s[k - 1]
       else t[s[k]].backLink == NIL || (t[s[k]].backLink < |t| && t[t[s[k]].backLink].link == s[k])
  }

  ghost predicate Consistent(t: seq<Vector>, used: seq<nat>, free: seq<nat>, tail: int)
    requires Below(used, |t|)
  {
    && SortedUpTo(t, used, |used|)
    && NodesOkUpTo(t, used, |used|, tail)
    && t != [] && |used| + |free| == t[0].count
  }

  /** The four tests of the loop body, at position k. */
  ghost predicate TestsFail(t: seq<Vector>, s: seq<nat>, k: nat, head: int, tail: int)
    requires Below(s, |t|) && k < |s|
  {
    var i, prev, post := s[k], t[s[k]].backLink, t[s[k]].link;
    || (post == NIL && i != tail)
    || (prev == NIL && i != head)
    || (prev != NIL && prev < |t| && t[prev].link != i)
    || (post != NIL && post < |t| && t[post].backLink != i)
  }

  lemma TestsDecideNode(t: seq<Vector>, s: seq<nat>, k: nat, head: int, tail: int)
    requires Forward(t, s, head) && k < |s| && |t| < NIL
    requires k > 0 ==> t[s[k]].backLink == s[k - 1]
    requires t[s[k]].backLink == NIL || t[s[k]].backLink < |t|
    ensures t[s[k]].link == Next(s, k) && (t[s[k]].link == NIL || t[s[k]].link < |t|)
    ensures TestsFail(t, s, k, head, tail) ==> !NodeOk(t, s, k, tail) || (k + 1 < |s| && !NodeOk(t, s, k + 1, tail))
    ensures !TestsFail(t, s, k, head, tail) ==> NodeOk(t, s, k, tail) && (k + 1 < |s| ==> t[s[k + 1]].backLink == s[k])
  {
    assert t[s[k]].link == Next(s, k);
    if k > 0 { assert t[s[k - 1]].link == Next(s, k - 1); }
  }

  ghost predicate NodesOkUpTo(t: seq<Vector>, s: seq<nat>, k: nat, tail: int)
    requires Below(s, |t|) && k <= |s|
  {
    forall j :: 0 <= j < k ==> NodeOk(t, s, j, tail)
  }

  lemma NextInList(t: seq<Vector>, s: seq<nat>, head: int, k: nat)
    requires Forward(t, s, head) && k < |s|
    ensures t[s[k]].link == if k + 1 < |s| then s[k + 1] else NIL
  {
  }

  lemma LinkedIsForward(t: seq<Vector>, s: seq<nat>, head: int)
    requires Linked(t, s, head)
    ensures Forward(t, s, head)
    ensures forall k {:trigger t[s[k]]} :: 0 <= k < |s| ==> t[s[k]].backLink == NIL || t[s[k]].backLink < |t|
  {
    forall k {:trigger t[s[k]]} | 0 <= k < |s| ensures t[s[k]].backLink == NIL || t[s[k]].backLink < |t| {
      if k > 0 { assert s[k - 1] < |t|; }
    }
  }

  lemma OrderedIsSorted(L: Layout, t: seq<Vector>)
    requires Below(L.used, |L.d|) && L.Ordered() && L.d == Descs(t)
    ensures SortedUpTo(t, L.used, |L.used|)
  {
    hide Desc.Size;
    var s := L.used;
    forall j, k | 0 <= j < k < |s| && t[s[j]].offset != NIL && t[s[k]].offset != NIL ensures t[s[j]].offset <= t[s[k]].offset {
      assert L.d[s[j]].Before(L.d[s[k]]);
    }
  }

  lemma InvIsConsistent(L: Layout, t: seq<Vector>, head: int, tail: int, freeHead: int)
    requires L.Inv() && L.d == Descs(t) && TwoLists(t, L.used, L.free, head, tail, freeHead)
    ensures Consistent(t, L.used, L.free, tail)
  {
    hide Layout.FreeOk, Layout.Ordered, Layout.Fits, SortedUpTo;
    OrderedIsSorted(L, t);
    forall k | 0 <= k < |L.used| ensures NodeOk(t, L.used, k, tail) {
      assert t[L.used[k]].backLink == Prev(L.used, k);
    }
  }

  // ---- cCmdDSCompact ----

  function Filled(m: seq<byte>, a: nat, n: nat): (r: seq<byte>)
    requires a + n <= |m|
    ensures |r| == |m|
  {
    m[..a] + seq(n, _ => 0xFF) + m[a + n..]
  }

  /** Memory once n bytes have slid down from src to dst and what they left behind is filled with 0xFF. */
  function Slid(m: seq<byte>, dst: nat, src: nat, n: nat): (r: seq<byte>)
    requires dst < src && src + n <= |m|
    ensures |r| == |m|
  {
    var m1 := Moved(m, dst, src, n);
    if dst + n > src then Filled(m1, dst + n, n - (dst + n - src)) else Filled(m1, src, n)
  }

  /** The copy arrives, and nothing outside the two ranges changes. */
  lemma SlidIs(m: seq<byte>, dst: nat, src: nat, n: nat)
    requires dst < src && src + n <= |m|
    ensures Slid(m, dst, src, n)[dst..dst + n] == m[src..src + n]
    ensures forall a :: 0 <= a < |m| && !(dst <= a < dst + n) && !(src <= a < src + n) ==> Slid(m, dst, src, n)[a] == m[a]
  {
    hide Moved, Filled;
    MovedIsSameElsewhere(m, dst, src, n);
    var m1 := Moved(m, dst, src, n);
    if dst + n > src {
      FilledIsSameElsewhere(m1, dst + n, src - dst);
    } else {
      FilledIsSameElsewhere(m1, src, n);
    }
  }

  lemma FilledIsSameElsewhere(m: seq<byte>, a: nat, n: nat)
    requires a + n <= |m|
    ensures Filled(m, a, n)[..a] == m[..a]
    ensures SameOutside(m, Filled(m, a, n), a, a + n, |m|)
  {
  }

  /** Outside the bounds whole stretches agree. */
  lemma SameStretch(m: seq<byte>, m': seq<byte>, lo: int, hi: int, a: nat, n: nat)
    requires SameOutside(m, m', lo, hi, |m|) && a + n <= |m| && (a + n <= lo || hi <= a)
    ensures m'[a..a + n] == m[a..a + n]
  {
  }

  lemma SlidElsewhere(m: seq<byte>, dst: nat, src: nat, n: nat, a: nat, k: nat)
    requires dst < src && src + n <= |m| && a + k <= |m|
    requires a + k <= dst || dst + n <= a
    requires a + k <= src || src + n <= a
    ensures Slid(m, dst, src, n)[a..a + k] == m[a..a + k]
  {
    hide Slid;
    SlidIs(m, dst, src, n);
  }

  /** The table survives a slide of another array, and arrives whole when it is itself slid. */
  lemma SlidTable(m: seq<byte>, dst: nat, src: nat, n: nat, a: nat, a': nat, count: nat)
    requires dst < src && src + n <= |m| && a + VECTOR_SIZE * count <= |m|
    requires
      || (a == src && a' == dst && n == VECTOR_SIZE * count)
      || (a == a' && (a + VECTOR_SIZE * count <= dst || dst + n <= a) && (a + VECTOR_SIZE * count <= src || src + n <= a))
    ensures a' + VECTOR_SIZE * count <= |m|
    ensures Table(Slid(m, dst, src, n), a', count) == Table(m, a, count)
  {
    hide Slid, Table;
    SlidIs(m, dst, src, n);
    if a != src { SlidElsewhere(m, dst, src, n, a, VECTOR_SIZE * count); }
    if a == src && a' != dst { SlidElsewhere(m, dst, src, n, a, VECTOR_SIZE * count); }
    TableOfBytes(Slid(m, dst, src, n), a', m, a, count);
  }

  /** Sliding array i from its place in P to its place in Q leaves every array but the table with its bytes. */
  lemma SlideKeepsContent(P: Layout, Q: Layout, i: nat, m: seq<byte>, m': seq<byte>, x: nat)
    requires RegionsOk(P) && RegionsOk(Q) && |m| == |m'| == POOL_MAX_SIZE
    requires i in P.used && |Q.d| == |P.d| && P.d[i].Allocated() && Q.d[i].Allocated()
      && Q.d[i].offset < P.d[i].offset && Q.d[i].Size() == P.d[i].Size()
    requires Q.base == P.base && Q.used == P.used && Q.d == P.d[i := Q.d[i]] && Q.dsSize == P.dsSize
    requires P.base + P.d[i].offset + P.d[i].Size() <= |m|
    requires SameOutside(Slid(m, P.base + Q.d[i].offset, P.base + P.d[i].offset, P.d[i].Size()), m',
               Q.base + Q.d[0].offset, Q.base + Q.d[0].offset + Q.d[0].Size(), |m|)
    requires x in P.used && x != 0
    ensures Content(m', Q.base, Q.d[x]) == Content(m, P.base, P.d[x])
  {
    hide Desc.Size, Layout.Fits, Layout.Ordered, NoDup, Slid, SameOutside;
    if P.d[x].Allocated() {
      InsideDataspace(P, x);
      InsideDataspace(Q, x);
      Apart(Q, x, 0);
      var n, a := P.d[x].Size(), Q.base + Q.d[x].offset;
      var r := Slid(m, P.base + Q.d[i].offset, P.base + P.d[i].offset, P.d[i].Size());
      SameStretch(r, m', Q.base + Q.d[0].offset, Q.base + Q.d[0].offset + Q.d[0].Size(), a, n);
      if x == i {
        SlidIs(m, P.base + Q.d[i].offset, P.base + P.d[i].offset, P.d[i].Size());
      } else {
        Apart(P, x, i);
        Apart(Q, x, i);
        SlidElsewhere(m, P.base + Q.d[i].offset, P.base + P.d[i].offset, P.d[i].Size(), a, n);
      }
    }
  }

  /** Every array but the table reads in m', described by d, as it read in m. */
  ghost predicate ContentsKept(L: Layout, m: seq<byte>, d: seq<Layouts.Desc>, m': seq<byte>) {
    |d| == |L.d| && forall x :: x in L.used && 0 < x < |L.d| ==> Content(m', L.base, d[x]) == Content(m, L.base, L.d[x])
  }

  lemma SlideKeepsContents(L: Layout, m0: seq<byte>, P: Layout, Q: Layout, i: nat, m: seq<byte>, m': seq<byte>)
    requires RegionsOk(P) && RegionsOk(Q) && |m| == |m'| == POOL_MAX_SIZE
    requires i in P.used && |Q.d| == |P.d| && P.d[i].Allocated() && Q.d[i].Allocated()
      && Q.d[i].offset < P.d[i].offset && Q.d[i].Size() == P.d[i].Size()
    requires Q.base == P.base == L.base && Q.used == P.used == L.used && Q.d == P.d[i := Q.d[i]] && Q.dsSize == P.dsSize
    requires P.base + P.d[i].offset + P.d[i].Size() <= |m|
    requires SameOutside(Slid(m, P.base + Q.d[i].offset, P.base + P.d[i].offset, P.d[i].Size()), m',
               Q.base + Q.d[0].offset, Q.base + Q.d[0].offset + Q.d[0].Size(), |m|)
    requires ContentsKept(L, m0, P.d, m)
    ensures ContentsKept(L, m0, Q.d, m')
  {
    hide RegionsOk, Desc.Size, Content, Slid, SameOutside;
    forall x | x in L.used && 0 < x < |L.d| ensures Content(m', L.base, Q.d[x]) == Content(m0, L.base, L.d[x]) {
      SlideKeepsContent(P, Q, i, m, m', x);
    }
  }

  lemma SlideKeepsStatic(m0: seq<byte>, m: seq<byte>, dst: nat, src: nat, n: nat, m': seq<byte>, lo: int, hi: int,
                         a: nat)
    requires dst < src && src + n <= |m| && a <= dst && a <= lo
    requires SameOutside(m0, m, a, |m|, |m|) && SameOutside(Slid(m, dst, src, n), m', lo, hi, |m|)
    ensures SameOutside(m0, m', a, |m|, |m|)
  {
    hide Slid;
    SlidIs(m, dst, src, n);
  }

  /** What one slide at position k of the compaction keeps. */
  lemma CompactStepKeeps(L: Layout, m0: seq<byte>, k: nat, m: seq<byte>, m': seq<byte>)
    requires L.Inv() && k < |L.used| && |m| == |m'| == POOL_MAX_SIZE && Below(L.used, |L.d|)
    requires L.d[L.used[k]].Allocated() && Align4(Pos(L, k)) < L.d[L.used[k]].offset
    requires L.base + L.d[L.used[k]].offset + L.d[L.used[k]].Size() <= |m|
    requires SameOutside(Slid(m, L.base + Align4(Pos(L, k)), L.base + L.d[L.used[k]].offset, L.d[L.used[k]].Size()), m',
               L.base + Compacted(L, k + 1)[0].offset, L.base + Compacted(L, k + 1)[0].offset + VECTOR_SIZE * |L.d|, |m|)
    requires ContentsKept(L, m0, Compacted(L, k), m) && SameOutside(m0, m, L.base + L.staticSize, |m|, |m|)
    ensures ContentsKept(L, m0, Compacted(L, k + 1), m') && SameOutside(m0, m', L.base + L.staticSize, |m|, |m|)
  {
    hide Layout.Inv, RegionsOk, Desc.Size, Content, ContentsKept, Slid, SameOutside, Compacted, Pos, Align4;
    CompactStep(L, k);
    var i := L.used[k];
    var at, tab: nat := Align4(Pos(L, k)), Compacted(L, k + 1)[0].offset;
    SlideKeepsContents(L, m0, Partial(L, k), Partial(L, k + 1), i, m, m');
    SlideKeepsStatic(m0, m, L.base + at, L.base + L.d[i].offset, L.d[i].Size(), m',
      L.base + tab, L.base + tab + VECTOR_SIZE * |L.d|, L.base + L.staticSize);
  }

  lemma SizeOfVector(t: seq<Vector>, i: nat)
    requires i < |t|
    ensures Descs(t)[i] == t[i].Desc() && Descs(t)[i].Size() == t[i].elemSize * t[i].count
  {
  }

  /** The walk along Link, one position further. */
  lemma LinkAfter(t: seq<Vector>, s: seq<nat>, head: int, k: nat)
    requires Linked(t, s, head) && |t| < NIL
    ensures head == if s == [] then NIL else s[0]
    ensures k < |s| ==> s[k] < |t| && t[s[k]].link == if k + 1 < |s| then s[k + 1] else NIL
  {
    if k < |s| { assert t[s[k]].link == Next(s, k); }
  }

  // ---- activation ----

  /** t' is t with the back links of the first k listed vectors stored. */
  ghost predicate BackLinked(t: seq<Vector>, t': seq<Vector>, s: seq<nat>, k: nat)
    requires Below(s, |t|) && k <= |s|
  {
    && |t'| == |t|
    && (forall x :: 0 <= x < |t| ==> t'[x].link == t[x].link)
    && forall j {:trigger t'[s[j]]} :: 0 <= j < k ==> t'[s[j]].backLink == Prev(s, j)
  }

  lemma BackLinkStep(t: seq<Vector>, t': seq<Vector>, s: seq<nat>, k: nat, prev: word)
    requires Below(s, |t|) && k < |s| && NoDup(s) && BackLinked(t, t', s, k) && prev == Prev(s, k)
    ensures BackLinked(t, t'[s[k] := t'[s[k]].With(BackLinkField, prev)], s, k + 1)
    ensures Descs(t'[s[k] := t'[s[k]].With(BackLinkField, prev)]) == Descs(t')
  {
  }

  lemma AllBackLinked(t: seq<Vector>, t': seq<Vector>, s: seq<nat>, head: int, tail: int)
    requires Forward(t, s, head) && BackLinked(t, t', s, |s|) && s != [] && tail == s[|s| - 1] && NoDup(s)
    ensures TwoLists(t', s, [], head, tail, NIL)
  {
    forall k {:trigger t'[s[k]]} | 0 <= k < |s| ensures t'[s[k]].link == Next(s, k) && t'[s[k]].backLink == Prev(s, k) {
      assert t[s[k]].link == Next(s, k);
    }
  }

  lemma HeadOfForward(t: seq<Vector>, s: seq<nat>, head: int)
    requires Forward(t, s, head)
    ensures head == (if s == [] then NIL else s[0])
    ensures Below(s, |t|) && BackLinked(t, t, s, 0)
  {
  }

  // ---- the same arrays in a new layout ----

  /** Array x is in use before and after, with the same elements. */
  ghost predicate Same(L: Layout, m: seq<byte>, M: Layout, m': seq<byte>, x: nat) {
    && x in L.used && x in M.used && x < |L.d| && x < |M.d|
    && M.d[x].elemSize == L.d[x].elemSize && M.d[x].count == L.d[x].count && M.d[x].Allocated() == L.d[x].Allocated()
    && Content(m', M.base, M.d[x]) == Content(m, L.base, L.d[x])
  }

  /** Every array but the table and array i reads as before. */
  ghost predicate SameBut(L: Layout, m: seq<byte>, M: Layout, m': seq<byte>, i: nat) {
    forall x :: x in L.used && x != 0 && x != i ==> Same(L, m, M, m', x)
  }

  lemma SameFromKept(L: Layout, m: seq<byte>, M: Layout, m': seq<byte>, i: nat)
    requires AllKept(L, m, M, m') && OthersStay(L, M, i)
    ensures SameBut(L, m, M, m', i)
  {
    forall x | x in L.used && x != 0 && x != i ensures Same(L, m, M, m', x) {
      assert Kept(L, m, M, m', x);
    }
  }

  lemma SameButTrans(L: Layout, m: seq<byte>, G: Layout, m1: seq<byte>, M: Layout, m2: seq<byte>, i: nat, i': nat)
    requires SameBut(L, m, G, m1, i) && SameBut(G, m1, M, m2, i')
    requires i == 0 || i' == i
    ensures SameBut(L, m, M, m2, i')
  {
    hide Content;
    forall x | x in L.used && x != 0 && x != i' ensures Same(L, m, M, m2, x) {
      assert Same(L, m, G, m1, x) && Same(G, m1, M, m2, x);
    }
  }

  lemma SameFromCompaction(L: Layout, m: seq<byte>, m': seq<byte>)
    requires L.Inv() && ContentsKept(L, m, Compact(L).d, m')
    ensures SameBut(L, m, Compact(L), m', 0)
  {
    hide Content, Desc.Size, Compacted, Pos;
    forall x | x in L.used && x != 0 ensures Same(L, m, Compact(L), m', x) {
      var k := IndexOf(L.used, x);
      PartialAt(L, |L.used|, k);
      ElemSizeStays(L, |L.used|, x);
    }
  }

  /** The bytes of the table */
  function TableBytes(L: Layout, m: seq<byte>): seq<byte>
    requires 0 < |L.d| && L.base + L.d[0].offset + VECTOR_SIZE * |L.d| <= |m|
  {
    m[L.base + L.d[0].offset..L.base + L.d[0].offset + VECTOR_SIZE * |L.d|]
  }

  /** Changes within the storage of array i leave every other array and the table alone. */
  lemma ChangesWithin(L: Layout, m: seq<byte>, m': seq<byte>, i: nat)
    requires L.Inv() && |m| == POOL_MAX_SIZE && i in L.used && i != 0 && i < |L.d| && L.d[i].Allocated()
    requires SameOutside(m, m', L.base + L.d[i].offset, L.base + L.d[i].offset + L.d[i].Size(), |m|)
    ensures SameBut(L, m, L, m', i)
    ensures 0 < |L.d| && L.base + L.d[0].offset + VECTOR_SIZE * |L.d| <= |m| == |m'| && TableBytes(L, m') == TableBytes(L, m)
  {
    hide Layout.Inv, Desc.Size, SameOutside, Layout.Fits, Layout.Ordered, NoDup;
    RegionsOfInv(L);
    SameLength(m, m', L.base + L.d[i].offset, L.base + L.d[i].offset + L.d[i].Size());
    var a: nat := L.base + L.d[i].offset;
    Apart(L, i, 0);
    InsideDataspace(L, 0);
    SameStretch(m, m', a, a + L.d[i].Size(), L.base + L.d[0].offset, VECTOR_SIZE * |L.d|);
    forall x | x in L.used && x != 0 && x != i ensures Same(L, m, L, m', x) {
      if L.d[x].Allocated() {
        Apart(L, i, x);
        InsideDataspace(L, x);
        SameStretch(m, m', a, a + L.d[i].Size(), L.base + L.d[x].offset, L.d[x].Size());
      }
    }
  }

  lemma SameLength(m: seq<byte>, m': seq<byte>, lo: int, hi: int)
    requires SameOutside(m, m', lo, hi, |m|)
    ensures |m'| == |m|
  {
  }

  /** Overwriting the storage of array i changes that array and no other, and not the table. */
  lemma WrittenContent(L: Layout, m: seq<byte>, i: nat, data: seq<byte>)
    requires L.Inv() && |m| == POOL_MAX_SIZE && i in L.used && i != 0 && i < |L.d| && |data| == L.d[i].Size()
    ensures |data| > 0 ==> L.d[i].Allocated() && L.base + L.d[i].offset + |data| <= |m|
    ensures var m' := if |data| > 0 then Paste(m, L.base + L.d[i].offset, data) else m;
      && Content(m', L.base, L.d[i]) == data && SameBut(L, m, L, m', i)
      && L.base + L.d[0].offset + VECTOR_SIZE * |L.d| <= |m| == |m'| && TableBytes(L, m') == TableBytes(L, m)
  {
    hide Layout.Inv, Desc.Size, Paste, SameOutside, Layout.Fits, Layout.Ordered, NoDup, SameBut;
    RegionsOfInv(L);
    ContentLength(L, m, i);
    InsideDataspace(L, 0);
    if |data| > 0 {
      var a: nat := L.base + L.d[i].offset;
      WrittenIs(m, a, data);
      ChangesWithin(L, m, Paste(m, a, data), i);
    } else {
      NothingChanges(L, m, i);
    }
  }

  lemma NothingChanges(L: Layout, m: seq<byte>, i: nat)
    requires L.Inv()
    ensures SameBut(L, m, L, m, i)
  {
    hide Layout.Fits, Layout.Ordered, NoDup, Disjoint;
  }

  lemma WrittenIs(m: seq<byte>, a: nat, data: seq<byte>)
    requires a + |data| <= |m|
    ensures SameOutside(m, Paste(m, a, data), a, a + |data|, |m|) && Paste(m, a, data)[a..a + |data|] == data
  {
  }

  lemma RegionsOfInv(L: Layout)
    requires L.Inv()
    ensures RegionsOk(L) && L.d[0].Size() == VECTOR_SIZE * |L.d|
    ensures L.base + L.d[0].offset + VECTOR_SIZE * |L.d| <= POOL_MAX_SIZE
  {
    InsideDataspace(L, 0);
  }

  lemma NoBlanks(d: seq<Layouts.Desc>, n: nat, free: seq<nat>)
    requires n == |d|
    ensures Range(n, 0) + free == free && d[..n] + Blanks(0) == d
  {
  }

  /** Vector i made blank in front of n blank ones, and put in front of them on the free list. */
  lemma BlankInFront(d: seq<Layouts.Desc>, i: nat, n: nat, free: seq<nat>)
    requires i < |d|
    ensures (d[..i + 1] + Blanks(n))[i := Blank] == d[..i] + Blanks(n + 1)
    ensures [i] + (Range(i + 1, n) + free) == Range(i, n + 1) + free
    ensures i !in Range(i + 1, n)
  {
  }
}

/** The table of dope vectors as it lies in memory, and the two linked lists threaded through it. */
module Vectors {
  import opened Words
  import opened Seqs
  import opened Layouts

  datatype Field = OffsetField | ElemSizeField | CountField | BackLinkField | LinkField {
    function Index(): nat {
      match this
      case OffsetField => 0
      case ElemSizeField => 1
      case CountField => 2
      case BackLinkField => 3
      case LinkField => 4
    }
  }

  /** A DOPE_VECTOR: five little-endian words in this order. */
  datatype Vector = Vector(offset: word, elemSize: word, count: word, backLink: word, link: word) {
    function Desc(): Layouts.Desc { Layouts.Desc(offset, elemSize, count) }
    function With(field: Field, v: word): Vector {
      match field
      case OffsetField => this.(offset := v)
      case ElemSizeField => this.(elemSize := v)
      case CountField => this.(count := v)
      case BackLinkField => this.(backLink := v)
      case LinkField => this.(link := v)
    }
  }

  function WordAt(m: seq<byte>, a: nat): word
    requires a + 2 <= |m|
  {
    (m[a] as int) + 0x100 * (m[a + 1] as int)
  }

  function Put(m: seq<byte>, a: nat, v: word): (r: seq<byte>)
    requires a + 2 <= |m|
    ensures |r| == |m|
  {
    m[a := v % 0x100][a + 1 := v / 0x100]
  }

  function VectorAt(m: seq<byte>, a: nat): Vector
    requires a + VECTOR_SIZE <= |m|
  {
    Vector(WordAt(m, a), WordAt(m, a + 2), WordAt(m, a + 4), WordAt(m, a + 6), WordAt(m, a + 8))
  }

  function Table(m: seq<byte>, a: nat, n: nat): (r: seq<Vector>)
    requires a + VECTOR_SIZE * n <= |m|
    ensures |r| == n
  {
    seq(n, i requires 0 <= i < n => VectorAt(m, a + VECTOR_SIZE * i))
  }

  /** Where the fields of a dope vector lie, and how a program's loader and its dataspace hold them: low byte first. */
  lemma VectorLies(m: seq<byte>, a: nat)
    requires a + 10 <= |m|
    ensures var v := VectorAt(m, a);
      var word := (k: nat) requires k < 5 => (m[a + 2 * k] as int) + 0x100 * (m[a + 2 * k + 1] as int);
      v.offset == word(0) && v.elemSize == word(1) && v.count == word(2) && v.backLink == word(3) && v.link == word(4)
  {
  }

  lemma PutInVector(m: seq<byte>, a: nat, field: Field, v: word)
    requires a + VECTOR_SIZE <= |m|
    ensures VectorAt(Put(m, a + 2 * field.Index(), v), a) == VectorAt(m, a).With(field, v)
  {
    assert WordAt(Put(m, a + 2 * field.Index(), v), a + 2 * field.Index()) == v;
  }

  lemma PutElsewhere(m: seq<byte>, b: nat, v: word, a: nat)
    requires b + 2 <= |m| && a + VECTOR_SIZE <= |m| && (b + 2 <= a || a + VECTOR_SIZE <= b)
    ensures VectorAt(Put(m, b, v), a) == VectorAt(m, a)
  {
  }

  /** Storing one field changes that field of that vector and nothing else in the table. */
  lemma PutChangesOneField(m: seq<byte>, a: nat, n: nat, i: nat, field: Field, v: word)
    requires a + VECTOR_SIZE * n <= |m| && i < n
    ensures Table(Put(m, a + VECTOR_SIZE * i + 2 * field.Index(), v), a, n) ==
      Table(m, a, n)[i := Table(m, a, n)[i].With(field, v)]
  {
    hide VectorAt, Put;
    PutInVector(m, a + VECTOR_SIZE * i, field, v);
    forall j | 0 <= j < n && j != i
      ensures VectorAt(Put(m, a + VECTOR_SIZE * i + 2 * field.Index(), v), a + VECTOR_SIZE * j) ==
        VectorAt(m, a + VECTOR_SIZE * j)
    {
      PutElsewhere(m, a + VECTOR_SIZE * i + 2 * field.Index(), v, a + VECTOR_SIZE * j);
    }
  }

  /** Equal bytes hold equal tables. */
  lemma TableOfBytes(m: seq<byte>, a: nat, m': seq<byte>, a': nat, n: nat)
    requires a + VECTOR_SIZE * n <= |m| && a' + VECTOR_SIZE * n <= |m'|
    requires m[a..a + VECTOR_SIZE * n] == m'[a'..a' + VECTOR_SIZE * n]
    ensures Table(m, a, n) == Table(m', a', n)
  {
    TableOfSlice(m, a, n);
    TableOfSlice(m', a', n);
  }

  lemma TableOfSlice(m: seq<byte>, a: nat, n: nat)
    requires a + VECTOR_SIZE * n <= |m|
    ensures Table(m, a, n) == Table(m[a..a + VECTOR_SIZE * n], 0, n)
  {
  }

  function Descs(t: seq<Vector>): (r: seq<Layouts.Desc>)
    ensures |r| == |t|
  {
    seq(|t|, i requires 0 <= i < |t| => t[i].Desc())
  }

  // ---- linked lists ----

  function Prev(s: seq<nat>, k: nat): int
    requires k < |s|
  {
    if k == 0 then NIL else s[k - 1]
  }

  function Next(s: seq<nat>, k: nat): int
    requires k < |s|
  {
    if k + 1 < |s| then s[k + 1] else NIL
  }

  /** From head, Link visits s in order and ends; BackLink leads back. */
  ghost predicate Linked(t: seq<Vector>, s: seq<nat>, head: int) {
    && Below(s, |t|)
    && head == (if s == [] then NIL else s[0])
    && forall k {:trigger t[s[k]]} :: 0 <= k < |s| ==> t[s[k]].link == Next(s, k) && t[s[k]].backLink == Prev(s, k)
  }

  /** A list does not notice changes elsewhere in the table. */
  lemma LinkedElsewhere(t: seq<Vector>, t': seq<Vector>, s: seq<nat>, head: int)
    requires Linked(t, s, head) && |t| <= |t'|
    requires forall k {:trigger t'[s[k]]} :: 0 <= k < |s| ==>
      t'[s[k]].link == t[s[k]].link && t'[s[k]].backLink == t[s[k]].backLink
    ensures Linked(t', s, head)
  {
  }

  /** Patching the neighbours of s[p] takes it off the list. */
  lemma Unlinked(t: seq<Vector>, t': seq<Vector>, s: seq<nat>, p: nat, head: int)
    requires Linked(t, s, head) && NoDup(s) && p < |s| && |t'| == |t|
    requires forall k {:trigger t'[s[k]]} :: 0 <= k < |s| && k != p ==>
      t'[s[k]].link == (if k + 1 == p then t[s[p]].link else t[s[k]].link) &&
      t'[s[k]].backLink == (if k == p + 1 then t[s[p]].backLink else t[s[k]].backLink)
    ensures Linked(t', s[..p] + s[p + 1..], if p == 0 then t[s[0]].link else head)
  {
    var r := s[..p] + s[p + 1..];
    forall k | 0 <= k < |r| ensures t'[r[k]].link == Next(r, k) && t'[r[k]].backLink == Prev(r, k) {
      var k' := if k < p then k else k + 1;
      assert r[k] == s[k'];
    }
  }

  lemma Appended(t: seq<Vector>, t': seq<Vector>, s: seq<nat>, i: nat, head: int)
    requires Linked(t, s, head) && NoDup(s) && s != [] && i !in s && i < |t| == |t'|
    requires forall k {:trigger t'[s[k]]} :: 0 <= k < |s| ==>
      t'[s[k]].link == (if k + 1 == |s| then i else t[s[k]].link) && t'[s[k]].backLink == t[s[k]].backLink
    requires t'[i].link == NIL && t'[i].backLink == s[|s| - 1]
    ensures Linked(t', s + [i], head)
  {
    var r := s + [i];
    forall k | 0 <= k < |r| ensures t'[r[k]].link == Next(r, k) && t'[r[k]].backLink == Prev(r, k) {
      if k < |s| { assert r[k] == s[k]; }
    }
  }

  lemma Pushed(t: seq<Vector>, t': seq<Vector>, s: seq<nat>, i: nat, head: int)
    requires Linked(t, s, head) && i < |t'| && |t| <= |t'|
    requires forall k {:trigger t'[s[k]]} :: 0 <= k < |s| ==>
      t'[s[k]].link == t[s[k]].link && t'[s[k]].backLink == (if k == 0 then i else t[s[k]].backLink)
    requires t'[i].link == head && t'[i].backLink == NIL
    ensures Linked(t', [i] + s, i)
  {
    var r := [i] + s;
    forall k | 0 <= k < |r| ensures t'[r[k]].link == Next(r, k) && t'[r[k]].backLink == Prev(r, k) {
      if k > 0 { assert r[k] == s[k - 1]; }
    }
  }

  /** Both lists, with the last used vector. */
  ghost predicate TwoLists(t: seq<Vector>, used: seq<nat>, free: seq<nat>, head: int, tail: int, freeHead: int) {
    && Linked(t, used, head) && Linked(t, free, freeHead)
    && used != [] && tail == used[|used| - 1]
    && NoDup(used) && NoDup(free) && Disjoint(used, free)
  }

  function SetLink(t: seq<Vector>, i: nat, v: word): (r: seq<Vector>)
    ensures |r| == |t|
  {
    if i < |t| then t[i := t[i].(link := v)] else t
  }

  function SetBackLink(t: seq<Vector>, i: nat, v: word): (r: seq<Vector>)
    ensures |r| == |t|
  {
    if i < |t| then t[i := t[i].(backLink := v)] else t
  }

  lemma InsertKeepsDescs(t: seq<Vector>, i: word, tail: word)
    requires i < |t| && tail < |t|
    ensures Descs(SetLink(SetBackLink(SetLink(t, tail, i), i, tail), i, NIL)) == Descs(t)
  {
  }

  lemma MoveKeepsDescs(t: seq<Vector>, i: word, tail: word)
    requires i < |t| && tail < |t|
    ensures Descs(SetLink(SetBackLink(SetLink(t, i, NIL), i, tail), tail, i)) == Descs(t)
  {
  }

  lemma InsertedAtTail(t: seq<Vector>, used: seq<nat>, free: seq<nat>, head: int, tail: word, freeHead: int, i: word)
    requires TwoLists(t, used, free, head, tail, freeHead) && i < |t| && i !in used && i !in free
    ensures tail < |t|
    ensures TwoLists(SetLink(SetBackLink(SetLink(t, tail, i), i, tail), i, NIL), used + [i], free, head, i, freeHead)
  {
    var t' := SetLink(SetBackLink(SetLink(t, tail, i), i, tail), i, NIL);
    Appended(t, t', used, i, head);
    LinkedElsewhere(t, t', free, freeHead);
  }

  /** Taking vector i off the used list, as the head or by patching its neighbours. */
  function Cut(t: seq<Vector>, i: nat, head: word): (r: seq<Vector>)
    requires i < |t|
    ensures |r| == |t|
  {
    var prev, post := t[i].backLink, t[i].link;
    if i == head then (if post == NIL then t else SetBackLink(t, post, NIL))
    else if post == NIL then SetLink(t, prev, post)
    else SetBackLink(SetLink(t, prev, post), post, prev)
  }

  lemma LinksInRange(t: seq<Vector>, s: seq<nat>, head: int, i: nat)
    requires Linked(t, s, head) && NoDup(s) && i in s && |t| < NIL
    ensures i < |t| && head < |t|
    ensures t[i].link < |t| || t[i].link == NIL
    ensures t[i].link == NIL <==> i == s[|s| - 1]
    ensures i != head ==> t[i].backLink < |t| && t[i].backLink in s
    ensures i == head <==> IndexOf(s, i) == 0
  {
    var p := IndexOf(s, i);
    assert t[s[p]].link == Next(s, p) && t[s[p]].backLink == Prev(s, p);
  }

  lemma CutUnlinksAt(t: seq<Vector>, s: seq<nat>, head: word, p: nat)
    requires Linked(t, s, head) && NoDup(s) && p < |s| && |t| < NIL
    ensures Next(s, p) == t[s[p]].link && Prev(s, p) == t[s[p]].backLink && (s[p] == head <==> p == 0)
    ensures Linked(Cut(t, s[p], head), s[..p] + s[p + 1..], if p == 0 then t[s[p]].link else head)
  {
    var i := s[p];
    assert t[s[p]].link == Next(s, p) && t[s[p]].backLink == Prev(s, p);
    var t' := Cut(t, i, head);
    forall k {:trigger t'[s[k]]} | 0 <= k < |s| && k != p
      ensures t'[s[k]].link == (if k + 1 == p then t[i].link else t[s[k]].link)
      ensures t'[s[k]].backLink == (if k == p + 1 then t[i].backLink else t[s[k]].backLink)
    {
      assert s[k] != s[p];
    }
    hide Cut;
    Unlinked(t, t', s, p, head);
  }

  lemma CutKeepsFree(t: seq<Vector>, s: seq<nat>, head: word, p: nat, free: seq<nat>, freeHead: int)
    requires Linked(t, s, head) && NoDup(s) && p < |s| && |t| < NIL
    requires Linked(t, free, freeHead) && Disjoint(s, free)
    ensures Next(s, p) == t[s[p]].link && Prev(s, p) == t[s[p]].backLink && (s[p] == head <==> p == 0)
    ensures Linked(Cut(t, s[p], head), free, freeHead)
    ensures Descs(Cut(t, s[p], head)) == Descs(t)
  {
    assert t[s[p]].link == Next(s, p) && t[s[p]].backLink == Prev(s, p);
    var t' := Cut(t, s[p], head);
    forall k | 0 <= k < |free| ensures t'[free[k]] == t[free[k]] {
      assert s[p] != free[k];
      if p > 0 { assert s[p - 1] != free[k]; }
      if p + 1 < |s| { assert s[p + 1] != free[k]; }
    }
    hide Cut;
    LinkedElsewhere(t, t', free, freeHead);
  }

  /** Cutting vector i leaves both lists linked. */
  lemma CutUnlinks(t: seq<Vector>, used: seq<nat>, free: seq<nat>, head: word, tail: int, freeHead: int, i: nat)
    requires TwoLists(t, used, free, head, tail, freeHead) && |t| < NIL && i in used
    ensures i < |t| && (t[i].link < |t| || t[i].link == NIL) && (i != head ==> t[i].backLink < |t|)
    ensures Descs(Cut(t, i, head)) == Descs(t)
    ensures Linked(Cut(t, i, head), Without(used, i), if i == head then t[i].link else head)
    ensures Linked(Cut(t, i, head), free, freeHead)
  {
    var p := IndexOf(used, i);
    hide Cut;
    LinksInRange(t, used, head, i);
    CutUnlinksAt(t, used, head, p);
    CutKeepsFree(t, used, head, p, free, freeHead);
  }

  lemma MovedToTail(t: seq<Vector>, used: seq<nat>, free: seq<nat>, head: word, tail: word, freeHead: int, i: word)
    requires TwoLists(t, used, free, head, tail, freeHead) && |t| < NIL && i in used && i != tail
    ensures i < |t| && tail < |t| && (t[i].link < |t| || t[i].link == NIL) && (i != head ==> t[i].backLink < |t|)
    ensures TwoLists(SetLink(SetBackLink(SetLink(Cut(t, i, head), i, NIL), i, tail), tail, i),
              Without(used, i) + [i], free, if i == head then t[i].link else head, i, freeHead)
  {
    CutUnlinks(t, used, free, head, tail, freeHead, i);
    WithoutKeepsRest(used, i);
    LastOfWithout(used, i);
    MovedOnceCut(Cut(t, i, head), Without(used, i), free, if i == head then t[i].link else head, tail, freeHead, i);
    var p := IndexOf(used, i);
    forall k | 0 <= k < |free| ensures free[k] != i {
      assert used[p] != free[k];
    }
  }

  lemma MoveOfLast(s: seq<nat>)
    requires NoDup(s) && s != []
    ensures Without(s, s[|s| - 1]) + [s[|s| - 1]] == s
  {
    assert IndexOf(s, s[|s| - 1]) == |s| - 1;
  }

  lemma LastOfWithout(s: seq<nat>, x: nat)
    requires NoDup(s) && x in s && x != s[|s| - 1]
    ensures Without(s, x) != [] && Without(s, x)[|s| - 2] == s[|s| - 1]
  {
  }

  lemma MovedOnceCut(t: seq<Vector>, r: seq<nat>, free: seq<nat>, head: word, tail: word, freeHead: int, i: word)
    requires TwoLists(t, r, free, head, tail, freeHead) && i < |t| && i !in r && i !in free
    ensures TwoLists(SetLink(SetBackLink(SetLink(t, i, NIL), i, tail), tail, i), r + [i], free, head, i, freeHead)
  {
    var t' := SetLink(SetBackLink(SetLink(t, i, NIL), i, tail), tail, i);
    Appended(t, t', r, i, head);
    LinkedElsewhere(t, t', free, freeHead);
  }

  /** Pushing vector i on the free list. */
  lemma PushedFree(t: seq<Vector>, t': seq<Vector>, used: seq<nat>, free: seq<nat>, head: int, freeHead: int, i: nat)
    requires Linked(t, used, head) && Linked(t, free, freeHead) && NoDup(free) && Disjoint(used, free)
    requires |t| <= |t'| && i < |t'| < NIL && i !in used && i !in free
    requires t'[i].link == freeHead && t'[i].backLink == NIL
    requires freeHead != NIL ==> freeHead < |t| && t'[freeHead].link == t[freeHead].link && t'[freeHead].backLink == i
    requires forall x :: 0 <= x < |t| && x != i && x != freeHead ==> t'[x].link == t[x].link && t'[x].backLink == t[x].backLink
    ensures Linked(t', used, head) && Linked(t', [i] + free, i)
    ensures NoDup([i] + free) && Disjoint(used, [i] + free)
  {
    forall k | 0 <= k < |used| ensures used[k] != i && used[k] != freeHead {
      if free != [] { assert used[k] != free[0]; }
    }
    LinkedElsewhere(t, t', used, head);
    forall k {:trigger t'[free[k]]} | 0 <= k < |free|
      ensures t'[free[k]].link == t[free[k]].link && t'[free[k]].backLink == (if k == 0 then i else t[free[k]].backLink)
    {
      if k > 0 { assert free[0] != free[k]; }
    }
    Pushed(t, t', free, i, freeHead);
  }

  lemma HeadInRange(t: seq<Vector>, s: seq<nat>, head: int)
    requires Linked(t, s, head) && |t| < NIL
    ensures head == NIL <==> s == []
    ensures head != NIL ==> head < |t| && head == s[0] && t[head].link == Next(s, 0)
  {
  }

  function Reset(t: seq<Vector>, i: nat): (r: seq<Vector>)
    requires i < |t|
    ensures |r| == |t|
  {
    t[i := t[i].(count := 0, elemSize := 0, offset := NIL)]
  }

  function PushFree(t: seq<Vector>, i: word, freeHead: word): (r: seq<Vector>)
    ensures |r| == |t|
  {
    var t1 := SetBackLink(SetLink(t, i, freeHead), i, NIL);
    if freeHead != NIL then SetBackLink(t1, freeHead, i) else t1
  }

  lemma ResetKeepsLists(t: seq<Vector>, used: seq<nat>, free: seq<nat>, head: int, tail: int, freeHead: int, i: nat)
    requires TwoLists(t, used, free, head, tail, freeHead) && i < |t|
    ensures TwoLists(Reset(t, i), used, free, head, tail, freeHead)
    ensures Descs(Reset(t, i)) == Descs(t)[i := Blank]
  {
    LinkedElsewhere(t, Reset(t, i), used, head);
    LinkedElsewhere(t, Reset(t, i), free, freeHead);
  }

  lemma PushedOnceCut(t: seq<Vector>, r: seq<nat>, free: seq<nat>, head: int, freeHead: word, i: word)
    requires Linked(t, r, head) && Linked(t, free, freeHead) && NoDup(r) && NoDup(free) && Disjoint(r, free) && |t| < NIL
    requires i < |t| && i !in r && i !in free
    ensures freeHead < |t| || freeHead == NIL
    ensures Linked(PushFree(t, i, freeHead), r, head) && Linked(PushFree(t, i, freeHead), [i] + free, i)
    ensures NoDup([i] + free) && Disjoint(r, [i] + free)
    ensures Descs(PushFree(t, i, freeHead)) == Descs(t)
  {
    HeadInRange(t, free, freeHead);
    PushedFree(t, PushFree(t, i, freeHead), r, free, head, freeHead, i);
  }

  lemma TailOfWithout(s: seq<nat>, x: nat)
    requires NoDup(s) && x in s && |s| > 1
    ensures Without(s, x) != []
    ensures Without(s, x)[|s| - 2] == if x == s[|s| - 1] then s[|s| - 2] else s[|s| - 1]
  {
    if x == s[|s| - 1] { assert IndexOf(s, x) == |s| - 1; }
  }

  /** Freeing vector i moves it from the used to the free list. */
  lemma Freed(t: seq<Vector>, used: seq<nat>, free: seq<nat>, head: word, tail: int, freeHead: word, i: word)
    requires TwoLists(t, used, free, head, tail, freeHead) && |t| < NIL && i in used && |used| > 1
    ensures i < |t| && (freeHead < |t| || freeHead == NIL)
    ensures var t' := PushFree(Cut(Reset(t, i), i, head), i, freeHead);
      && TwoLists(t', Without(used, i), [i] + free, if i == head then t[i].link else head,
                  if i == tail && i != head then t[i].backLink else tail, i)
      && Descs(t') == Descs(t)[i := Blank]
  {
    var t0 := Reset(t, i);
    var p := IndexOf(used, i);
    assert t[used[p]].link == Next(used, p) && t[used[p]].backLink == Prev(used, p);
    TailOfWithout(used, i);
    if i == tail { assert p == |used| - 1; }
    ResetKeepsLists(t, used, free, head, tail, freeHead, i);
    CutUnlinks(t0, used, free, head, tail, freeHead, i);
    WithoutKeepsRest(used, i);
    hide Cut, Reset, Linked;
    forall k | 0 <= k < |free| ensures free[k] != i { assert used[p] != free[k]; }
    PushedOnceCut(Cut(t0, i, head), Without(used, i), free, if i == head then t[i].link else head, freeHead, i);
  }

  /** Taking the head off the free list. */
  lemma Popped(t: seq<Vector>, used: seq<nat>, free: seq<nat>, head: int, tail: int, freeHead: word)
    requires TwoLists(t, used, free, head, tail, freeHead) && |t| < NIL && freeHead != NIL
    ensures free != [] && freeHead == free[0] < |t| && freeHead !in used && freeHead !in free[1..]
    ensures t[freeHead].link < |t| || t[freeHead].link == NIL
    ensures var next := t[freeHead].link;
      var t' := if next != NIL then SetBackLink(t, next, NIL) else t;
      TwoLists(t', used, free[1..], head, tail, next) && Descs(t') == Descs(t)
  {
    HeadInRange(t, free, freeHead);
    var next := t[freeHead].link;
    var t' := if next != NIL then SetBackLink(t, next, NIL) else t;
    var r := free[1..];
    assert free[0] == freeHead;
    forall k | 0 <= k < |used| ensures used[k] != next && used[k] != freeHead {
      if |free| > 1 { assert used[k] != free[1]; }
      assert used[k] != free[0];
    }
    LinkedElsewhere(t, t', used, head);
    forall k {:trigger t'[r[k]]} | 0 <= k < |r| ensures t'[r[k]].link == Next(r, k) && t'[r[k]].backLink == Prev(r, k) {
      assert t[free[k + 1]].link == Next(free, k + 1) && t[free[k + 1]].backLink == Prev(free, k + 1);
      assert r[k] == free[k + 1];
      if k > 0 { assert free[1] != free[k + 1]; }
    }
  }
}

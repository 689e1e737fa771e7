/** Lists threaded through the Link field of the clumps: every clump has one Link, and one is enough. */
module Threads {
  import opened Seqs
  import opened Clumps
  import opened Mutexes

  /** The links lead from head through s to tail, where they end. */
  ghost predicate Threaded(link: seq<nat>, head: nat, tail: nat, s: seq<nat>) {
    && (s == [] ==> head == NOT_A_CLUMP && tail == NOT_A_CLUMP)
    && (s != [] ==> head == s[0] && tail == s[|s| - 1])
    && Below(s, |link|)
    && forall k {:trigger link[s[k]]} :: 0 <= k < |s| ==> link[s[k]] == if k + 1 < |s| then s[k + 1] else NOT_A_CLUMP
  }

  ghost predicate ThreadsOk(link: seq<nat>, head: seq<nat>, tail: seq<nat>, q: seq<seq<nat>>) {
    && |head| == |q| && |tail| == |q| && |link| < NOT_A_CLUMP && Separate(q)
    && (forall i :: 0 <= i < |q| ==> Threaded(link, head[i], tail[i], q[i]))
    && (forall c :: 0 <= c < |link| && !On(q, c) ==> link[c] == NOT_A_CLUMP)
  }

  lemma ThreadKept(link: seq<nat>, link': seq<nat>, head: nat, tail: nat, s: seq<nat>)
    requires Threaded(link, head, tail, s) && |link'| == |link|
    requires forall k :: 0 <= k < |s| ==> link'[s[k]] == link[s[k]]
    ensures Threaded(link', head, tail, s)
  {
  }

  /** cCmdEnQClump: c is tacked onto the end of queue i. */
  lemma Appended(link: seq<nat>, head: seq<nat>, tail: seq<nat>, q: seq<seq<nat>>, i: nat, c: nat)
    requires ThreadsOk(link, head, tail, q) && i < |q| && c < |link| && !On(q, c)
    ensures q[i] != [] ==> tail[i] < |link|
    ensures ThreadsOk(if q[i] == [] then link[c := NOT_A_CLUMP] else link[c := NOT_A_CLUMP][tail[i] := c],
                      if q[i] == [] then head[i := c] else head, tail[i := c], Add(q, i, c))
  {
    var link' := if q[i] == [] then link[c := NOT_A_CLUMP] else link[c := NOT_A_CLUMP][tail[i] := c];
    var head' := if q[i] == [] then head[i := c] else head;
    var tail' := tail[i := c];
    AddKeepsSeparateExactly(q, i, c);
    forall j, k | 0 <= j < |q| && 0 <= k < |q[j]| ensures q[j][k] != c {
      OnAt(q, j, k);
    }
    forall j | 0 <= j < |q| ensures Threaded(link', head'[j], tail'[j], Add(q, i, c)[j]) {
      if j != i {
        assert q[i] != [] ==> tail[i] == q[i][|q[i]| - 1];
        ThreadKept(link, link', head[j], tail[j], q[j]);
      } else {
        AppendedThread(link, head[i], tail[i], q[i], c);
      }
    }
    forall x | 0 <= x < |link| && !On(Add(q, i, c), x) ensures link'[x] == NOT_A_CLUMP {
      AddOn(q, i, c, x);
      if q[i] != [] {
        OnAt(q, i, |q[i]| - 1);
      }
    }
  }

  lemma AppendedThread(link: seq<nat>, head: nat, tail: nat, s: seq<nat>, c: nat)
    requires Threaded(link, head, tail, s) && NoDup(s) && c < |link| && c !in s
    ensures s != [] ==> tail < |link|
    ensures Threaded(if s == [] then link[c := NOT_A_CLUMP] else link[c := NOT_A_CLUMP][tail := c],
                     if s == [] then c else head, c, s + [c])
  {
  }

  // What cCmdDeQClump makes of Link, Head and Tail when it takes the clump at place p off list s.

  function LinkWithout(link: seq<nat>, s: seq<nat>, p: nat): (r: seq<nat>)
    requires p < |s| && s[p] < |link| && (p > 0 ==> s[p - 1] < |link|)
    ensures |r| == |link|
  {
    if p == 0 then link[s[0] := NOT_A_CLUMP] else link[s[p - 1] := link[s[p]]][s[p] := NOT_A_CLUMP]
  }

  lemma LinkWithoutHead(link: seq<nat>, s: seq<nat>)
    requires s != [] && s[0] < |link|
    ensures LinkWithout(link, s, 0) == link[s[0] := NOT_A_CLUMP]
  {
  }

  function HeadWithout(link: seq<nat>, head: nat, s: seq<nat>, p: nat): nat
    requires p < |s| && s[p] < |link|
  {
    if p == 0 then link[s[0]] else head
  }

  function TailWithout(tail: nat, s: seq<nat>, p: nat): nat
    requires p < |s|
  {
    if s[p] != tail then tail else if p == 0 then NOT_A_CLUMP else s[p - 1]
  }

  lemma OnList(link: seq<nat>, head: nat, tail: nat, s: seq<nat>, p: nat)
    requires Threaded(link, head, tail, s) && p < |s|
    ensures s[p] < |link| && (p > 0 ==> s[p - 1] < |link|)
  {
  }

  lemma RemovedLink(link: seq<nat>, head: nat, tail: nat, s: seq<nat>, p: nat, k: nat)
    requires Threaded(link, head, tail, s) && NoDup(s) && p < |s| && s[p] < |link| && (p > 0 ==> s[p - 1] < |link|)
    requires k < |s| - 1
    ensures var r := s[..p] + s[p + 1..];
      r[k] < |link| && LinkWithout(link, s, p)[r[k]] == if k + 1 < |r| then r[k + 1] else NOT_A_CLUMP
  {
    var j := if k < p then k else k + 1;
    assert link[s[p]] == if p + 1 < |s| then s[p + 1] else NOT_A_CLUMP;
    assert s[j] < |link| && link[s[j]] == if j + 1 < |s| then s[j + 1] else NOT_A_CLUMP;
    assert LinkWithout(link, s, p)[s[j]] == if j + 1 == p then link[s[p]] else link[s[j]];
  }

  lemma RemovedThread(link: seq<nat>, head: nat, tail: nat, s: seq<nat>, p: nat)
    requires Threaded(link, head, tail, s) && NoDup(s) && p < |s| && s[p] < |link| && (p > 0 ==> s[p - 1] < |link|)
    ensures Threaded(LinkWithout(link, s, p), HeadWithout(link, head, s, p), TailWithout(tail, s, p), s[..p] + s[p + 1..])
  {
    var r := s[..p] + s[p + 1..];
    forall k | 0 <= k < |r|
      ensures r[k] < |link| && LinkWithout(link, s, p)[r[k]] == if k + 1 < |r| then r[k + 1] else NOT_A_CLUMP
    {
      RemovedLink(link, head, tail, s, p, k);
    }
    hide LinkWithout;
    assert s[|s| - 1] == tail;
    assert link[s[p]] == if p + 1 < |s| then s[p + 1] else NOT_A_CLUMP;
  }

  lemma OtherThreadKept(link: seq<nat>, head: seq<nat>, tail: seq<nat>, q: seq<seq<nat>>, i: nat, p: nat, j: nat)
    requires ThreadsOk(link, head, tail, q) && i < |q| && p < |q[i]| && j < |q| && j != i
    requires q[i][p] < |link| && (p > 0 ==> q[i][p - 1] < |link|)
    ensures Threaded(LinkWithout(link, q[i], p), head[j], tail[j], q[j])
  {
    ThreadKept(link, LinkWithout(link, q[i], p), head[j], tail[j], q[j]);
  }

  lemma OffListUnlinked(link: seq<nat>, head: seq<nat>, tail: seq<nat>, q: seq<seq<nat>>, i: nat, p: nat, x: nat)
    requires ThreadsOk(link, head, tail, q) && i < |q| && p < |q[i]| && x < |link|
    requires q[i][p] < |link| && (p > 0 ==> q[i][p - 1] < |link|)
    requires x == q[i][p] || !On(q, x)
    ensures LinkWithout(link, q[i], p)[x] == NOT_A_CLUMP
  {
    if x != q[i][p] && p > 0 {
      OnAt(q, i, p - 1);
    }
  }

  /** cCmdDeQClump of the clump at place p of queue i. */
  lemma Removed(link: seq<nat>, head: seq<nat>, tail: seq<nat>, q: seq<seq<nat>>, i: nat, p: nat)
    requires ThreadsOk(link, head, tail, q) && i < |q| && p < |q[i]|
    ensures q[i][p] < |link| && (p > 0 ==> q[i][p - 1] < |link|)
    ensures ThreadsOk(LinkWithout(link, q[i], p), head[i := HeadWithout(link, head[i], q[i], p)],
                      tail[i := TailWithout(tail[i], q[i], p)], TakeOff(q, i, q[i][p]))
  {
    hide Separate, NoDup, Threaded, LinkWithout, HeadWithout, TailWithout, On;
    var c := q[i][p];
    OnList(link, head[i], tail[i], q[i], p);
    TakeOffKeepsSeparate(q, i, c);
    NoDupOfSeparate(q, i);
    IndexIs(q[i], p);
    forall j | 0 <= j < |q|
      ensures Threaded(LinkWithout(link, q[i], p), head[i := HeadWithout(link, head[i], q[i], p)][j],
                       tail[i := TailWithout(tail[i], q[i], p)][j], TakeOff(q, i, c)[j])
    {
      if j != i {
        OtherThreadKept(link, head, tail, q, i, p, j);
      } else {
        RemovedThread(link, head[i], tail[i], q[i], p);
      }
    }
    forall x | 0 <= x < |link| && !On(TakeOff(q, i, c), x) ensures LinkWithout(link, q[i], p)[x] == NOT_A_CLUMP {
      TakeOffOn(q, i, c, x);
      OffListUnlinked(link, head, tail, q, i, p, x);
    }
  }

  lemma IndexIs(s: seq<nat>, p: nat)
    requires NoDup(s) && p < |s|
    ensures IndexOf(s, s[p]) == p
  {
  }

  /** cCmdRotateQ: the head of queue i becomes its tail. */
  lemma RotatedLists(link: seq<nat>, head: seq<nat>, tail: seq<nat>, q: seq<seq<nat>>, i: nat)
    requires ThreadsOk(link, head, tail, q) && i < |q| && |q[i]| >= 2
    ensures q[i][0] < |link| && tail[i] < |link| && link[q[i][0]] == q[i][1]
    ensures ThreadsOk(link[q[i][0] := NOT_A_CLUMP][tail[i] := q[i][0]], head[i := q[i][1]], tail[i := q[i][0]],
                      q[i := q[i][1..] + [q[i][0]]])
  {
    hide Separate, On, Without;
    var s, c := q[i], q[i][0];
    assert Threaded(link, head[i], tail[i], s);
    assert s[0] != tail[i] by { NoDupOfSeparate(q, i); }
    Removed(link, head, tail, q, i, 0);
    HeadOff(q, i);
    TakeOffKeepsSeparate(q, i, c);
    LinkWithoutHead(link, s);
    assert tail[i := tail[i]] == tail && TailWithout(tail[i], s, 0) == tail[i];
    assert HeadWithout(link, head[i], s, 0) == s[1];
    var link1, head1, q1 := link[c := NOT_A_CLUMP], head[i := s[1]], q[i := s[1..]];
    Appended(link1, head1, tail, q1, i, c);
    assert link1[c := NOT_A_CLUMP] == link1;
    assert Add(q1, i, c) == q[i := s[1..] + [c]];
    assert q1[i] != [];
  }
}

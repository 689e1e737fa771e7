/**
 Clump scheduling on values. The run queue, the rest queue and the wait queue of every mutex are
 sequences of clumps; Schedulers.dfy keeps them as lists threaded through one Link field.
*/
module Clumps {
  import opened Words
  import opened Seqs

  const NOT_A_CLUMP: nat := 0xFF

  /** Positions of the queues: RunQ, RestQ, and behind them one WaitQ per mutex. */
  const RUN: nat := 0
  const REST: nat := 1
  function WAIT(m: nat): nat { m + 2 }

  datatype ClumpRec = ClumpRec(initFireCount: byte, fireCount: byte, awakenTime: nat, calledClump: nat)

  datatype Sched = Sched(q: seq<seq<nat>>, owner: seq<nat>, recs: seq<ClumpRec>)

  ghost predicate On(q: seq<seq<nat>>, c: nat) {
    exists i :: 0 <= i < |q| && c in q[i]
  }

  /** Every clump is on at most one queue, once. */
  ghost predicate QueuesOk(S: Sched) {
    && |S.q| == |S.owner| + 2 && |S.recs| < NOT_A_CLUMP
    && Separate(S.q) && (forall i :: 0 <= i < |S.q| ==> Below(S.q[i], |S.recs|))
    && (forall m :: 0 <= m < |S.owner| ==> S.owner[m] < |S.recs| || S.owner[m] == NOT_A_CLUMP)
  }

  // ---- taking clumps off a queue and putting them on one ----

  function Add(q: seq<seq<nat>>, i: nat, c: nat): (r: seq<seq<nat>>)
    requires i < |q|
    ensures |r| == |q|
  {
    q[i := q[i] + [c]]
  }

  function TakeOff(q: seq<seq<nat>>, i: nat, c: nat): (r: seq<seq<nat>>)
    requires i < |q| && c in q[i]
    ensures |r| == |q|
  {
    q[i := Without(q[i], c)]
  }

  lemma OnAt(q: seq<seq<nat>>, i: nat, k: nat)
    requires i < |q| && k < |q[i]|
    ensures On(q, q[i][k])
  {
    assert q[i][k] in q[i];
  }

  lemma NoDupOfSeparate(q: seq<seq<nat>>, i: nat)
    requires Separate(q) && i < |q|
    ensures NoDup(q[i])
  {
  }

  /** A clump on one queue is on no other. */
  lemma OnlyQueue(q: seq<seq<nat>>, i: nat, j: nat, c: nat)
    requires Separate(q) && i < |q| && j < |q| && c in q[i] && c in q[j]
    ensures i == j
  {
    var k, l := IndexOf(q[i], c), IndexOf(q[j], c);
    assert q[i][k] == q[j][l];
  }

  lemma AddOn(q: seq<seq<nat>>, i: nat, c: nat, x: nat)
    requires i < |q|
    ensures On(Add(q, i, c), x) <==> x == c || On(q, x)
  {
    var T := Add(q, i, c);
    if On(q, x) {
      var j :| 0 <= j < |q| && x in q[j];
      assert x in T[j];
    }
    assert c in T[i];
  }

  /** Queues stay separate exactly if the clump put on one of them was on none. */
  lemma AddKeepsSeparateExactly(q: seq<seq<nat>>, i: nat, c: nat)
    requires i < |q| && Separate(q)
    ensures Separate(Add(q, i, c)) <==> !On(q, c)
  {
    var T := Add(q, i, c);
    if On(q, c) {
      var j :| 0 <= j < |q| && c in q[j];
      var k := IndexOf(q[j], c);
      assert T[j][k] == T[i][|q[i]|];
    } else {
      forall j, k | 0 <= j < |q| && 0 <= k < |q[j]| ensures q[j][k] != c {
        OnAt(q, j, k);
      }
      assert forall j, k :: 0 <= j < |T| && 0 <= k < |T[j]| ==> T[j][k] == if j == i && k == |q[i]| then c else q[j][k];
    }
  }

  lemma TakeOffAt(q: seq<seq<nat>>, i: nat, c: nat)
    requires i < |q| && c in q[i]
    ensures forall j :: 0 <= j < |q| && j != i ==> TakeOff(q, i, c)[j] == q[j]
    ensures forall k :: 0 <= k < |q[i]| - 1 ==>
      TakeOff(q, i, c)[i][k] == q[i][if k < IndexOf(q[i], c) then k else k + 1]
    ensures |TakeOff(q, i, c)[i]| == |q[i]| - 1
  {
    var p := IndexOf(q[i], c);
    assert TakeOff(q, i, c)[i] == q[i][..p] + q[i][p + 1..];
  }

  lemma TakeOffKeepsSeparate(q: seq<seq<nat>>, i: nat, c: nat)
    requires i < |q| && c in q[i] && Separate(q)
    ensures Separate(TakeOff(q, i, c))
    ensures !On(TakeOff(q, i, c), c)
  {
    hide TakeOff;
    TakeOffAt(q, i, c);
    var T := TakeOff(q, i, c);
    var p := IndexOf(q[i], c);
    forall j, k | 0 <= j < |q| && 0 <= k < |T[j]| ensures T[j][k] != c {
      assert T[j][k] == q[j][if j == i && k >= p then k + 1 else k];
      assert q[i][p] == c;
    }
  }

  lemma TakeOffOn(q: seq<seq<nat>>, i: nat, c: nat, x: nat)
    requires i < |q| && c in q[i] && Separate(q)
    ensures On(TakeOff(q, i, c), x) <==> x != c && On(q, x)
  {
    TakeOffKeepsSeparate(q, i, c);
    NoDupOfSeparate(q, i);
    WithoutKeepsRest(q[i], c);
    hide Separate, NoDup;
    var T := TakeOff(q, i, c);
    if On(q, x) && x != c {
      var j :| 0 <= j < |q| && x in q[j];
      assert x in T[j];
    }
    if On(T, x) {
      var j :| 0 <= j < |T| && x in T[j];
      assert x in q[j];
    }
  }
}

/** What the scheduler's steps do to single clumps: who is woken when, who is fired by how many, who follows whom. */
module ClumpEffects {
  import opened Words
  import opened Seqs
  import opened Clumps
  import opened ClumpSteps
  import opened Mutexes
  import opened ClumpRuns

  // ---- waking ----

  /**
   A check at time now moves exactly the resting clumps whose time is now or earlier from RestQ to RunQ and clears their
   times. They go to the end of RunQ; these and the ones that keep resting stay in the order of RestQ.
  */
  lemma WakeExactly(S: Sched, now: nat)
    requires QueuesOk(S)
    ensures var T := Wake(S, now);
      && (forall c :: 0 <= c < |S.recs| ==>
            var due := c in S.q[REST] && S.recs[c].awakenTime <= now;
            && (c in T.q[RUN] <==> c in S.q[RUN] || due)
            && (c in T.q[REST] <==> c in S.q[REST] && !due)
            && T.recs[c] == if due then S.recs[c].(awakenTime := 0) else S.recs[c])
      && T.q[RUN][..|S.q[RUN]|] == S.q[RUN]
      && InOrder(T.q[RUN][|S.q[RUN]|..], S.q[REST]) && InOrder(T.q[REST], S.q[REST])
  {
    var awake := Due(S.q[REST], S.recs, now, true);
    DueMembers(S.q[REST], S.recs, now, true);
    DueMembers(S.q[REST], S.recs, now, false);
    NoDupOfSeparate(S.q, REST);
    DueInOrder(S.q[REST], S.recs, now, true);
    DueInOrder(S.q[REST], S.recs, now, false);
    hide Separate, Due, IndexOf;
    assert Wake(S, now).q[RUN] == S.q[RUN] + awake;
  }

  /** Who is on RestQ is a clump and not on RunQ, and somebody there is due exactly if the clumps due are not none. */
  lemma SomeDue(S: Sched, now: nat)
    requires QueuesOk(S)
    ensures forall c :: c in S.q[REST] ==> c < |S.recs| && c !in S.q[RUN]
    ensures Due(S.q[REST], S.recs, now, true) != [] <==> exists c :: c in S.q[REST] && S.recs[c].awakenTime <= now
  {
    var due := Due(S.q[REST], S.recs, now, true);
    DueMembers(S.q[REST], S.recs, now, true);
    forall c | c in S.q[REST] ensures c !in S.q[RUN] {
      if c in S.q[RUN] { OnlyQueue(S.q, RUN, REST, c); }
    }
    if due != [] {
      assert due[0] in due;
    }
  }

  /** r consists of elements of s, in the order of s. */
  ghost predicate InOrder(r: seq<nat>, s: seq<nat>) {
    && (forall k :: 0 <= k < |r| ==> r[k] in s)
    && forall j, k :: 0 <= j < k < |r| ==> IndexOf(s, r[j]) < IndexOf(s, r[k])
  }

  lemma {:induction false} DueInOrder(s: seq<nat>, recs: seq<ClumpRec>, now: nat, due: bool)
    requires NoDup(s)
    ensures InOrder(Due(s, recs, now, due), s)
  {
    if s != [] {
      var r := Due(s[1..], recs, now, due);
      DueInOrder(s[1..], recs, now, due);
      forall k | 0 <= k < |r| ensures r[k] in s && IndexOf(s, r[k]) == 1 + IndexOf(s[1..], r[k]) {
        assert r[k] in s[1..];
      }
    }
  }

  // ---- firing ----

  lemma {:induction false} FireLast(S: Sched, cs: seq<nat>, c: nat)
    requires |S.q| >= 2 && Below(cs, |S.recs|) && c < |S.recs|
    ensures Below(cs + [c], |S.recs|) && FireAll(S, cs + [c]) == Fire(FireAll(S, cs), c)
    decreases |cs|
  {
    hide Fire;
    assert Below(cs + [c], |S.recs|);
    if cs == [] {
      assert cs + [c] == [c];
      assert FireAll(Fire(S, c), []) == Fire(S, c);
    } else {
      assert (cs + [c])[1..] == cs[1..] + [c];
      FireLast(Fire(S, cs[0]), cs[1..], c);
    }
  }

  /** A fire count that has gone down n times in a UBYTE. */
  function Less(fireCount: int, n: int): byte {
    (fireCount - n) % 0x100
  }

  lemma LessByOne(f: int, n: int)
    ensures (Less(f, n) - 1) % 0x100 == Less(f, n + 1)
  {
  }

  lemma LessIsZero(f: int, n: int)
    requires 0 < f < 0x100 && 0 <= n < f + 0x100
    ensures Less(f, n) == 0 <==> n == f
  {
  }

  /** The clumps of cs, each where its fire count has gone down to 0. */
  function Reaching(recs: seq<ClumpRec>, cs: seq<nat>): seq<nat>
    requires Below(cs, |recs|)
  {
    if cs == [] then []
    else
      var c := cs[|cs| - 1];
      Reaching(recs, cs[..|cs| - 1]) + if Less(recs[c].fireCount, multiset(cs)[c]) == 0 then [c] else []
  }

  lemma ReachingLast(recs: seq<ClumpRec>, a: seq<nat>, c: nat)
    requires Below(a, |recs|) && c < |recs|
    ensures Below(a + [c], |recs|)
    ensures Reaching(recs, a + [c]) == Reaching(recs, a) + if Less(recs[c].fireCount, multiset(a)[c] + 1) == 0 then [c] else []
  {
    hide Less;
    var cs := a + [c];
    assert cs[..|cs| - 1] == a;
  }

  /** Every fire count goes down by the number of times that the clump is fired, and RunQ gets the clumps whose counts
      reach 0, as they do. */
  lemma {:induction false} FireAllExactly(S: Sched, cs: seq<nat>)
    requires |S.q| >= 2 && Below(cs, |S.recs|)
    ensures FireAll(S, cs).q == S.q[RUN := S.q[RUN] + Reaching(S.recs, cs)]
    ensures forall c :: 0 <= c < |S.recs| ==>
      FireAll(S, cs).recs[c] == S.recs[c].(fireCount := Less(S.recs[c].fireCount, multiset(cs)[c]))
    decreases |cs|
  {
    hide Less, Fire;
    if cs == [] {
      assert S.q[RUN] + [] == S.q[RUN];
      forall c | 0 <= c < |S.recs| ensures Less(S.recs[c].fireCount, 0) == S.recs[c].fireCount {
        NoneLess(S.recs[c].fireCount);
      }
    } else {
      hide FireAll, Reaching;
      var a, c := cs[..|cs| - 1], cs[|cs| - 1];
      assert cs == a + [c];
      FireAllExactly(S, a);
      FireLast(S, a, c);
      ReachingLast(S.recs, a, c);
      FireNext(S, FireAll(S, a), a, c, Reaching(S.recs, a));
    }
  }

  lemma NoneLess(f: byte)
    ensures Less(f, 0) == f
  {
  }

  lemma FireNext(S: Sched, T: Sched, a: seq<nat>, c: nat, r: seq<nat>)
    requires |S.q| >= 2 && c < |S.recs| && |T.recs| == |S.recs| && T.q == S.q[RUN := S.q[RUN] + r]
    requires forall x :: 0 <= x < |S.recs| ==> T.recs[x] == S.recs[x].(fireCount := Less(S.recs[x].fireCount, multiset(a)[x]))
    ensures var left := Less(S.recs[c].fireCount, multiset(a)[c] + 1);
      Fire(T, c).q == S.q[RUN := S.q[RUN] + (r + if left == 0 then [c] else [])]
    ensures forall x :: 0 <= x < |S.recs| ==>
      Fire(T, c).recs[x] == S.recs[x].(fireCount := Less(S.recs[x].fireCount, multiset(a + [c])[x]))
  {
    var n := multiset(a)[c];
    LessByOne(S.recs[c].fireCount, n);
    hide Less;
    assert S.q[RUN] + r + [c] == S.q[RUN] + (r + [c]);
    assert r + [] == r;
  }

  /** A clump that waits for f others is put on RunQ once when it is fired f times, and not when it is fired less often. */
  lemma {:induction false} ReachingOnce(recs: seq<ClumpRec>, cs: seq<nat>, c: nat)
    requires Below(cs, |recs|) && c < |recs|
    requires 0 < recs[c].fireCount && multiset(cs)[c] < recs[c].fireCount + 0x100
    ensures multiset(Reaching(recs, cs))[c] == if multiset(cs)[c] >= recs[c].fireCount then 1 else 0
    decreases |cs|
  {
    hide Less;
    if cs != [] {
      hide Reaching;
      var a, last := cs[..|cs| - 1], cs[|cs| - 1];
      assert cs == a + [last];
      ReachingOnce(recs, a, c);
      ReachingLast(recs, a, last);
      if last == c {
        LessIsZero(recs[c].fireCount, multiset(cs)[c]);
      }
    }
  }

  // ---- the head of RunQ makes way ----

  /** Finishing: the head leaves RunQ with its first fire count, and its dependents are fired. */
  lemma FinishExactly(S: Sched, cs: seq<nat>)
    requires |S.q| >= 2 && S.q[RUN] != [] && S.q[RUN][0] < |S.recs| && Below(cs, |S.recs|)
    ensures var head, T := S.q[RUN][0], Finish(S, cs);
      && T.q == S.q[RUN := S.q[RUN][1..] + Reaching(S.recs, cs)] && |T.recs| == |S.recs|
      && forall c :: 0 <= c < |S.recs| ==>
           T.recs[c] == S.recs[c].(fireCount := if c == head then S.recs[c].initFireCount
                                                else (S.recs[c].fireCount - multiset(cs)[c]) % 0x100)
  {
    HeadOff(S.q, RUN);
    FireAllExactly(S.(q := TakeOff(S.q, RUN, S.q[RUN][0])), cs);
    hide FireAll, Reaching, TakeOff;
  }

  /** Calling: the callee goes behind the other clumps of RunQ for the head, which notes it in the long form. */
  lemma CallExactly(S: Sched, d: nat, short: bool)
    requires |S.q| >= 2 && S.q[RUN] != [] && S.q[RUN][0] < |S.recs|
    ensures var head, T := S.q[RUN][0], Call(S, d, short);
      && T.q == S.q[RUN := S.q[RUN][1..] + [d]] && |T.recs| == |S.recs|
      && forall c :: 0 <= c < |S.recs| ==>
           T.recs[c] == if c == head && !short then S.recs[c].(calledClump := d) else S.recs[c]
  {
    HeadOff(S.q, RUN);
  }

  /** Returning: the caller goes behind the other clumps of RunQ for the head, which has its first fire count again. */
  lemma ReturnExactly(S: Sched, c: nat)
    requires |S.q| >= 2 && S.q[RUN] != [] && S.q[RUN][0] < |S.recs| && c < |S.recs|
    ensures var head, T := S.q[RUN][0], Return(S, c);
      && T.q == S.q[RUN := S.q[RUN][1..] + [c]] && |T.recs| == |S.recs|
      && forall x :: 0 <= x < |S.recs| ==>
           && T.recs[x].calledClump == (if x == c then NOT_A_CLUMP else S.recs[x].calledClump)
           && T.recs[x].fireCount == (if x == head then S.recs[x].initFireCount else S.recs[x].fireCount)
           && T.recs[x].initFireCount == S.recs[x].initFireCount && T.recs[x].awakenTime == S.recs[x].awakenTime
  {
    HeadOff(S.q, RUN);
  }

  /** A call and the return from it leave the caller as it was, with its turn passed. */
  lemma CallThenReturn(S: Sched, d: nat)
    requires QueuesOk(S) && |S.q[RUN]| == 1 && d < |S.recs| && !On(S.q, d)
    requires S.recs[S.q[RUN][0]].calledClump == NOT_A_CLUMP && S.recs[d].fireCount == S.recs[d].initFireCount
    ensures Call(S, d, false).q[RUN] == [d] && Return(Call(S, d, false), S.q[RUN][0]) == S
  {
    var c, T := S.q[RUN][0], Call(S, d, false);
    HeadIsOn(S);
    CallExactly(S, d, false);
    ReturnExactly(T, c);
    var U := Return(T, c);
    hide Separate, On, Call, Return;
    assert S.q[RUN] == [c] && T.q[RUN] == [d] && U.q[RUN] == [c];
    assert U.q == S.q;
    assert U.recs == S.recs;
  }

  /** Sleeping: the head goes to the end of RestQ with its time. */
  lemma SleepExactly(S: Sched, time: nat)
    requires |S.q| >= 2 && S.q[RUN] != [] && S.q[RUN][0] < |S.recs|
    ensures var head, T := S.q[RUN][0], Sleep(S, time);
      && T.q == S.q[RUN := S.q[RUN][1..]][REST := S.q[REST] + [head]]
      && T.recs == S.recs[head := S.recs[head].(awakenTime := time)]
  {
    HeadOff(S.q, RUN);
  }

  /** Acquiring: a free mutex belongs to the head, which goes on; for another one the head goes to the end of its WaitQ. */
  lemma AcquireExactly(S: Sched, m: nat)
    requires m < |S.owner| && |S.q| == |S.owner| + 2 && S.q[RUN] != []
    ensures var head, T := S.q[RUN][0], Acquire(S, m);
      if S.owner[m] == NOT_A_CLUMP then T == S.(owner := S.owner[m := head])
      else T == S.(q := S.q[RUN := S.q[RUN][1..]][m + 2 := S.q[m + 2] + [head]])
  {
    HeadOff(S.q, RUN);
  }

  /** Releasing: the first waiter owns the mutex and goes to the end of RunQ; without waiters it is free. */
  lemma ReleaseExactly(S: Sched, m: nat)
    requires m < |S.owner| && |S.q| == |S.owner| + 2
    ensures var w, T := S.q[m + 2], Release(S, m);
      if w == [] then T == S.(owner := S.owner[m := NOT_A_CLUMP])
      else T == S.(owner := S.owner[m := w[0]], q := S.q[m + 2 := w[1..]][RUN := S.q[RUN] + [w[0]]])
  {
    if S.q[m + 2] != [] {
      HeadOff(S.q, m + 2);
    }
  }

  /** At the start the clumps that wait for nobody are on RunQ, in order, and every record is fresh. */
  lemma {:induction false} ReadyExactly(fireCounts: seq<byte>, n: nat)
    requires n <= |fireCounts|
    ensures forall c :: 0 <= c ==> (c in Ready(fireCounts, n) <==> c < n && fireCounts[c] == 0)
    ensures forall j, k :: 0 <= j < k < |Ready(fireCounts, n)| ==> Ready(fireCounts, n)[j] < Ready(fireCounts, n)[k]
  {
    if n > 0 {
      ReadyExactly(fireCounts, n - 1);
    }
  }

  lemma FirstExactly(fireCounts: seq<byte>, mutexes: nat)
    ensures var S := First(fireCounts, mutexes);
      && (forall c :: 0 <= c ==> (c in S.q[RUN] <==> c < |fireCounts| && fireCounts[c] == 0))
      && |S.q| == mutexes + 2 && (forall i :: 1 <= i < |S.q| ==> S.q[i] == [])
      && S.owner == seq(mutexes, _ => 0xFF)
      && |S.recs| == |fireCounts|
      && forall c :: 0 <= c < |S.recs| ==> S.recs[c] == ClumpRec(fireCounts[c], fireCounts[c], 0, 0xFF)
  {
    ReadyExactly(fireCounts, |fireCounts|);
  }
}

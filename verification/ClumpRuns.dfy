/** What every step of the scheduler keeps, and what whole runs of it do. */
module ClumpRuns {
  import opened Words
  import opened Seqs
  import opened Clumps
  import opened ClumpSteps
  import opened Mutexes

  // ---- waking and rotating ----

  lemma SeparateOf(q: seq<seq<nat>>)
    requires forall i :: 0 <= i < |q| ==> NoDup(q[i])
    requires forall i, j, x :: 0 <= i < |q| && 0 <= j < |q| && i != j && x in q[i] ==> x !in q[j]
    ensures Separate(q)
  {
    forall i, k, i', k' | 0 <= i < |q| && 0 <= k < |q[i]| && 0 <= i' < |q| && 0 <= k' < |q[i']| && (i != i' || k != k')
      ensures q[i][k] != q[i'][k']
    {
      assert q[i][k] in q[i] && q[i'][k'] in q[i'];
    }
  }

  lemma {:induction false} DueMembers(s: seq<nat>, recs: seq<ClumpRec>, now: nat, due: bool)
    ensures forall x :: x in Due(s, recs, now, due) <==> x in s && IsDue(recs, x, now) == due
  {
    if s != [] {
      DueMembers(s[1..], recs, now, due);
    }
  }

  lemma {:induction false} DueIsNoDup(s: seq<nat>, recs: seq<ClumpRec>, now: nat, due: bool)
    requires NoDup(s)
    ensures NoDup(Due(s, recs, now, due))
  {
    if s != [] {
      DueIsNoDup(s[1..], recs, now, due);
      var r := Due(s[1..], recs, now, due);
      DueMembers(s[1..], recs, now, due);
      forall k | 0 <= k < |r| ensures r[k] != s[0] {
        assert r[k] in s[1..];
      }
    }
  }

  /** Waking moves the due clumps from RestQ to RunQ; both keep their order, and nobody else moves. */
  lemma WakeKeepsQueues(S: Sched, now: nat)
    requires QueuesOk(S)
    ensures QueuesOk(Wake(S, now)) && SameOn(S, Wake(S, now))
    ensures Wake(S, now).q[2..] == S.q[2..]
  {
    var T := Wake(S, now);
    var awake := Due(S.q[REST], S.recs, now, true);
    var asleep := Due(S.q[REST], S.recs, now, false);
    NoDupOfSeparate(S.q, REST);
    DueIsNoDup(S.q[REST], S.recs, now, true);
    DueIsNoDup(S.q[REST], S.recs, now, false);
    DueMembers(S.q[REST], S.recs, now, true);
    DueMembers(S.q[REST], S.recs, now, false);
    WakePlaces(S, T, awake, asleep);
  }

  lemma WakePlaces(S: Sched, T: Sched, awake: seq<nat>, asleep: seq<nat>)
    requires QueuesOk(S) && NoDup(awake) && NoDup(asleep) && |T.recs| == |S.recs| && T.owner == S.owner
    requires forall x :: x in awake ==> x !in asleep
    requires forall x :: x in awake || x in asleep <==> x in S.q[REST]
    requires T.q == S.q[RUN := S.q[RUN] + awake][REST := asleep]
    ensures QueuesOk(T) && SameOn(S, T)
  {
    forall i, j, x | 0 <= i < |S.q| && 0 <= j < |S.q| && x in S.q[i] && x in S.q[j] ensures i == j {
      OnlyQueue(S.q, i, j, x);
    }
    forall i | 0 <= i < |S.q| ensures NoDup(S.q[i]) {
      NoDupOfSeparate(S.q, i);
    }
    hide Separate;
    assert T.q[RUN] == S.q[RUN] + awake;
    forall a, b | 0 <= a < b < |T.q[RUN]| ensures T.q[RUN][a] != T.q[RUN][b] {
      if a < |S.q[RUN]| <= b {
        assert T.q[RUN][b] in awake;
        assert T.q[RUN][a] in S.q[RUN];
      }
    }
    SeparateOf(T.q);
    forall k | 0 <= k < |awake| ensures awake[k] < |S.recs| {
      assert awake[k] in S.q[REST];
    }
    forall k | 0 <= k < |asleep| ensures asleep[k] < |S.recs| {
      assert asleep[k] in S.q[REST];
    }
    forall x ensures On(T.q, x) <==> On(S.q, x) {
      if On(S.q, x) {
        var i :| 0 <= i < |S.q| && x in S.q[i];
        assert x in T.q[i] || x in T.q[RUN];
      }
    }
  }

  lemma DueFirst(s: seq<nat>, recs: seq<ClumpRec>, now: nat, due: bool)
    ensures s == [] ==> Due(s, recs, now, due) == []
    ensures s != [] ==>
      Due(s, recs, now, due) == (if IsDue(recs, s[0], now) == due then [s[0]] else []) + Due(s[1..], recs, now, due)
  {
  }

  /** The due clumps of a stay in front of those of b. */
  lemma {:induction false} DueKeepsOrder(a: seq<nat>, b: seq<nat>, recs: seq<ClumpRec>, now: nat, due: bool)
    ensures Due(a + b, recs, now, due) == Due(a, recs, now, due) + Due(b, recs, now, due)
  {
    hide Due, IsDue;
    if a == [] {
      assert a + b == b;
      DueFirst(a, recs, now, due);
    } else {
      assert (a + b)[1..] == a[1..] + b;
      DueFirst(a, recs, now, due);
      DueFirst(a + b, recs, now, due);
      DueKeepsOrder(a[1..], b, recs, now, due);
    }
  }

  function RotatedBy(s: seq<nat>, n: nat): (r: seq<nat>)
    ensures |r| == |s|
  {
    if n == 0 then s else Rotated(RotatedBy(s, n - 1))
  }

  lemma {:induction false} RotatedBySplits(s: seq<nat>, n: nat)
    requires n <= |s|
    ensures RotatedBy(s, n) == s[n..] + s[..n]
  {
    if n > 0 {
      RotatedBySplits(s, n - 1);
      var t := s[n - 1..] + s[..n - 1];
      if |s| >= 2 {
        assert t[0] == s[n - 1];
        assert t[1..] == s[n..] + s[..n - 1];
      }
    }
  }

  /** Every clump of RunQ is its head once in |s| rotations, in queue order, and RunQ is then as before. */
  lemma RoundRobin(s: seq<nat>)
    ensures forall k :: 0 <= k < |s| ==> RotatedBy(s, k)[0] == s[k]
    ensures RotatedBy(s, |s|) == s
  {
    forall k | 0 <= k <= |s| ensures RotatedBy(s, k) == s[k..] + s[..k] {
      RotatedBySplits(s, k);
    }
  }

  lemma RotateKeepsQueues(S: Sched)
    requires QueuesOk(S)
    ensures QueuesOk(Rotate(S)) && SameOn(S, Rotate(S))
  {
    var s := S.q[RUN];
    if |s| >= 2 {
      TakeOffKeepsQueues(S, RUN, s[0]);
      HeadOff(S.q, RUN);
      AddKeepsQueues(S.(q := TakeOff(S.q, RUN, s[0])), RUN, s[0]);
      assert Rotate(S).q == Add(TakeOff(S.q, RUN, s[0]), RUN, s[0]);
      OnAt(S.q, RUN, 0);
      hide Separate, Below, TakeOff, Add, On;
    } else {
      assert Rotate(S).q == S.q;
    }
  }

  // ---- steps ----

  datatype Op =
    | Acquires(m: nat)
    | Releases(m: nat)
    | Sleeps(time: nat)
    | Wakes(now: nat)
    | Rotates
    | Finishes(dependents: seq<nat>)
    | Calls(callee: nat, short: bool)
    | Returns(caller: nat)
    | Starts(clump: nat)
    | Stops(stopped: nat)

  /** No dependent whose fire count reaches 0 is on a queue already. */
  ghost predicate CanQueue(S: Sched, cs: seq<nat>)
    requires |S.q| >= 2 && Below(cs, |S.recs|)
    decreases |cs|
  {
    cs != [] ==> (S.recs[cs[0]].fireCount == 1 ==> !On(S.q, cs[0])) && CanQueue(Fire(S, cs[0]), cs[1..])
  }

  /** No dependent whose fire count reaches 0 waits for a clump it called. */
  ghost predicate FiresIdle(S: Sched, cs: seq<nat>)
    requires |S.q| >= 2 && Below(cs, |S.recs|)
    decreases |cs|
  {
    cs != [] ==> (S.recs[cs[0]].fireCount == 1 ==> S.recs[cs[0]].calledClump == NOT_A_CLUMP) && FiresIdle(Fire(S, cs[0]), cs[1..])
  }

  /** There is a clump to run where one is needed, and the operands name clumps and mutexes. */
  ghost predicate Possible(S: Sched, op: Op)
    requires QueuesOk(S)
  {
    match op
    case Acquires(m) => m < |S.owner| && S.q[RUN] != []
    case Releases(m) => m < |S.owner|
    case Sleeps(_) => S.q[RUN] != []
    case Wakes(_) => true
    case Rotates => true
    case Finishes(cs) => S.q[RUN] != [] && Below(cs, |S.recs|)
    case Calls(d, _) => S.q[RUN] != [] && d < |S.recs|
    case Returns(c) => S.q[RUN] != [] && c < |S.recs|
    case Starts(c) => c < |S.recs|
    case Stops(c) => c < |S.recs|
  }

  /** Nothing is put on a queue that is on one. The source asserts this for RunQ only, not for RestQ and the wait
      queues. */
  ghost predicate Linkable(S: Sched, op: Op)
    requires QueuesOk(S) && Possible(S, op)
  {
    match op
    case Finishes(cs) => CanQueue(S.(q := TakeOff(S.q, RUN, S.q[RUN][0])), cs)
    case Calls(d, _) => d == S.q[RUN][0] || !On(S.q, d)
    case Returns(c) => c == S.q[RUN][0] || !On(S.q, c)
    case _ => true
  }

  /** Besides, nobody acquires what he owns, and no suspended caller is made runnable but by returning to it. */
  ghost predicate Keeps(S: Sched, op: Op)
    requires QueuesOk(S) && Possible(S, op)
  {
    Linkable(S, op) &&
    match op
    case Acquires(m) => S.owner[m] != S.q[RUN][0]
    case Finishes(cs) => FiresIdle(S.(q := TakeOff(S.q, RUN, S.q[RUN][0])), cs)
    case Calls(d, short) => if d == S.q[RUN][0] then short else S.recs[d].calledClump == NOT_A_CLUMP
    case Starts(c) => S.recs[c].calledClump == NOT_A_CLUMP
    case _ => true
  }

  ghost predicate Safe(S: Sched, op: Op)
    requires Inv(S)
  {
    Possible(S, op) && Keeps(S, op)
  }

  ghost function Step(S: Sched, op: Op): Sched
    requires Inv(S) && Possible(S, op)
  {
    match op
    case Acquires(m) => Acquire(S, m)
    case Releases(m) => Release(S, m)
    case Sleeps(time) => Sleep(S, time)
    case Wakes(now) => Wake(S, now)
    case Rotates => Rotate(S)
    case Finishes(cs) => Finish(S, cs)
    case Calls(d, short) => Call(S, d, short)
    case Returns(c) => Return(S, c)
    case Starts(c) => Start(S, c)
    case Stops(c) => Stop(S, c)
  }

  // ---- the invariant ----

  ghost predicate SameCalls(S: Sched, T: Sched) {
    |T.recs| == |S.recs| && forall c :: 0 <= c < |S.recs| ==> T.recs[c].calledClump == S.recs[c].calledClump
  }

  /** Whoever is newly on a queue is no suspended caller. */
  ghost predicate NewOnIdle(S: Sched, T: Sched) {
    forall x: nat :: On(T.q, x) ==> On(S.q, x) || (x < |S.recs| && S.recs[x].calledClump == NOT_A_CLUMP)
  }

  lemma CallsKeep(S: Sched, T: Sched)
    requires CallersOff(S) && Acyclic(S.recs) && SameCalls(S, T) && NewOnIdle(S, T)
    ensures CallersOff(T) && Acyclic(T.recs)
  {
    hide On;
    var rank :| Ranked(S.recs, rank);
    assert Ranked(T.recs, rank);
  }

  lemma NewCallKeepsAcyclic(recs: seq<ClumpRec>, c: nat, d: nat)
    requires Acyclic(recs) && c < |recs| && d < |recs| && c != d && recs[d].calledClump == NOT_A_CLUMP
    ensures Acyclic(recs[c := recs[c].(calledClump := d)])
  {
    var rank :| Ranked(recs, rank);
    var rank' := seq(|recs|, k requires 0 <= k < |recs| => if k == d then 0 else rank[k] + 1);
    assert Ranked(recs[c := recs[c].(calledClump := d)], rank');
  }

  lemma LastReturnKeepsAcyclic(recs: seq<ClumpRec>, recs': seq<ClumpRec>)
    requires Acyclic(recs) && |recs'| == |recs|
    requires forall k :: 0 <= k < |recs| ==> recs'[k].calledClump in {recs[k].calledClump, NOT_A_CLUMP}
    ensures Acyclic(recs')
  {
    var rank :| Ranked(recs, rank);
    assert Ranked(recs', rank);
  }

  lemma HeadIsOn(S: Sched)
    requires QueuesOk(S) && S.q[RUN] != []
    ensures On(S.q, S.q[RUN][0]) && S.q[RUN][0] < |S.recs|
  {
  }

  // ---- firing dependents ----

  lemma AddStaysBroken(q: seq<seq<nat>>, i: nat, c: nat)
    requires i < |q| && !Separate(q)
    ensures !Separate(Add(q, i, c))
  {
    var j, k, j', k' :| 0 <= j < |q| && 0 <= k < |q[j]| && 0 <= j' < |q| && 0 <= k' < |q[j']| && (j != j' || k != k')
      && q[j][k] == q[j'][k'];
    var T := Add(q, i, c);
    assert T[j][k] == T[j'][k'];
  }

  lemma {:induction false} FireAllStaysBroken(S: Sched, cs: seq<nat>)
    requires |S.q| >= 2 && Below(cs, |S.recs|) && !Separate(S.q)
    ensures !Separate(FireAll(S, cs).q)
    decreases |cs|
  {
    hide Separate;
    if cs != [] {
      AddStaysBroken(S.q, RUN, cs[0]);
      FireAllStaysBroken(Fire(S, cs[0]), cs[1..]);
    }
  }

  /** Firing keeps one clump in one place exactly if a clump that is put on RunQ was on no queue. */
  lemma FireKeepsQueuesExactly(S: Sched, c: nat)
    requires QueuesOk(S) && c < |S.recs|
    ensures QueuesOk(Fire(S, c)) <==> S.recs[c].fireCount != 1 || !On(S.q, c)
    ensures QueuesOk(Fire(S, c)) <==> Separate(Fire(S, c).q)
    ensures forall x: nat :: On(S.q, x) ==> On(Fire(S, c).q, x)
    ensures forall x: nat :: On(Fire(S, c).q, x) ==> On(S.q, x) || (x == c && S.recs[c].fireCount == 1)
    ensures S.recs[c].fireCount == 1 ==> On(Fire(S, c).q, c)
  {
    hide Separate, On;
    if S.recs[c].fireCount == 1 {
      AddKeepsSeparateExactly(S.q, RUN, c);
      forall x: nat ensures On(Add(S.q, RUN, c), x) <==> x == c || On(S.q, x) {
        AddOn(S.q, RUN, c, x);
      }
    }
  }

  lemma {:induction false} FireAllKeepsQueuesExactly(S: Sched, cs: seq<nat>)
    requires QueuesOk(S) && Below(cs, |S.recs|)
    ensures QueuesOk(FireAll(S, cs)) <==> CanQueue(S, cs)
    ensures SameCalls(S, FireAll(S, cs)) && FireAll(S, cs).q[2..] == S.q[2..]
    decreases |cs|
  {
    hide Separate, On;
    if cs != [] {
      var T := Fire(S, cs[0]);
      FireKeepsQueuesExactly(S, cs[0]);
      FireAllKeepsCalls(T, cs[1..]);
      if QueuesOk(T) {
        FireAllKeepsQueuesExactly(T, cs[1..]);
      } else {
        FireAllStaysBroken(T, cs[1..]);
      }
    }
  }

  lemma {:induction false} FireAllKeepsCalls(S: Sched, cs: seq<nat>)
    requires |S.q| >= 2 && Below(cs, |S.recs|)
    ensures SameCalls(S, FireAll(S, cs)) && FireAll(S, cs).q[2..] == S.q[2..]
    ensures forall x: nat :: On(S.q, x) ==> On(FireAll(S, cs).q, x)
    decreases |cs|
  {
    hide On;
    if cs != [] {
      forall x: nat | On(S.q, x) ensures On(Fire(S, cs[0]).q, x) {
        AddOn(S.q, RUN, cs[0], x);
      }
      FireAllKeepsCalls(Fire(S, cs[0]), cs[1..]);
    }
  }

  /** Firing keeps suspended callers off the queues exactly if none is fired. */
  lemma {:induction false} FireAllKeepsCallersExactly(S: Sched, cs: seq<nat>)
    requires QueuesOk(S) && Below(cs, |S.recs|) && CallersOff(S) && CanQueue(S, cs)
    ensures CallersOff(FireAll(S, cs)) <==> FiresIdle(S, cs)
    decreases |cs|
  {
    hide Separate, On;
    if cs != [] {
      var c, T := cs[0], Fire(S, cs[0]);
      FireKeepsQueuesExactly(S, c);
      FireAllKeepsCalls(T, cs[1..]);
      if S.recs[c].fireCount == 1 && S.recs[c].calledClump != NOT_A_CLUMP {
        assert T.recs[c].calledClump == FireAll(T, cs[1..]).recs[c].calledClump;
      } else {
        FireAllKeepsCallersExactly(T, cs[1..]);
      }
    }
  }

  lemma SleepKeeps(S: Sched, time: nat)
    requires Inv(S) && S.q[RUN] != []
    ensures Inv(Sleep(S, time))
  {
    hide Separate;
    HeadIsOn(S);
    MoveKeepsQueues(S, RUN, REST, S.q[RUN][0]);
    MutexesKeep(S, Sleep(S, time));
    hide On, Add, TakeOff;
    CallsKeep(S, Sleep(S, time));
  }

  lemma AcquireKeepsExactly(S: Sched, m: nat)
    requires Inv(S) && m < |S.owner| && S.q[RUN] != []
    ensures QueuesOk(Acquire(S, m)) && (Inv(Acquire(S, m)) <==> S.owner[m] != S.q[RUN][0])
  {
    hide Separate, Below, TakeOff, OwnersOk, Acyclic;
    HeadIsOn(S);
    var c := S.q[RUN][0];
    if S.owner[m] != c {
      AcquireKeeps(S, m);
      MutexStepsKeep(S, Acquire(S, m));
    } else {
      MoveKeepsQueues(S, RUN, WAIT(m), c);
      OwnerWaits(Acquire(S, m), m);
    }
  }

  lemma OwnerWaits(S: Sched, m: nat)
    requires m < |S.owner| && |S.q| == |S.owner| + 2 && S.owner[m] in S.q[m + 2]
    ensures !OwnersOk(S)
  {
    assert OwnersOk(S) ==> MutexOk(S, m);
  }

  lemma FinishKeepsExactly(S: Sched, cs: seq<nat>)
    requires Inv(S) && Possible(S, Finishes(cs))
    ensures QueuesOk(Finish(S, cs)) <==> Linkable(S, Finishes(cs))
    ensures Inv(Finish(S, cs)) <==> Keeps(S, Finishes(cs))
    ensures Finish(S, cs).q[2..] == S.q[2..] && Finish(S, cs).owner == S.owner
  {
    hide Separate, Below, MutexOk;
    HeadIsOn(S);
    var c := S.q[RUN][0];
    var T := S.(q := TakeOff(S.q, RUN, c));
    TakeOffKeepsQueues(S, RUN, c);
    hide On, TakeOff, CanQueue, FiresIdle;
    CallsKeep(S, T);
    var F, R := FireAll(T, cs), Finish(S, cs);
    FireAllKeepsQueuesExactly(T, cs);
    assert QueuesOk(R) <==> QueuesOk(F);
    assert CallersOff(R) <==> CallersOff(F);
    MutexesKeep(S, R);
    if CanQueue(T, cs) {
      FireAllKeepsCallersExactly(T, cs);
      if CallersOff(R) {
        SameCallsAcyclic(S.recs, R.recs);
      }
    }
  }

  lemma SameCallsAcyclic(recs: seq<ClumpRec>, recs': seq<ClumpRec>)
    requires Acyclic(recs) && |recs'| == |recs|
    requires forall c :: 0 <= c < |recs| ==> recs'[c].calledClump == recs[c].calledClump
    ensures Acyclic(recs')
  {
    var rank :| Ranked(recs, rank);
    assert Ranked(recs', rank);
  }

  /** Putting a clump on RunQ for the head of it keeps one clump in one place exactly if that clump is the head or
      on no queue. */
  lemma ReplaceHead(S: Sched, d: nat)
    requires QueuesOk(S) && S.q[RUN] != [] && d < |S.recs|
    ensures S.q[RUN][0] in S.q[RUN] && On(S.q, S.q[RUN][0])
    ensures var q := Add(TakeOff(S.q, RUN, S.q[RUN][0]), RUN, d);
      && |q| == |S.q| && q[2..] == S.q[2..]
      && (QueuesOk(S.(q := q)) <==> d == S.q[RUN][0] || !On(S.q, d))
      && (QueuesOk(S.(q := q)) <==> Separate(q))
      && forall x: nat :: On(q, x) <==> x == d || (x != S.q[RUN][0] && On(S.q, x))
  {
    var c := S.q[RUN][0];
    HeadIsOn(S);
    TakeOffKeepsQueues(S, RUN, c);
    hide Separate, On, TakeOff;
    var T := S.(q := TakeOff(S.q, RUN, c));
    TakeOffAt(S.q, RUN, c);
    AddKeepsSeparateExactly(T.q, RUN, d);
    forall x: nat ensures On(Add(T.q, RUN, d), x) <==> x == d || (x != c && On(S.q, x)) {
      AddOn(T.q, RUN, d, x);
    }
  }

  lemma CallKeepsExactly(S: Sched, d: nat, short: bool)
    requires Inv(S) && Possible(S, Calls(d, short))
    ensures QueuesOk(Call(S, d, short)) <==> Linkable(S, Calls(d, short))
    ensures Inv(Call(S, d, short)) <==> Keeps(S, Calls(d, short))
    ensures Call(S, d, short).q[2..] == S.q[2..]
  {
    hide Separate, Below, MutexOk;
    HeadIsOn(S);
    var c, T := S.q[RUN][0], Call(S, d, short);
    ReplaceHead(S, d);
    hide On, TakeOff, Add;
    MutexesKeep(S, T);
    if Linkable(S, Calls(d, short)) {
      assert T.recs[d].calledClump != NOT_A_CLUMP ==> !CallersOff(T);
      if c != d && S.recs[d].calledClump == NOT_A_CLUMP && !short {
        NewCallKeepsAcyclic(S.recs, c, d);
      }
    }
  }

  lemma ReturnKeepsExactly(S: Sched, c: nat)
    requires Inv(S) && Possible(S, Returns(c))
    ensures QueuesOk(Return(S, c)) <==> Linkable(S, Returns(c))
    ensures Inv(Return(S, c)) <==> Keeps(S, Returns(c))
    ensures Return(S, c).q[2..] == S.q[2..]
  {
    hide Separate, Below, MutexOk;
    HeadIsOn(S);
    ReplaceHead(S, c);
    hide On, TakeOff, Add;
    MutexesKeep(S, Return(S, c));
    LastReturnKeepsAcyclic(S.recs, Return(S, c).recs);
  }

  lemma StartKeepsExactly(S: Sched, c: nat)
    requires Inv(S) && c < |S.recs|
    ensures QueuesOk(Start(S, c)) && (Inv(Start(S, c)) <==> S.recs[c].calledClump == NOT_A_CLUMP)
    ensures Start(S, c).q[2..] == S.q[2..]
  {
    hide Separate, Below, MutexOk;
    if !On(S.q, c) {
      AddKeepsQueues(S, RUN, c);
      MutexesKeep(S, Start(S, c));
      hide On;
      if S.recs[c].calledClump == NOT_A_CLUMP {
        CallsKeep(S, Start(S, c));
      }
    }
  }

  lemma StopKeeps(S: Sched, c: nat)
    requires Inv(S) && c < |S.recs|
    ensures Inv(Stop(S, c))
  {
    hide Separate, Below, On, Line, Cancelled, Heirs, ReleaseFrom, Drop, Holds, Callee, OwnersOk;
    var d := Callee(S.recs, c);
    StopOneEffects(S, d);
    CallsKeep(S, StopOne(S, d));
  }

  lemma MutexStepsKeep(S: Sched, T: Sched)
    requires Inv(S) && QueuesOk(T) && OwnersOk(T) && SameOn(S, T) && SameCalls(S, T)
    ensures Inv(T)
  {
    hide QueuesOk, OwnersOk, On, Acyclic;
    CallsKeep(S, T);
  }

  /** A step keeps every clump in one place exactly if it is linkable, and the whole invariant exactly if it keeps
      it. */
  lemma StepKeepsInvExactly(S: Sched, op: Op)
    requires Inv(S) && Possible(S, op)
    ensures QueuesOk(Step(S, op)) <==> Linkable(S, op)
    ensures Inv(Step(S, op)) <==> Keeps(S, op)
  {
    hide Separate, Below, On, Ranked, TakeOff, Add, CanQueue, FiresIdle, OwnersOk, SameOn;
    match op
    case Acquires(m) => AcquireKeepsExactly(S, m);
    case Releases(m) =>
      ReleaseKeeps(S, m);
      MutexStepsKeep(S, Release(S, m));
    case Sleeps(time) => SleepKeeps(S, time);
    case Wakes(now) =>
      WakeKeepsQueues(S, now);
      MutexesKeep(S, Wake(S, now));
      MutexStepsKeep(S, Wake(S, now));
    case Rotates =>
      RotateKeepsQueues(S);
      MutexesKeep(S, Rotate(S));
      MutexStepsKeep(S, Rotate(S));
    case Finishes(cs) => FinishKeepsExactly(S, cs);
    case Calls(d, short) => CallKeepsExactly(S, d, short);
    case Returns(c) => ReturnKeepsExactly(S, c);
    case Starts(c) => StartKeepsExactly(S, c);
    case Stops(c) => StopKeeps(S, c);
  }

  // ---- the first state ----

  function FirstRec(fireCount: byte): ClumpRec {
    ClumpRec(fireCount, fireCount, 0, NOT_A_CLUMP)
  }

  /** The clumps below n with fire count 0, in order. */
  function Ready(fireCounts: seq<byte>, n: nat): (r: seq<nat>)
    requires n <= |fireCounts|
    ensures Below(r, n)
  {
    if n == 0 then [] else Ready(fireCounts, n - 1) + if fireCounts[n - 1] == 0 then [n - 1] else []
  }

  lemma {:induction false} ReadyIsNoDup(fireCounts: seq<byte>, n: nat)
    requires n <= |fireCounts|
    ensures NoDup(Ready(fireCounts, n))
  {
    if n > 0 {
      ReadyIsNoDup(fireCounts, n - 1);
    }
  }

  /** RunQ holding run and nothing else going on. */
  function Idle(run: seq<nat>, mutexes: nat, recs: seq<ClumpRec>): (S: Sched)
    ensures |S.q| == mutexes + 2 && S.q[RUN] == run && |S.owner| == mutexes
    ensures forall i :: 0 < i < |S.q| ==> S.q[i] == []
  {
    Sched([run] + seq(mutexes + 1, _ => []), seq(mutexes, _ => NOT_A_CLUMP), recs)
  }

  /** The state in which a program starts. */
  function First(fireCounts: seq<byte>, mutexes: nat): Sched {
    Idle(Ready(fireCounts, |fireCounts|), mutexes, seq(|fireCounts|, c requires 0 <= c < |fireCounts| => FirstRec(fireCounts[c])))
  }

  lemma IdleIsOk(run: seq<nat>, mutexes: nat, recs: seq<ClumpRec>)
    requires NoDup(run) && Below(run, |recs|) && |recs| < NOT_A_CLUMP
    requires forall c :: 0 <= c < |recs| ==> recs[c].calledClump == NOT_A_CLUMP
    ensures Inv(Idle(run, mutexes, recs))
  {
    var S := Idle(run, mutexes, recs);
    SeparateOf(S.q);
    forall m | 0 <= m < mutexes ensures MutexOk(S, m) {
      assert S.q[m + 2] == [];
    }
    assert Ranked(recs, seq(|recs|, _ => 0));
  }

  lemma FirstIsOk(fireCounts: seq<byte>, mutexes: nat)
    requires |fireCounts| < NOT_A_CLUMP
    ensures Inv(First(fireCounts, mutexes))
  {
    ReadyIsNoDup(fireCounts, |fireCounts|);
    IdleIsOk(Ready(fireCounts, |fireCounts|), mutexes,
             seq(|fireCounts|, c requires 0 <= c < |fireCounts| => FirstRec(fireCounts[c])));
  }
}

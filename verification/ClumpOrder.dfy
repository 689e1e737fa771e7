/** Whole runs of the scheduler: queues stay lists without sharing, and mutexes are granted in order of arrival. */
module ClumpOrder {
  import opened Seqs
  import opened Clumps
  import opened ClumpSteps
  import opened Mutexes
  import opened ClumpRuns
  import opened ClumpEffects

  ghost predicate SafeRun(S: Sched, ops: seq<Op>)
    requires Inv(S)
    decreases |ops|
  {
    ops != [] ==>
      Safe(S, ops[0]) && (StepKeepsInvExactly(S, ops[0]); SafeRun(Step(S, ops[0]), ops[1..]))
  }

  ghost function Run(S: Sched, ops: seq<Op>): Sched
    requires Inv(S) && SafeRun(S, ops)
    decreases |ops|
  {
    if ops == [] then S else (StepKeepsInvExactly(S, ops[0]); Run(Step(S, ops[0]), ops[1..]))
  }

  lemma {:induction false} RunKeepsInv(S: Sched, ops: seq<Op>)
    requires Inv(S) && SafeRun(S, ops)
    ensures Inv(Run(S, ops))
    decreases |ops|
  {
    if ops != [] {
      StepKeepsInvExactly(S, ops[0]);
      RunKeepsInv(Step(S, ops[0]), ops[1..]);
    }
  }

  /** In every reachable state a waiting clump is neither runnable nor resting, and somebody else owns its mutex. */
  lemma WaitersWait(S: Sched, ops: seq<Op>, m: nat, c: nat)
    requires Inv(S) && SafeRun(S, ops) && m < |Run(S, ops).owner| && |Run(S, ops).q| == |Run(S, ops).owner| + 2
    requires c in Run(S, ops).q[m + 2]
    ensures var R := Run(S, ops);
      c !in R.q[RUN] && c !in R.q[REST] && R.owner[m] < |R.recs| && R.owner[m] != c
      && forall i :: 0 <= i < |R.q| && c in R.q[i] ==> i == m + 2
  {
    RunKeepsInv(S, ops);
    hide SafeRun, Run;
    var R := Run(S, ops);
    assert MutexOk(R, m);
    forall i | 0 <= i < |R.q| && c in R.q[i] ensures i == m + 2 {
      OnlyQueue(R.q, i, m + 2, c);
    }
  }

  // ---- mutexes are granted in order of arrival ----

  /** What one step does to the line of mutex m, in terms of who is running and what is stopped only. */
  ghost function LineAfter(S: Sched, op: Op, m: nat): seq<nat>
    requires Inv(S) && Safe(S, op) && m < |S.owner|
  {
    match op
    case Acquires(k) => if k == m then Line(S, m) + [S.q[RUN][0]] else Line(S, m)
    case Releases(k) => if k == m && Line(S, m) != [] then Line(S, m)[1..] else Line(S, m)
    case Stops(c) => Cancelled(Line(S, m), Callee(S.recs, c))
    case _ => Line(S, m)
  }

  lemma SameTailSameLine(S: Sched, T: Sched, m: nat)
    requires |S.q| == |S.owner| + 2 && T.owner == S.owner && |T.q| == |S.q| && T.q[2..] == S.q[2..] && m < |S.owner|
    ensures Line(T, m) == Line(S, m)
  {
    assert S.q[2..][m] == T.q[2..][m];
  }

  lemma LinesFollow(S: Sched, op: Op, m: nat)
    requires Inv(S) && Safe(S, op) && m < |S.owner|
    ensures |Step(S, op).owner| == |S.owner| && |Step(S, op).q| == |S.q|
    ensures Line(Step(S, op), m) == LineAfter(S, op, m)
  {
    hide Separate, Below, On, Acyclic, CanQueue, FiresIdle, OwnersOk, CallersOff, Callee, FireAll, Cancelled, Acquire,
      Release, StopOne;
    match op
    case Acquires(k) =>
      AcquireKeeps(S, k);
    case Releases(k) =>
      ReleaseKeeps(S, k);
      if k != m {
        assert SameMutex(S, Release(S, k), m);
      }
    case Stops(c) => StopOneEffects(S, Callee(S.recs, c));
    case Finishes(cs) =>
      HeadIsOn(S);
      FinishKeepsExactly(S, cs);
      SameTailSameLine(S, Finish(S, cs), m);
    case _ =>
      SameTailSameLine(S, Step(S, op), m);
  }

  /** Who asks for mutex m in a run, in order. */
  ghost function Requests(S: Sched, ops: seq<Op>, m: nat): seq<nat>
    requires Inv(S) && SafeRun(S, ops)
    decreases |ops|
  {
    if ops == [] then []
    else
      StepKeepsInvExactly(S, ops[0]);
      (if ops[0] == Acquires(m) then [S.q[RUN][0]] else []) + Requests(Step(S, ops[0]), ops[1..], m)
  }

  /** How often mutex m is released in a run while somebody owns it. */
  ghost function Releasing(S: Sched, ops: seq<Op>, m: nat): nat
    requires Inv(S) && SafeRun(S, ops) && m < |S.owner|
    decreases |ops|
  {
    if ops == [] then 0
    else
      StepKeepsInvExactly(S, ops[0]);
      LinesFollow(S, ops[0], m);
      (if ops[0] == Releases(m) && S.owner[m] != NOT_A_CLUMP then 1 else 0) + Releasing(Step(S, ops[0]), ops[1..], m)
  }

  predicate NoStops(ops: seq<Op>) {
    forall k :: 0 <= k < |ops| ==> !ops[k].Stops?
  }

  /**
   Over every run without stops, the line of a mutex is the line it had, followed by everyone who asked
   for it since, less as many from the front as there were releases by whomever while it was owned.
  */
  lemma {:induction false} GrantedInOrder(S: Sched, ops: seq<Op>, m: nat)
    requires Inv(S) && SafeRun(S, ops) && NoStops(ops) && m < |S.owner|
    ensures |Run(S, ops).owner| == |S.owner| && |Run(S, ops).q| == |S.q|
    ensures Releasing(S, ops, m) <= |Line(S, m) + Requests(S, ops, m)|
    ensures Line(Run(S, ops), m) == (Line(S, m) + Requests(S, ops, m))[Releasing(S, ops, m)..]
    decreases |ops|
  {
    hide Step, Line, Inv, Safe, Run, SafeRun, Requests, Releasing, LineAfter;
    Shape(S);
    if ops == [] {
      RunEmpty(S, m);
      assert (Line(S, m) + [])[0..] == Line(S, m);
    } else {
      var op, rest := ops[0], ops[1..];
      assert !op.Stops?;
      RunFirst(S, ops, m);
      LinesFollow(S, op, m);
      GrantedInOrder(Step(S, op), rest, m);
      GrantFirst(S, op, m, Line(Step(S, op), m), Requests(Step(S, op), rest, m), Releasing(Step(S, op), rest, m));
    }
  }

  lemma Shape(S: Sched)
    requires Inv(S)
    ensures |S.q| == |S.owner| + 2
  {
  }

  lemma RunEmpty(S: Sched, m: nat)
    requires Inv(S) && m < |S.owner|
    ensures SafeRun(S, []) && Run(S, []) == S && Requests(S, [], m) == [] && Releasing(S, [], m) == 0
  {
  }

  lemma RunFirst(S: Sched, ops: seq<Op>, m: nat)
    requires Inv(S) && SafeRun(S, ops) && ops != [] && m < |S.owner|
    ensures Safe(S, ops[0]) && Possible(S, ops[0]) && Inv(Step(S, ops[0])) && SafeRun(Step(S, ops[0]), ops[1..])
    ensures m < |Step(S, ops[0]).owner|
    ensures Run(S, ops) == Run(Step(S, ops[0]), ops[1..])
    ensures ops[0] == Acquires(m) ==> |S.q| >= 2 && S.q[RUN] != []
    ensures Requests(S, ops, m) ==
      (if ops[0] == Acquires(m) then [S.q[RUN][0]] else []) + Requests(Step(S, ops[0]), ops[1..], m)
    ensures Releasing(S, ops, m) ==
      (if ops[0] == Releases(m) && S.owner[m] != NOT_A_CLUMP then 1 else 0) + Releasing(Step(S, ops[0]), ops[1..], m)
  {
    hide Step;
    StepKeepsInvExactly(S, ops[0]);
    LinesFollow(S, ops[0], m);
  }

  lemma GrantFirst(S: Sched, op: Op, m: nat, line: seq<nat>, asked: seq<nat>, released: nat)
    requires |S.q| == |S.owner| + 2 && Inv(S) && Safe(S, op) && !op.Stops? && m < |S.owner|
    requires line == LineAfter(S, op, m) && released <= |line + asked|
    ensures op == Acquires(m) ==> S.q[RUN] != []
    ensures var asked' := (if op == Acquires(m) then [S.q[RUN][0]] else []) + asked;
      var released' := (if op == Releases(m) && S.owner[m] != NOT_A_CLUMP then 1 else 0) + released;
      released' <= |Line(S, m) + asked'| && (line + asked)[released..] == (Line(S, m) + asked')[released'..]
  {
    hide Inv, Line;
    OwnerHeadsLine(S, op, m);
    if op == Acquires(m) {
      assert Line(S, m) + ([S.q[RUN][0]] + asked) == line + asked;
    } else {
      assert [] + asked == asked;
      if op == Releases(m) && S.owner[m] != NOT_A_CLUMP {
        assert line + asked == (Line(S, m) + asked)[1..];
      }
    }
  }

  lemma OwnerHeadsLine(S: Sched, op: Op, m: nat)
    requires Inv(S) && Safe(S, op) && m < |S.owner|
    requires |S.q| == |S.owner| + 2
    ensures Line(S, m) != [] <==> S.owner[m] != NOT_A_CLUMP
    ensures op.Acquires? ==> S.q[RUN] != []
  {
  }

  /** The clump at place k of the wait queue owns the mutex after exactly k + 1 releases, and waits until then. */
  lemma WaiterOwnsAfter(S: Sched, ops: seq<Op>, m: nat, k: nat)
    requires Inv(S) && SafeRun(S, ops) && NoStops(ops) && m < |S.owner| && |S.q| == |S.owner| + 2 && k < |S.q[m + 2]|
    ensures |Run(S, ops).owner| == |S.owner| && |Run(S, ops).q| == |S.q|
    ensures Releasing(S, ops, m) == k + 1 ==> Run(S, ops).owner[m] == S.q[m + 2][k]
    ensures Releasing(S, ops, m) <= k ==>
      var place := k - Releasing(S, ops, m);
      place < |Run(S, ops).q[m + 2]| && Run(S, ops).q[m + 2][place] == S.q[m + 2][k]
  {
    hide Run, SafeRun, Requests, Releasing, Inv, NoStops, Line;
    GrantedInOrder(S, ops, m);
    LineParts(S, m);
    var n := Releasing(S, ops, m);
    var all := Line(S, m) + Requests(S, ops, m);
    if n <= k + 1 {
      assert all[n..][k + 1 - n] == S.q[m + 2][k];
      LineParts'(Run(S, ops), m);
    }
  }

  lemma LineParts(S: Sched, m: nat)
    requires Inv(S) && m < |S.owner| && |S.q| == |S.owner| + 2 && S.q[m + 2] != []
    ensures Line(S, m) == [S.owner[m]] + S.q[m + 2]
  {
    assert MutexOk(S, m);
  }

  lemma LineParts'(S: Sched, m: nat)
    requires m < |S.owner| && |S.q| == |S.owner| + 2 && Line(S, m) != []
    ensures Line(S, m) == [S.owner[m]] + S.q[m + 2]
  {
  }

  // ---- sleepers are woken in time ----

  ghost predicate Rests(S: Sched, c: nat, time: nat) {
    |S.q| >= 2 && c in S.q[REST] && c < |S.recs| && S.recs[c].awakenTime == time
  }

  /** Nobody stops c, and every check of RestQ comes before time. */
  ghost predicate Undisturbed(S: Sched, ops: seq<Op>, c: nat, time: nat)
    requires Inv(S) && SafeRun(S, ops)
    decreases |ops|
  {
    ops != [] ==>
      && (ops[0].Wakes? ==> ops[0].now < time) && (ops[0].Stops? ==> Callee(S.recs, ops[0].stopped) != c)
      && (StepKeepsInvExactly(S, ops[0]); Undisturbed(Step(S, ops[0]), ops[1..], c, time))
  }

  lemma StepRests(S: Sched, op: Op, c: nat, time: nat)
    requires Inv(S) && Safe(S, op) && Rests(S, c, time)
    requires op.Wakes? ==> op.now < time
    requires op.Stops? ==> Callee(S.recs, op.stopped) != c
    ensures Rests(Step(S, op), c, time)
  {
    hide Separate, On, OwnersOk, CallersOff, Acyclic, Callee, FireAll, Reaching, Wake, Finish, Call, Return, Sleep, Acquire,
      Release, StopOne, InOrder, CanQueue, FiresIdle, Cancelled;
    SomeDue(S, 0);
    match op
    case Acquires(m) => AcquireExactly(S, m);
    case Releases(m) => ReleaseExactly(S, m);
    case Sleeps(t) =>
      assert S.q[RUN][0] in S.q[RUN];
      SleepExactly(S, t);
    case Wakes(now) => WakeExactly(S, now);
    case Rotates =>
    case Finishes(cs) =>
      HeadIsOn(S);
      FinishExactly(S, cs);
    case Calls(d, short) =>
      HeadIsOn(S);
      CallExactly(S, d, short);
    case Returns(d) =>
      HeadIsOn(S);
      ReturnExactly(S, d);
    case Starts(d) =>
    case Stops(d) =>
      StopOneEffects(S, Callee(S.recs, d));
      OthersNotCancelled(S.q[REST], Callee(S.recs, d), c);
  }

  lemma OthersNotCancelled(s: seq<nat>, d: nat, c: nat)
    requires c in s && c != d
    ensures c in Cancelled(s, d)
  {
    if d in s {
      var i, k := IndexOf(s, d), IndexOf(s, c);
      assert Without(s, d)[if k < i then k else k - 1] == c;
    }
  }

  lemma {:induction false} RunRests(S: Sched, ops: seq<Op>, c: nat, time: nat)
    requires Inv(S) && SafeRun(S, ops) && Rests(S, c, time) && Undisturbed(S, ops, c, time)
    ensures Rests(Run(S, ops), c, time)
    decreases |ops|
  {
    hide Step, Inv, Rests, Possible, Keeps;
    if ops != [] {
      StepKeepsInvExactly(S, ops[0]);
      StepRests(S, ops[0], c, time);
      RunRests(Step(S, ops[0]), ops[1..], c, time);
    }
  }

  /**
   A clump that goes to sleep until time rests, on RestQ and not on RunQ, through any run in which nobody stops it and RestQ
   is checked at earlier times only; the next check puts it on RunQ exactly if its time has come.
  */
  lemma WokenInTime(S: Sched, time: nat, ops: seq<Op>, now: nat)
    requires Inv(S) && Possible(S, Sleeps(time)) && Inv(Step(S, Sleeps(time))) && SafeRun(Step(S, Sleeps(time)), ops)
    requires Undisturbed(Step(S, Sleeps(time)), ops, S.q[RUN][0], time)
    ensures var c, R := S.q[RUN][0], Run(Step(S, Sleeps(time)), ops);
      && Inv(R) && |R.q| >= 2 && c in R.q[REST] && c !in R.q[RUN]
      && var T := Step(R, Wakes(now));
         |T.q| >= 2 && if now >= time then c in T.q[RUN] && c !in T.q[REST] else c in T.q[REST] && c !in T.q[RUN]
  {
    hide SafeRun, Run, Undisturbed, Inv, Step, Rests;
    Shape(S);
    var c, T := S.q[RUN][0], Step(S, Sleeps(time));
    FallsAsleep(S, time);
    RunRests(T, ops, c, time);
    RunKeepsInv(T, ops);
    CheckWakes(Run(T, ops), c, time, now);
  }

  lemma FallsAsleep(S: Sched, time: nat)
    requires Inv(S) && S.q[RUN] != []
    ensures Rests(Step(S, Sleeps(time)), S.q[RUN][0], time)
  {
    hide Separate, On, OwnersOk, CallersOff, Acyclic, Sleep;
    HeadIsOn(S);
    SleepExactly(S, time);
    assert S.q[RUN][0] == Sleep(S, time).q[REST][|S.q[REST]|];
  }

  lemma CheckWakes(S: Sched, c: nat, time: nat, now: nat)
    requires Inv(S) && Rests(S, c, time)
    ensures |S.q| >= 2 && c in S.q[REST] && c !in S.q[RUN]
    ensures var T := Step(S, Wakes(now));
      |T.q| >= 2 && if now >= time then c in T.q[RUN] && c !in T.q[REST] else c in T.q[REST] && c !in T.q[RUN]
  {
    hide Separate, On, OwnersOk, CallersOff, Acyclic, InOrder, Wake;
    SomeDue(S, now);
    WakeExactly(S, now);
  }

  // ---- stopping ----

  /** Stopping c stops the last clump of the chain of calls that starts at c. */
  lemma StopFreesEverything(S: Sched, c: nat)
    requires Inv(S) && c < |S.recs|
    ensures var d := Callee(S.recs, c); var T := Stop(S, c);
      && Inv(T) && !On(T.q, d)
      && (forall m :: 0 <= m < |S.owner| ==> T.owner[m] != d)
      && (forall m :: 0 <= m < |S.owner| && S.owner[m] == d ==>
            T.owner[m] == if S.q[m + 2] == [] then NOT_A_CLUMP else S.q[m + 2][0])
      && (forall m :: 0 <= m < |S.owner| && S.owner[m] == d && S.q[m + 2] != [] ==> T.owner[m] in T.q[RUN])
      && (forall m :: 0 <= m < |S.owner| && S.owner[m] != d ==> T.owner[m] == S.owner[m])
  {
    StopKeeps(S, c);
    var d := Callee(S.recs, c);
    StopOneEffects(S, d);
    hide Separate, Below, Inv, Callee, On, ReleaseFrom, Drop, IndexOf;
    var T := Stop(S, c);
    forall m | 0 <= m < |S.owner|
      ensures !Holds(T, m, d)
      ensures T.owner[m] == if S.owner[m] != d then S.owner[m] else if S.q[m + 2] == [] then NOT_A_CLUMP else S.q[m + 2][0]
      ensures S.owner[m] == d && S.q[m + 2] != [] ==> T.owner[m] in T.q[RUN]
    {
      OwnerAfter(S, T, d, m);
    }
  }

  lemma OwnerAfter(S: Sched, T: Sched, d: nat, m: nat)
    requires QueuesOk(S) && OwnersOk(S) && OwnersOk(T) && d < |S.recs| && |T.owner| == |S.owner| && m < |S.owner|
    requires Line(T, m) == Cancelled(Line(S, m), d)
    requires T.q[RUN] == Cancelled(S.q[RUN], d) + Heirs(S, d, 0)
    ensures T.owner[m] == if S.owner[m] != d then S.owner[m] else if S.q[m + 2] == [] then NOT_A_CLUMP else S.q[m + 2][0]
    ensures S.owner[m] == d && S.q[m + 2] != [] ==> T.owner[m] in T.q[RUN]
  {
    hide Separate, Below, Heirs, Cancelled;
    assert MutexOk(S, m) && MutexOk(T, m);
    if S.owner[m] == NOT_A_CLUMP {
      assert Line(S, m) == [];
      NothingCancelled(d);
    } else {
      CancelledTail(S.owner[m], S.q[m + 2], d);
      assert Line(T, m) != [] ==> T.owner[m] == Line(T, m)[0];
      if S.owner[m] == d && S.q[m + 2] != [] {
        HeirIn(S, d, 0, m);
      }
    }
  }

  lemma NothingCancelled(c: nat)
    ensures Cancelled([], c) == []
  {
  }

  lemma {:induction false} HeirIn(S: Sched, c: nat, from: nat, m: nat)
    requires |S.q| == |S.owner| + 2 && from <= m < |S.owner| && S.owner[m] == c && S.q[m + 2] != []
    ensures S.q[m + 2][0] in Heirs(S, c, from)
    decreases m - from
  {
    if from < m {
      HeirIn(S, c, from + 1, m);
    }
  }

  // ---- what the source does not check ----

  /** Returning to a caller keeps one clump in one place exactly if nobody put the caller on a queue meanwhile. */
  lemma ReturnKeepsQueuesExactly(S: Sched, c: nat)
    requires QueuesOk(S) && S.q[RUN] != [] && c < |S.recs|
    ensures QueuesOk(Return(S, c)) <==> c == S.q[RUN][0] || !On(S.q, c)
  {
    hide Separate, On, TakeOff, Add;
    HeadIsOn(S);
    ReplaceHead(S, c);
  }

  /** Calling a clump keeps one clump in one place exactly if the callee is on no queue at all, or calls itself. */
  lemma CallKeepsQueuesExactly(S: Sched, d: nat, short: bool)
    requires QueuesOk(S) && S.q[RUN] != [] && d < |S.recs|
    ensures QueuesOk(Call(S, d, short)) <==> d == S.q[RUN][0] || !On(S.q, d)
  {
    hide Separate, On, TakeOff, Add;
    HeadIsOn(S);
    ReplaceHead(S, d);
  }

  /** A run of one step, and of one more. */
  lemma RunStep(S: Sched, op: Op, rest: seq<Op>)
    requires Inv(S) && Safe(S, op)
    ensures Inv(Step(S, op))
    ensures SafeRun(S, [op] + rest) <==> SafeRun(Step(S, op), rest)
    ensures SafeRun(S, [op] + rest) ==> Run(S, [op] + rest) == Run(Step(S, op), rest)
    ensures SafeRun(Step(S, op), []) && Run(Step(S, op), []) == Step(S, op)
  {
    hide Inv, Keeps, Possible, Step;
    StepKeepsInvExactly(S, op);
    assert ([op] + rest)[1..] == rest;
  }

  lemma HeadSleeps(S: Sched, x: nat, y: nat)
    requires Inv(S) && S.q == [[x, y], []]
    ensures Safe(S, Sleeps(5)) && Step(S, Sleeps(5)).q == [[y], [x]]
    ensures var R := Step(S, Sleeps(5));
      |R.recs| == |S.recs| && forall c :: 0 <= c < |S.recs| ==> R.recs[c].fireCount == S.recs[c].fireCount
  {
    HeadIsOn(S);
    HeadOff(S.q, RUN);
    hide Inv, Separate, Below, IndexOf, TakeOff;
    assert [x, y][1..] == [y];
    assert S.q[RUN := [y]] == [[y], []];
    assert [] + [x] == [x];
  }

  /** Two clumps that can run; the first goes to sleep and the second calls it. It is not on RunQ, as is asserted,
      but on RestQ. */
  lemma SleeperCalled()
    ensures var S := First([0, 0], 0); Inv(S) && SafeRun(S, [Sleeps(5)])
    ensures var R := Run(First([0, 0], 0), [Sleeps(5)]);
      Inv(R) && R.q == [[1], [0]] && Possible(R, Calls(0, false)) && 0 !in R.q[RUN] && !QueuesOk(Step(R, Calls(0, false)))
  {
    hide Inv, First, Step, Safe, SafeRun, Run, Keeps, QueuesOk;
    var S := First([0, 0], 0);
    FirstIsOk([0, 0], 0);
    TwoReady();
    HeadSleeps(S, 0, 1);
    RunStep(S, Sleeps(5), []);
    var R := Step(S, Sleeps(5));
    assert [Sleeps(5)] + [] == [Sleeps(5)];
    RestsOnly(R, 0, 1);
    StepKeepsInvExactly(R, Calls(0, false));
  }

  lemma RestsOnly(R: Sched, x: nat, y: nat)
    requires Inv(R) && R.q == [[y], [x]] && |R.recs| == 2 && x < 2 && y < 2 && x != y
    ensures QueuesOk(R) && Possible(R, Calls(x, false)) && !Linkable(R, Calls(x, false))
  {
    assert x in R.q[REST];
  }

  lemma TwoReady()
    ensures First([0, 0], 0).q == [[0, 1], []] && |First([0, 0], 0).recs| == 2
  {
    assert Ready([0, 0], 1) == [0];
    assert Ready([0, 0], 2) == [0, 1];
  }

  lemma Joins(S: Sched)
    requires Inv(S) && S.q == [[0], []] && |S.recs| == 2 && S.recs[1].calledClump == NOT_A_CLUMP
    ensures Safe(S, Starts(1)) && Step(S, Starts(1)).q == [[0, 1], []] && Step(S, Starts(1)).recs == S.recs
  {
    hide Inv, Separate;
    assert !On(S.q, 1);
    assert [0] + [1] == [0, 1];
    assert Add(S.q, RUN, 1) == [[0, 1], []];
    InvHasQueues(S);
  }

  lemma InvHasQueues(S: Sched)
    requires Inv(S)
    ensures QueuesOk(S)
  {
  }

  lemma TwoRotate(S: Sched)
    requires Inv(S) && S.q == [[0, 1], []]
    ensures Safe(S, Rotates) && Step(S, Rotates).q == [[1, 0], []] && Step(S, Rotates).recs == S.recs
  {
    assert [0, 1][1..] + [0] == [1, 0];
    assert S.q[RUN := [1, 0]] == [[1, 0], []];
  }

  /** The second of two clumps, of fire count 1, is started and goes to sleep; the first finishes and fires it. */
  lemma SleeperFired()
    ensures var S := First([0, 1], 0); Inv(S) && SafeRun(S, [Starts(1), Rotates, Sleeps(5)])
    ensures var R := Run(First([0, 1], 0), [Starts(1), Rotates, Sleeps(5)]);
      Inv(R) && R.q == [[0], [1]] && Possible(R, Finishes([1])) && 1 !in R.q[RUN] && !QueuesOk(Step(R, Finishes([1])))
  {
    hide Inv, First, Step, Safe, SafeRun, Run, Keeps, QueuesOk;
    var S := First([0, 1], 0);
    FirstIsOk([0, 1], 0);
    OneReady();
    Joins(S);
    RunStep(S, Starts(1), [Rotates, Sleeps(5)]);
    var T := Step(S, Starts(1));
    TwoRotate(T);
    RunStep(T, Rotates, [Sleeps(5)]);
    var U := Step(T, Rotates);
    HeadSleeps(U, 1, 0);
    RunStep(U, Sleeps(5), []);
    assert [Sleeps(5)] + [] == [Sleeps(5)] && [Rotates] + [Sleeps(5)] == [Rotates, Sleeps(5)];
    assert [Starts(1)] + [Rotates, Sleeps(5)] == [Starts(1), Rotates, Sleeps(5)];
    FiredAlone(Step(U, Sleeps(5)));
  }

  lemma OneReady()
    ensures First([0, 1], 0).q == [[0], []] && First([0, 1], 0).recs == [FirstRec(0), FirstRec(1)]
  {
    assert Ready([0, 1], 1) == [0];
    assert Ready([0, 1], 2) == [0];
  }

  lemma FiredAlone(R: Sched)
    requires Inv(R) && R.q == [[0], [1]] && |R.recs| == 2 && R.recs[1].fireCount == 1
    ensures Possible(R, Finishes([1])) && !QueuesOk(Step(R, Finishes([1])))
  {
    InvHasQueues(R);
    hide Inv;
    HeadOff(R.q, RUN);
    var T := R.(q := TakeOff(R.q, RUN, 0));
    assert T.q == [[], [1]];
    assert 1 in T.q[REST];
    StepKeepsInvExactly(R, Finishes([1]));
  }

  lemma CallQueues(S: Sched, d: nat)
    requires |S.q| >= 2 && S.q[RUN] != [] && S.q[RUN][0] < |S.recs|
    ensures Call(S, d, false).q == S.q[RUN := S.q[RUN][1..] + [d]]
    ensures Call(S, d, false).owner == S.owner && |Call(S, d, false).recs| == |S.recs|
    ensures d < |S.recs| ==> Return(S, d).q == S.q[RUN := S.q[RUN][1..] + [d]]
  {
    HeadOff(S.q, RUN);
  }

  /** Two clumps, 0 calling 1; clump 1 starts clump 0 before it returns to it. */
  lemma RestartedCaller(r: ClumpRec, S: Sched)
    requires r == ClumpRec(0, 0, 0, NOT_A_CLUMP) && S == Sched([[0], []], [], [r, r])
    ensures Inv(S) && Safe(S, Calls(1, false))
    ensures var T := Start(Call(S, 1, false), 0); T.q[RUN] == [1, 0] && !QueuesOk(Return(T, 0))
  {
    hide Call, IndexOf, Separate, Inv, QueuesOk, Return, Start;
    TwoClumps(r, S);
    CallQueues(S, 1);
    var C := Call(S, 1, false);
    assert S.q[RUN][1..] + [1] == [1];
    assert C.q == S.q[RUN := [1]];
    assert C.q[0] == [1] && C.q[1] == [] && |C.q| == 2;
    assert C.q == [[1], []];
    RestartedAfterCall(C);
  }

  lemma TwoClumps(r: ClumpRec, S: Sched)
    requires r == ClumpRec(0, 0, 0, NOT_A_CLUMP) && S == Sched([[0], []], [], [r, r])
    ensures Inv(S) && Safe(S, Calls(1, false))
  {
    assert Ranked(S.recs, [0, 0]);
  }

  lemma RestartedAfterCall(C: Sched)
    requires C.q == [[1], []] && C.owner == [] && |C.recs| == 2
    ensures var T := Start(C, 0); T.q[RUN] == [1, 0] && !QueuesOk(Return(T, 0))
  {
    hide IndexOf;
    var T := Start(C, 0);
    assert !On(C.q, 0);
    assert T.q[RUN] == [1] + [0];
    CallQueues(T, 0);
    assert Return(T, 0).q[RUN][0] == Return(T, 0).q[RUN][1];
  }
}

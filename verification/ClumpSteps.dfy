/**
 The scheduler's operations as functions on values. Mutexes, ClumpRuns and ClumpOrder prove what they keep.
*/
module ClumpSteps {
  import opened Seqs
  import opened Clumps

  /** A free mutex has no waiters, and the owner of a mutex does not wait for it. */
  ghost predicate MutexOk(S: Sched, m: nat)
    requires m < |S.owner| && |S.q| == |S.owner| + 2
  {
    (S.owner[m] == NOT_A_CLUMP ==> S.q[m + 2] == []) && S.owner[m] !in S.q[m + 2]
  }

  ghost predicate OwnersOk(S: Sched) {
    |S.q| == |S.owner| + 2 && forall m :: 0 <= m < |S.owner| ==> MutexOk(S, m)
  }

  /** A clump that has called another one is on no queue. */
  ghost predicate CallersOff(S: Sched) {
    forall c :: 0 <= c < |S.recs| && S.recs[c].calledClump != NOT_A_CLUMP ==> !On(S.q, c)
  }

  /** rank falls along every call. */
  ghost predicate Ranked(recs: seq<ClumpRec>, rank: seq<nat>) {
    && |rank| == |recs|
    && forall c :: 0 <= c < |recs| && recs[c].calledClump != NOT_A_CLUMP ==>
         recs[c].calledClump < |recs| && rank[recs[c].calledClump] < rank[c]
  }

  ghost predicate Acyclic(recs: seq<ClumpRec>) {
    exists rank :: Ranked(recs, rank)
  }

  ghost predicate Inv(S: Sched) {
    QueuesOk(S) && OwnersOk(S) && CallersOff(S) && Acyclic(S.recs)
  }

  // ---- mutexes ----

  function Move(S: Sched, i: nat, j: nat, c: nat): (r: Sched)
    requires i < |S.q| && j < |S.q| && c in S.q[i]
    ensures |r.q| == |S.q| && r.owner == S.owner && r.recs == S.recs
  {
    S.(q := Add(TakeOff(S.q, i, c), j, c))
  }

  /** cCmdAcquireMutex, for the clump at the head of RunQ. */
  function Acquire(S: Sched, m: nat): (r: Sched)
    requires m < |S.owner| && |S.q| == |S.owner| + 2 && S.q[RUN] != []
    ensures |r.q| == |S.q| && |r.owner| == |S.owner| && r.recs == S.recs
  {
    if S.owner[m] == NOT_A_CLUMP then S.(owner := S.owner[m := S.q[RUN][0]])
    else Move(S, RUN, WAIT(m), S.q[RUN][0])
  }

  /** cCmdReleaseMutex. */
  function Release(S: Sched, m: nat): (r: Sched)
    requires m < |S.owner| && |S.q| == |S.owner| + 2
    ensures |r.q| == |S.q| && |r.owner| == |S.owner| && r.recs == S.recs
  {
    if S.q[WAIT(m)] == [] then S.(owner := S.owner[m := NOT_A_CLUMP])
    else Move(S.(owner := S.owner[m := S.q[WAIT(m)][0]]), WAIT(m), RUN, S.q[WAIT(m)][0])
  }

  /** cCmdReleaseAllMutexes from mutex m on; found says that the clump was met on a WaitQ before. */
  function ReleaseFrom(S: Sched, c: nat, m: nat, found: bool): (r: Sched)
    requires m <= |S.owner| && |S.q| == |S.owner| + 2
    ensures |r.q| == |S.q| && |r.owner| == |S.owner| && r.recs == S.recs
    decreases |S.owner| - m
  {
    if m == |S.owner| then S
    else
      var T := if S.owner[m] == c then Release(S, m) else S;
      if !found && c in T.q[WAIT(m)] then ReleaseFrom(Move(T, WAIT(m), RUN, c), c, m + 1, true)
      else ReleaseFrom(T, c, m + 1, found)
  }

  function Drop(q: seq<seq<nat>>, c: nat): (r: seq<seq<nat>>)
    requires |q| >= 2
    ensures |r| == |q|
  {
    if c in q[RUN] then TakeOff(q, RUN, c) else if c in q[REST] then TakeOff(q, REST, c) else q
  }

  function Reset(r: ClumpRec): ClumpRec {
    r.(fireCount := r.initFireCount, awakenTime := 0)
  }

  /** cCmdStopClump for a clump with no active callee. */
  function StopOne(S: Sched, c: nat): (r: Sched)
    requires |S.q| == |S.owner| + 2 && c < |S.recs|
    ensures |r.q| == |S.q| && |r.owner| == |S.owner| && |r.recs| == |S.recs|
  {
    var T := ReleaseFrom(S, c, 0, false);
    T.(q := Drop(T.q, c), recs := T.recs[c := Reset(T.recs[c])])
  }

  /** The end of the chain of calls that starts at c. */
  ghost function LastCallee(recs: seq<ClumpRec>, c: nat, rank: seq<nat>): (d: nat)
    requires Ranked(recs, rank) && c < |recs|
    ensures d < |recs| && recs[d].calledClump == NOT_A_CLUMP
    decreases rank[c]
  {
    if recs[c].calledClump == NOT_A_CLUMP then c else LastCallee(recs, recs[c].calledClump, rank)
  }

  lemma {:induction false} LastCalleeIsOne(recs: seq<ClumpRec>, c: nat, rank: seq<nat>, rank': seq<nat>)
    requires Ranked(recs, rank) && Ranked(recs, rank') && c < |recs|
    ensures LastCallee(recs, c, rank) == LastCallee(recs, c, rank')
    decreases rank[c]
  {
    if recs[c].calledClump != NOT_A_CLUMP {
      LastCalleeIsOne(recs, recs[c].calledClump, rank, rank');
    }
  }

  /** The clump that stopping c acts on. */
  ghost function Callee(recs: seq<ClumpRec>, c: nat): (d: nat)
    requires c < |recs| && Acyclic(recs)
    ensures d < |recs| && recs[d].calledClump == NOT_A_CLUMP
  {
    var rank :| Ranked(recs, rank);
    LastCallee(recs, c, rank)
  }

  /** cCmdStopClump. */
  ghost function Stop(S: Sched, c: nat): (r: Sched)
    requires |S.q| == |S.owner| + 2 && c < |S.recs| && Acyclic(S.recs)
    ensures |r.q| == |S.q| && |r.owner| == |S.owner| && |r.recs| == |S.recs|
  {
    StopOne(S, Callee(S.recs, c))
  }

  // ---- sleeping and waking ----

  /** cCmdSleepClump. */
  function Sleep(S: Sched, time: nat): (r: Sched)
    requires |S.q| >= 2 && S.q[RUN] != [] && S.q[RUN][0] < |S.recs|
  {
    var c := S.q[RUN][0];
    Move(S, RUN, REST, c).(recs := S.recs[c := S.recs[c].(awakenTime := time)])
  }

  predicate IsDue(recs: seq<ClumpRec>, c: nat, now: nat) {
    c < |recs| && recs[c].awakenTime <= now
  }

  /** The clumps of s whose time has come if due, else the others, in the order of s. */
  function Due(s: seq<nat>, recs: seq<ClumpRec>, now: nat, due: bool): (r: seq<nat>)
    ensures |r| <= |s|
  {
    if s == [] then [] else (if IsDue(recs, s[0], now) == due then [s[0]] else []) + Due(s[1..], recs, now, due)
  }

  function Woken(recs: seq<ClumpRec>, awake: seq<nat>): (r: seq<ClumpRec>)
    ensures |r| == |recs|
  {
    seq(|recs|, k requires 0 <= k < |recs| => if k in awake then recs[k].(awakenTime := 0) else recs[k])
  }

  /** cCmdCheckRestQ. */
  function Wake(S: Sched, now: nat): (r: Sched)
    requires |S.q| >= 2
    ensures |r.q| == |S.q| && r.owner == S.owner && |r.recs| == |S.recs|
  {
    var awake := Due(S.q[REST], S.recs, now, true);
    S.(q := S.q[RUN := S.q[RUN] + awake][REST := Due(S.q[REST], S.recs, now, false)], recs := Woken(S.recs, awake))
  }

  /** cCmdRotateQ. */
  function Rotated(s: seq<nat>): (r: seq<nat>)
    ensures |r| == |s|
  {
    if |s| < 2 then s else s[1..] + [s[0]]
  }

  function Rotate(S: Sched): Sched
    requires |S.q| >= 2
  {
    S.(q := S.q[RUN := Rotated(S.q[RUN])])
  }

  // ---- starting, calling and finishing ----

  /** One clump's fire count goes down in a UBYTE; at 0 the clump is put on RunQ. */
  function Fire(S: Sched, c: nat): (r: Sched)
    requires |S.q| >= 2 && c < |S.recs|
    ensures |r.q| == |S.q| && r.owner == S.owner && |r.recs| == |S.recs|
  {
    var left := (S.recs[c].fireCount - 1) % 0x100;
    S.(q := if left == 0 then Add(S.q, RUN, c) else S.q, recs := S.recs[c := S.recs[c].(fireCount := left)])
  }

  /** cCmdSchedDependents. */
  function FireAll(S: Sched, cs: seq<nat>): (r: Sched)
    requires |S.q| >= 2 && Below(cs, |S.recs|)
    ensures |r.q| == |S.q| && r.owner == S.owner && |r.recs| == |S.recs|
    decreases |cs|
  {
    if cs == [] then S else FireAll(Fire(S, cs[0]), cs[1..])
  }

  /** OP_FINCLUMP and OP_FINCLUMPIMMED. */
  function Finish(S: Sched, cs: seq<nat>): (r: Sched)
    requires |S.q| >= 2 && S.q[RUN] != [] && S.q[RUN][0] < |S.recs| && Below(cs, |S.recs|)
  {
    var c := S.q[RUN][0];
    var T := FireAll(S.(q := TakeOff(S.q, RUN, c)), cs);
    T.(recs := T.recs[c := T.recs[c].(fireCount := T.recs[c].initFireCount)])
  }

  /** OP_SUBCALL; the short form does not note the callee. */
  function Call(S: Sched, d: nat, short: bool): Sched
    requires |S.q| >= 2 && S.q[RUN] != [] && S.q[RUN][0] < |S.recs|
  {
    var c := S.q[RUN][0];
    S.(q := Add(TakeOff(S.q, RUN, c), RUN, d), recs := if short then S.recs else S.recs[c := S.recs[c].(calledClump := d)])
  }

  /** OP_SUBRET to caller c. */
  function Return(S: Sched, c: nat): Sched
    requires |S.q| >= 2 && S.q[RUN] != [] && S.q[RUN][0] < |S.recs| && c < |S.recs|
  {
    var d := S.q[RUN][0];
    var recs := S.recs[c := S.recs[c].(calledClump := NOT_A_CLUMP)];
    S.(q := Add(TakeOff(S.q, RUN, d), RUN, c), recs := recs[d := recs[d].(fireCount := recs[d].initFireCount)])
  }

  /** OP_STARTCLUMPIMMED: nothing happens if the clump is on a queue. */
  ghost function Start(S: Sched, c: nat): Sched
    requires |S.q| >= 2
  {
    if On(S.q, c) then S else S.(q := Add(S.q, RUN, c))
  }
}

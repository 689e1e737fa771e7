/** The scheduler as the virtual machine keeps it: RunQ, RestQ and all WaitQs share the Link field of the clumps. */
module Schedulers {
  import opened Words
  import opened Seqs
  import opened Clumps
  import opened ClumpSteps
  import opened Mutexes
  import opened ClumpRuns
  import opened ClumpEffects
  import opened Threads
  import opened Wakings

  /** clumpScalarDispatchHints: which of a clump's polymorphic instructions have scalar arguments only. */
  datatype Hints = Hints(scalarBinop: bool, scalarUnop2: bool)

  class Scheduler {
    const link: array<nat>
    const head: array<nat>
    const tail: array<nat>
    const owner: array<nat>
    const recs: array<ClumpRec>
    const hints: seq<Hints>
    /** InterpFuncs[8] and InterpFuncs[6] are the scalar interpreters. */
    var dispatch: Hints
    ghost var q: seq<seq<nat>>

    ghost predicate Shape()
      reads this
    {
      && link != head && link != tail && link != owner && head != tail && head != owner && tail != owner
      && link.Length == recs.Length == |hints| && head.Length == tail.Length == owner.Length + 2 == |q|
    }

    ghost function View(): Sched
      reads this, owner, recs
    {
      Sched(q, owner[..], recs[..])
    }

    /** The interpreters in use are those of the clump at the head of RunQ. */
    ghost predicate DispatchOk()
      reads this
    {
      |q| >= 2 && (q[RUN] != [] ==> q[RUN][0] < |hints| && dispatch == hints[q[RUN][0]])
    }

    ghost predicate Valid()
      reads this, link, head, tail, owner, recs
    {
      Shape() && ThreadsOk(link[..], head[..], tail[..], q) && QueuesOk(View()) && DispatchOk()
    }

    /** The clump part of cCmdActivateProgram: the clumps with fire count 0 are put on RunQ. */
    constructor (fireCounts: seq<byte>, mutexes: nat, clumpHints: seq<Hints>)
      requires |fireCounts| == |clumpHints| < NOT_A_CLUMP
      ensures Valid() && View() == First(fireCounts, mutexes) && Inv(View()) && hints == clumpHints
      ensures fresh(link) && fresh(head) && fresh(tail) && fresh(owner) && fresh(recs)
    {
      hints := clumpHints;
      link := new nat[|fireCounts|](_ => NOT_A_CLUMP);
      head := new nat[mutexes + 2](_ => NOT_A_CLUMP);
      tail := new nat[mutexes + 2](_ => NOT_A_CLUMP);
      owner := new nat[mutexes](_ => NOT_A_CLUMP);
      recs := new ClumpRec[|fireCounts|](c requires 0 <= c < |fireCounts| => FirstRec(fireCounts[c]));
      dispatch := Hints(false, false);
      q := Idle([], mutexes, []).q;
      new;
      ghost var S := First(fireCounts, mutexes);
      FirstIsOk(fireCounts, mutexes);
      assert owner[..] == S.owner && recs[..] == S.recs;
      NothingQueued(link[..], head[..], tail[..], q);
      IdleIsOk([], mutexes, recs[..]);
      assert View() == Idle([], mutexes, recs[..]);
      EnQReady(fireCounts, mutexes);
    }

    method EnQReady(fireCounts: seq<byte>, mutexes: nat)
      requires Valid() && |fireCounts| == link.Length && q == Idle([], mutexes, recs[..]).q
      modifies link, head, tail, `q, `dispatch
      ensures Valid() && q == Idle(Ready(fireCounts, |fireCounts|), mutexes, recs[..]).q
    {
      hide ThreadsOk, QueuesOk, Separate, Idle, Ready, Add, On, DispatchOk;
      ghost var all := recs[..];
      NoneReady(fireCounts);
      for i := 0 to |fireCounts|
        invariant Valid() && q == Idle(Ready(fireCounts, i), mutexes, all).q
        modifies link, head, tail, `q, `dispatch
      {
        ReadyNext(fireCounts, i, mutexes, all);
        if fireCounts[i] == 0 {
          EnQClump(RUN, i);
        }
      }
    }

    /** cCmdRefreshActiveClump. */
    method RefreshActiveClump(c: nat)
      requires c < |hints|
      modifies `dispatch
      ensures dispatch == hints[c]
    {
      if hints[c].scalarBinop {
        dispatch := dispatch.(scalarBinop := true);
      } else {
        dispatch := dispatch.(scalarBinop := false);
      }
      if hints[c].scalarUnop2 {
        dispatch := dispatch.(scalarUnop2 := true);
      } else {
        dispatch := dispatch.(scalarUnop2 := false);
      }
    }

    /** cCmdEnQClump. */
    method EnQClump(i: nat, c: nat)
      requires Valid() && i < head.Length && c < link.Length && !On(q, c)
      modifies link, head, tail, `q, `dispatch
      ensures Valid() && q == Add(old(q), i, c)
    {
      hide Separate, On, Threaded;
      Appended(link[..], head[..], tail[..], q, i, c);
      AddKeepsQueues(View(), i, c);
      EmptyIff(i);
      ghost var wanted := if q[i] == [] then link[..][c := NOT_A_CLUMP] else link[..][c := NOT_A_CLUMP][tail[i] := c];
      link[c] := NOT_A_CLUMP;
      if head[i] == NOT_A_CLUMP {
        assert tail[i] == NOT_A_CLUMP;
        head[i] := c;
        tail[i] := c;
        if i == RUN {
          RefreshActiveClump(c);
        }
      } else {
        link[tail[i]] := c;
        tail[i] := c;
      }
      q := Add(q, i, c);
      assert link[..] == wanted;
    }

    lemma EmptyIff(i: nat)
      requires Valid() && i < head.Length
      ensures q[i] == [] <==> head[i] == NOT_A_CLUMP
      ensures q[i] == [] <==> tail[i] == NOT_A_CLUMP
      ensures q[i] != [] ==> head[i] == q[i][0] < link.Length && tail[i] == q[i][|q[i]| - 1] < link.Length
    {
      assert Threaded(link[..], head[i], tail[i], q[i]);
      hide Separate;
    }

    /** The link of the clump at place k of queue i leads to place k + 1, or nowhere. */
    lemma NextOn(i: nat, k: nat)
      requires Valid() && i < head.Length && k < |q[i]|
      ensures q[i][k] < link.Length && q[i][k] != NOT_A_CLUMP
      ensures link[q[i][k]] == if k + 1 < |q[i]| then q[i][k + 1] else NOT_A_CLUMP
    {
      assert Threaded(link[..], head[i], tail[i], q[i]);
      hide Separate;
      assert link[..][q[i][k]] == link[q[i][k]];
    }

    lemma HeadOfRunQ(k: nat)
      requires Valid() && k < |q[RUN]|
      ensures q[RUN][k] < |hints|
    {
      NextOn(RUN, k);
    }

    /** Unless the head of RunQ changes, the interpreters in use stay right. */
    lemma DispatchKept(i: nat, p: nat)
      requires Valid() && i < head.Length && p < |q[i]| && (i == RUN ==> p > 0)
      ensures var r := TakeOff(q, i, q[i][p]);
        r[RUN] != [] ==> r[RUN][0] < |hints| && dispatch == hints[r[RUN][0]]
    {
      NoDupOfSeparate(q, i);
      IndexIs(q[i], p);
      TakeOffAt(q, i, q[i][p]);
    }

    /** The first branch of cCmdDeQClump. */
    method DeQHead(i: nat, c: nat)
      requires Valid() && i < head.Length && q[i] != [] && q[i][0] == c
      modifies link, head, tail, `q, `dispatch
      ensures Valid() && q == TakeOff(old(q), i, c)
    {
      hide Separate, On, Threaded, ThreadsOk, QueuesOk, LinkWithout;
      ghost var s, links := q[i], link[..];
      Removed(link[..], head[..], tail[..], q, i, 0);
      TakeOffKeepsQueues(View(), i, c);
      EmptyIff(i);
      NextOn(i, 0);
      OnlyOne(i);
      HeadOff(q, i);
      if |s| > 1 {
        NextOn(i, 1);
      }
      if i != RUN {
        DispatchKept(i, 0);
      } else if |s| > 1 {
        HeadOfRunQ(1);
      }
      ghost var heads, tails := head[..][i := links[c]], tail[..][i := TailWithout(tail[i], s, 0)];
      LinkWithoutHead(links, s);
      head[i] := link[c];
      link[c] := NOT_A_CLUMP;
      if head[i] == NOT_A_CLUMP {
        tail[i] := NOT_A_CLUMP;
      } else if i == RUN {
        RefreshActiveClump(head[i]);
      }
      q := TakeOff(q, i, c);
      assert link[..] == links[c := NOT_A_CLUMP] && head[..] == heads && tail[..] == tails;
    }

    lemma OnlyOne(i: nat)
      requires Valid() && i < head.Length && q[i] != []
      ensures q[i][0] == tail[i] <==> |q[i]| == 1
    {
      EmptyIff(i);
      NoDupOfSeparate(q, i);
    }

    /** The loop of cCmdDeQClump; it goes on over the clump it has just unlinked, which leads nowhere any more. */
    method DeQInside(i: nat, c: nat, ghost p: nat)
      requires Valid() && i < head.Length && 0 < p < |q[i]| && q[i][p] == c
      modifies link, tail, `q
      ensures Valid() && q == TakeOff(old(q), i, c)
    {
      hide Separate, On, Threaded, ThreadsOk, QueuesOk, NoDup;
      ghost var s := q[i];
      Removed(link[..], head[..], tail[..], q, i, p);
      TakeOffKeepsQueues(View(), i, c);
      EmptyIff(i);
      NextOn(i, 0);
      DispatchKept(i, p);
      Place(i, p);
      ghost var links, tails := LinkWithout(link[..], s, p), tail[..][i := TailWithout(tail[i], s, p)];
      ghost var heads := head[..][i := HeadWithout(link[..], head[i], s, p)];
      assert heads == head[..];
      var curr := head[i];
      ghost var k := 0;
      while curr != NOT_A_CLUMP
        invariant k <= p + 1 && (curr == NOT_A_CLUMP ==> k == p + 1)
        invariant k < p ==> Valid() && link[..] == old(link[..]) && tail[..] == old(tail[..]) && curr == s[k]
        invariant k >= p ==> link[..] == links && tail[..] == tails && curr == (if k == p then c else NOT_A_CLUMP)
        modifies link, tail
        decreases p + 1 - k
      {
        if k < p {
          NextOn(i, k);
          NextOn(i, k + 1);
          NextOn(i, p);
        }
        var next := link[curr];
        if link[curr] == c {
          link[curr] := link[c];
          link[c] := NOT_A_CLUMP;
          if c == tail[i] {
            tail[i] := curr;
          }
        }
        curr := next;
        k := k + 1;
      }
      q := TakeOff(q, i, c);
      assert head[..] == heads && link[..] == links && tail[..] == tails;
    }

    lemma Place(i: nat, p: nat)
      requires Valid() && i < head.Length && p < |q[i]|
      ensures forall k :: 0 <= k < |q[i]| && k != p ==> q[i][k] != q[i][p]
    {
    }

    /** cCmdDeQClump. */
    method DeQClump(i: nat, c: nat)
      requires Valid() && i < head.Length && c in q[i]
      modifies link, head, tail, `q, `dispatch
      ensures Valid() && q == TakeOff(old(q), i, c)
    {
      hide ThreadsOk, QueuesOk, DispatchOk, TakeOff;
      EmptyIff(i);
      if head[i] == c {
        DeQHead(i, c);
      } else {
        DeQInside(i, c, IndexOf(q[i], c));
      }
    }

    /** cCmdIsClumpOnQ. */
    method IsClumpOnQ(i: nat, c: nat) returns (on: bool)
      requires Valid() && i < head.Length
      ensures on <==> c in q[i]
    {
      hide ThreadsOk, QueuesOk;
      EmptyIff(i);
      var curr := head[i];
      ghost var k := 0;
      while curr != NOT_A_CLUMP
        invariant k <= |q[i]| && c !in q[i][..k]
        invariant curr == if k < |q[i]| then q[i][k] else NOT_A_CLUMP
        decreases |q[i]| - k
      {
        if curr == c {
          return true;
        }
        NextOn(i, k);
        curr := link[curr];
        k := k + 1;
      }
      if k < |q[i]| {
        NextOn(i, k);
      }
      on := false;
    }

    /** cCmdRotateQ. */
    method RotateQ()
      requires Valid()
      modifies link, head, tail, `q, `dispatch
      ensures Valid() && q == Rotate(old(View())).q
    {
      hide ThreadsOk, QueuesOk;
      EmptyIff(RUN);
      if head[RUN] != tail[RUN] {
        var curr := head[RUN];
        ghost var s := q[RUN];
        OnlyOneOrNone();
        RotatedLists(link[..], head[..], tail[..], q, RUN);
        HeadOfRunQ(1);
        RotateKeepsQueues(View());
        ghost var links := link[..][curr := NOT_A_CLUMP][tail[RUN] := curr];
        ghost var heads, tails := head[..][RUN := s[1]], tail[..][RUN := curr];
        head[RUN] := link[curr];
        link[curr] := NOT_A_CLUMP;
        link[tail[RUN]] := curr;
        tail[RUN] := curr;
        RefreshActiveClump(head[RUN]);
        q := q[RUN := s[1..] + [s[0]]];
        assert link[..] == links && head[..] == heads && tail[..] == tails;
      } else {
        OnlyOneOrNone();
        assert Rotate(View()).q == q;
      }
    }

    lemma OnlyOneOrNone()
      requires Valid()
      ensures head[RUN] == tail[RUN] <==> |q[RUN]| < 2
    {
      EmptyIff(RUN);
      if q[RUN] != [] {
        OnlyOne(RUN);
      }
    }

    // ---- mutexes ----

    lemma RunHead()
      requires Valid() && q[RUN] != []
      ensures head[RUN] == q[RUN][0] < link.Length && On(q, q[RUN][0])
    {
      EmptyIff(RUN);
      OnAt(q, RUN, 0);
    }

    /** cCmdAcquireMutex; suspended stands for CLUMP_SUSPEND. */
    method AcquireMutex(m: nat) returns (suspended: bool)
      requires Valid() && OwnersOk(View()) && m < owner.Length && q[RUN] != []
      modifies link, head, tail, owner, `q, `dispatch
      ensures Valid() && View() == Acquire(old(View()), m)
      ensures suspended <==> old(owner[m]) != NOT_A_CLUMP
    {
      hide ThreadsOk, Separate, On;
      RunHead();
      assert MutexOk(View(), m);
      EmptyIff(m + 2);
      var c := head[RUN];
      ghost var S := View();
      if owner[m] == NOT_A_CLUMP {
        owner[m] := c;
        assert head[WAIT(m)] == NOT_A_CLUMP && tail[WAIT(m)] == NOT_A_CLUMP;
        suspended := false;
      } else {
        TakeOffKeepsQueues(S, RUN, c);
        DeQClump(RUN, c);
        EnQClump(WAIT(m), c);
        suspended := true;
      }
    }

    /** cCmdReleaseMutex. */
    method ReleaseMutex(m: nat)
      requires Valid() && m < owner.Length
      modifies link, head, tail, owner, `q, `dispatch
      ensures Valid() && View() == Release(old(View()), m)
    {
      hide ThreadsOk, Separate, On;
      ghost var S := View();
      EmptyIff(m + 2);
      owner[m] := head[WAIT(m)];
      if owner[m] != NOT_A_CLUMP {
        var c := owner[m];
        TakeOffKeepsQueues(View(), m + 2, c);
        DeQClump(WAIT(m), c);
        EnQClump(RUN, c);
      }
    }

    /** cCmdReleaseAllMutexes. */
    method ReleaseAllMutexes(c: nat)
      requires Valid() && c < link.Length
      modifies link, head, tail, owner, `q, `dispatch
      ensures Valid() && View() == ReleaseFrom(old(View()), c, 0, false)
    {
      hide ThreadsOk, Separate, On, QueuesOk, DispatchOk, TakeOff, Add, Release;
      var found := false;
      ghost var S := View();
      for m := 0 to owner.Length
        invariant Valid()
        invariant ReleaseFrom(View(), c, m, found) == ReleaseFrom(S, c, 0, false)
        modifies link, head, tail, owner, `q, `dispatch
      {
        if owner[m] == c {
          ReleaseMutex(m);
        }
        if !found {
          var waiting := IsClumpOnQ(WAIT(m), c);
          if waiting {
            found := true;
            TakeOffKeepsQueues(View(), m + 2, c);
            DeQClump(WAIT(m), c);
            EnQClump(RUN, c);
          }
        }
      }
    }

    /** cCmdStopClump. */
    method StopClump(c: nat, ghost rank: seq<nat>)
      requires Valid() && c < link.Length && Ranked(recs[..], rank)
      modifies link, head, tail, owner, recs, `q, `dispatch
      ensures Valid() && View() == StopOne(old(View()), LastCallee(old(recs[..]), c, rank))
      decreases rank[c]
    {
      hide ThreadsOk, Separate, On, QueuesOk, DispatchOk, TakeOff, ReleaseFrom;
      if recs[c].calledClump != NOT_A_CLUMP {
        StopClump(recs[c].calledClump, rank);
      } else {
        ghost var S := View();
        ReleaseAllMutexes(c);
        var runnable := IsClumpOnQ(RUN, c);
        if runnable {
          DeQClump(RUN, c);
        } else {
          var resting := IsClumpOnQ(REST, c);
          if resting {
            DeQClump(REST, c);
          }
        }
        SetRec(c, recs[c].(fireCount := recs[c].initFireCount, awakenTime := 0));
      }
    }

    method SetRec(c: nat, r: ClumpRec)
      requires Valid() && c < link.Length
      modifies recs
      ensures Valid() && recs[..] == old(recs[..])[c := r]
    {
      hide ThreadsOk, Separate;
      recs[c] := r;
    }

    // ---- sleeping and waking ----

    /** cCmdSleepClump. */
    method SleepClump(time: nat)
      requires Valid() && q[RUN] != []
      modifies link, head, tail, recs, `q, `dispatch
      ensures Valid() && old(q[RUN][0]) < |old(recs[..])| && View() == Sleep(old(View()), time)
      ensures q == old(q)[RUN := old(q[RUN])[1..]][REST := old(q[REST]) + [old(q[RUN][0])]]
      ensures recs[old(q[RUN][0])].awakenTime == time
    {
      hide ThreadsOk, Separate, On, QueuesOk, DispatchOk;
      RunHead();
      SleepExactly(View(), time);
      var c := head[RUN];
      TakeOffKeepsQueues(View(), RUN, c);
      DeQClump(RUN, c);
      EnQClump(REST, c);
      SetRec(c, recs[c].(awakenTime := time));
    }

    method Awaken(c: nat)
      requires Valid() && c in q[REST]
      modifies link, head, tail, recs, `q, `dispatch
      ensures Valid() && c < |old(recs[..])|
      ensures var S := old(View()); View() == Move(S.(recs := S.recs[c := S.recs[c].(awakenTime := 0)]), REST, RUN, c)
    {
      hide ThreadsOk, Separate, On, DispatchOk;
      SetRec(c, recs[c].(awakenTime := 0));
      TakeOffKeepsQueues(View(), REST, c);
      DeQClump(REST, c);
      EnQClump(RUN, c);
    }

    /** One turn of the loop in cCmdCheckRestQ, over the clump at place k of the RestQ s that it started with. */
    method CheckResting(curr: nat, now: nat, ghost S: Sched, ghost s: seq<nat>, ghost k: nat)
      returns (next: nat, awakened: bool)
      requires Valid() && Walked(S, View(), s, now, k) && k < |s| && curr == s[k]
      modifies link, head, tail, recs, `q, `dispatch
      ensures Valid() && Walked(S, View(), s, now, k + 1)
      ensures next == if k + 1 < |s| then s[k + 1] else NOT_A_CLUMP
      ensures Due(s[..k + 1], S.recs, now, true) != [] <==> awakened || Due(s[..k], S.recs, now, true) != []
    {
      hide ThreadsOk, Separate, On, QueuesOk, DispatchOk, Move, Woken, Due, Walked, NoDup, Below, Wake;
      ghost var p := |Due(s[..k], S.recs, now, false)|;
      WalkAt(S, View(), s, now, k);
      NextOn(REST, p);
      WalkStep(S, View(), s, now, k);
      next := link[curr];
      awakened := recs[curr].awakenTime <= now;
      if awakened {
        Awaken(curr);
      }
    }

    lemma WalkGoesOn(S: Sched, s: seq<nat>, now: nat, k: nat)
      requires Valid() && Walked(S, View(), s, now, k) && k < |s|
      ensures s[k] != NOT_A_CLUMP
    {
      hide ThreadsOk, QueuesOk;
      WalkAt(S, View(), s, now, k);
      NextOn(REST, |Due(s[..k], S.recs, now, false)|);
    }

    /** cCmdCheckRestQ, which takes clumps off the list it is walking. */
    method CheckRestQ(now: nat) returns (awakened: bool)
      requires Valid()
      modifies link, head, tail, recs, `q, `dispatch
      ensures Valid() && View() == Wake(old(View()), now)
      ensures forall c :: c in old(q[REST]) ==>
        && c < |old(recs[..])|
        && if old(recs[..])[c].awakenTime <= now
           then c in q[RUN] && c !in q[REST] && recs[c] == old(recs[..])[c].(awakenTime := 0)
           else c in q[REST] && c !in q[RUN] && recs[c] == old(recs[..])[c]
      ensures forall c :: 0 <= c < recs.Length && c !in old(q[REST]) ==>
        (c in q[RUN] <==> c in old(q[RUN])) && c !in q[REST] && recs[c] == old(recs[..])[c]
      ensures q[RUN][..|old(q[RUN])|] == old(q[RUN])
      ensures InOrder(q[RUN][|old(q[RUN])|..], old(q[REST])) && InOrder(q[REST], old(q[REST]))
      ensures awakened <==> exists c :: c in old(q[REST]) && old(recs[..])[c].awakenTime <= now
    {
      hide ThreadsOk, Separate, On, QueuesOk, DispatchOk, Due, Walked, NoDup, Below, Wake, InOrder;
      awakened := false;
      ghost var S, s, k := View(), q[REST], 0;
      NoDupOnQueue(REST);
      WalkStarts(S, s, now);
      EmptyIff(REST);
      var curr := head[REST];
      while curr != NOT_A_CLUMP
        invariant Valid() && k <= |s| && Walked(S, View(), s, now, k)
        invariant curr == if k < |s| then s[k] else NOT_A_CLUMP
        invariant awakened <==> Due(s[..k], S.recs, now, true) != []
        modifies link, head, tail, recs, `q, `dispatch
        decreases |s| - k
      {
        var next, one := CheckResting(curr, now, S, s, k);
        awakened := awakened || one;
        curr := next;
        k := k + 1;
      }
      if k < |s| {
        WalkGoesOn(S, s, now, k);
      }
      WalkEnds(S, View(), s, now);
      WakeExactly(S, now);
      SomeDue(S, now);
    }

    lemma NoDupOnQueue(i: nat)
      requires Valid() && i < |q|
      ensures NoDup(q[i])
    {
      NoDupOfSeparate(q, i);
    }

    // ---- starting, calling and finishing ----

    /** cCmdSchedDependent. */
    method SchedDependent(c: nat)
      requires Valid() && c < link.Length && (recs[c].fireCount == 1 ==> !On(q, c))
      modifies link, head, tail, recs, `q, `dispatch
      ensures Valid() && View() == Fire(old(View()), c)
    {
      hide ThreadsOk, Separate, On, DispatchOk;
      var left := (recs[c].fireCount - 1) % 0x100;
      SetRec(c, recs[c].(fireCount := left));
      if left == 0 {
        EnQClump(RUN, c);
      }
    }

    /** cCmdSchedDependents, for the dependents from Begin to End. */
    method SchedDependents(cs: seq<nat>)
      requires Valid() && Below(cs, link.Length) && CanQueue(View(), cs)
      modifies link, head, tail, recs, `q, `dispatch
      ensures Valid() && Below(cs, |old(recs[..])|) && View() == FireAll(old(View()), cs)
      ensures q == old(q)[RUN := old(q[RUN]) + Reaching(old(recs[..]), cs)]
      ensures forall c :: 0 <= c < recs.Length ==>
        recs[c] == old(recs[..])[c].(fireCount := (old(recs[..])[c].fireCount - multiset(cs)[c]) % 0x100)
    {
      hide ThreadsOk, Separate, On, DispatchOk, QueuesOk, Fire, Below, CanQueue, FireAll,
        Reaching;
      ghost var S := View();
      assert cs[0..] == cs;
      FireAllExactly(S, cs);
      for i := 0 to |cs|
        invariant Valid() && Below(cs[i..], |recs[..]|) && CanQueue(View(), cs[i..])
        invariant FireAll(View(), cs[i..]) == FireAll(S, cs)
        modifies link, head, tail, recs, `q, `dispatch
      {
        CanQueueStep(View(), cs[i..]);
        assert cs[i..][1..] == cs[i + 1..];
        SchedDependent(cs[i]);
      }
      FireNone(View());
    }

    /** OP_FINCLUMP and OP_FINCLUMPIMMED, with the reset that CLUMP_DONE brings. */
    method FinishClump(cs: seq<nat>)
      requires Valid() && q[RUN] != [] && Below(cs, link.Length) && CanQueue(View().(q := TakeOff(q, RUN, q[RUN][0])), cs)
      modifies link, head, tail, recs, `q, `dispatch
      ensures Valid() && Below(cs, |old(recs[..])|) && old(q[RUN][0]) < |old(recs[..])|
      ensures View() == Finish(old(View()), cs)
      ensures q == old(q)[RUN := old(q[RUN])[1..] + Reaching(old(recs[..]), cs)]
      ensures forall c :: 0 <= c < recs.Length ==>
        recs[c] == old(recs[..])[c].(fireCount :=
          if c == old(q[RUN][0]) then old(recs[..])[c].initFireCount
          else (old(recs[..])[c].fireCount - multiset(cs)[c]) % 0x100)
    {
      hide ThreadsOk, Separate, On, DispatchOk, QueuesOk, Fire, Below, CanQueue, FireAll,
        Reaching;
      RunHead();
      FinishExactly(View(), cs);
      var c := head[RUN];
      DeQClump(RUN, c);
      SchedDependents(cs);
      SetRec(c, recs[c].(fireCount := recs[c].initFireCount));
    }

    /** OP_SUBCALL, or its short form: the caller leaves RunQ and the callee goes on it. */
    method SubCall(d: nat, short: bool) returns (caller: nat)
      requires Valid() && q[RUN] != [] && d < link.Length && (d == q[RUN][0] || !On(q, d))
      modifies link, head, tail, recs, `q, `dispatch
      ensures Valid() && caller == old(q[RUN][0]) < |old(recs[..])| && View() == Call(old(View()), d, short)
      ensures q == old(q)[RUN := old(q[RUN])[1..] + [d]]
      ensures recs[..] == if short then old(recs[..]) else old(recs[..])[caller := old(recs[..])[caller].(calledClump := d)]
    {
      hide ThreadsOk, Separate, On, DispatchOk;
      RunHead();
      CallExactly(View(), d, short);
      caller := head[RUN];
      TakeOffKeepsQueues(View(), RUN, caller);
      if !short {
        SetRec(caller, recs[caller].(calledClump := d));
      }
      DeQClump(RUN, caller);
      EnQClump(RUN, d);
    }

    /** OP_SUBRET, with the reset that CLUMP_DONE brings. */
    method SubRet(c: nat)
      requires Valid() && q[RUN] != [] && c < link.Length && (c == q[RUN][0] || !On(q, c))
      modifies link, head, tail, recs, `q, `dispatch
      ensures Valid() && old(q[RUN][0]) < |old(recs[..])| && View() == Return(old(View()), c)
      ensures q == old(q)[RUN := old(q[RUN])[1..] + [c]]
      ensures recs[c].calledClump == NOT_A_CLUMP
      ensures recs[old(q[RUN][0])].fireCount == old(recs[q[RUN][0]].initFireCount)
    {
      hide ThreadsOk, Separate, On, DispatchOk;
      RunHead();
      ReturnExactly(View(), c);
      var d := head[RUN];
      TakeOffKeepsQueues(View(), RUN, d);
      DeQClump(RUN, d);
      EnQClump(RUN, c);
      SetRec(c, recs[c].(calledClump := NOT_A_CLUMP));
      SetRec(d, recs[d].(fireCount := recs[d].initFireCount));
    }

    /** cCmdIsClumpOnAMutexWaitQ. */
    method IsClumpOnAMutexWaitQ(c: nat) returns (on: bool)
      requires Valid()
      ensures on <==> exists i :: 2 <= i < |q| && c in q[i]
    {
      hide ThreadsOk, QueuesOk, DispatchOk;
      for m := 0 to owner.Length
        invariant forall i :: 2 <= i < m + 2 ==> c !in q[i]
      {
        on := IsClumpOnQ(WAIT(m), c);
        if on {
          return;
        }
      }
      on := false;
    }

    /** OP_STARTCLUMPIMMED. */
    method StartClump(c: nat) returns (started: bool)
      requires Valid() && c < link.Length
      modifies link, head, tail, `q, `dispatch
      ensures Valid() && View() == Start(old(View()), c) && (started <==> !On(old(q), c))
    {
      hide ThreadsOk, QueuesOk, DispatchOk;
      var runnable := IsClumpOnQ(RUN, c);
      var resting := IsClumpOnQ(REST, c);
      var waiting := IsClumpOnAMutexWaitQ(c);
      started := !runnable && !resting && !waiting;
      assert started <==> !On(q, c);
      if started {
        EnQClump(RUN, c);
      }
    }

    // ---- one step of a program ----

    /** Every step that puts nobody on a second queue is carried out as the specification says, and keeps the invariant
        exactly when the specification does. */
    method Perform(op: Op)
      requires Valid() && Inv(View()) && Possible(View(), op) && Linkable(View(), op)
      modifies link, head, tail, owner, recs, `q, `dispatch
      ensures Valid() && View() == Step(old(View()), op)
      ensures Inv(View()) <==> Keeps(old(View()), op)
    {
      hide ThreadsOk, QueuesOk, DispatchOk, Separate, OwnersOk, On, CallersOff, Acyclic, CanQueue, FiresIdle;
      StepKeepsInvExactly(View(), op);
      match op
      case Acquires(m) => var _ := AcquireMutex(m);
      case Releases(m) => ReleaseMutex(m);
      case Sleeps(time) => SleepClump(time);
      case Wakes(now) => var _ := CheckRestQ(now);
      case Rotates => RotateQ();
      case Finishes(cs) => FinishClump(cs);
      case Calls(d, short) => var _ := SubCall(d, short);
      case Returns(c) => SubRet(c);
      case Starts(c) => var _ := StartClump(c);
      case Stops(c) =>
        ghost var rank := CallRank(recs[..]);
        CalleeIsLast(recs[..], c, rank);
        StopClump(c, rank);
    }
  }

  ghost function CallRank(recs: seq<ClumpRec>): (rank: seq<nat>)
    requires Acyclic(recs)
    ensures Ranked(recs, rank)
  {
    var rank :| Ranked(recs, rank);
    rank
  }

  lemma CalleeIsLast(recs: seq<ClumpRec>, c: nat, rank: seq<nat>)
    requires Acyclic(recs) && Ranked(recs, rank) && c < |recs|
    ensures Callee(recs, c) == LastCallee(recs, c, rank)
  {
    var rank' :| Ranked(recs, rank') && Callee(recs, c) == LastCallee(recs, c, rank');
    LastCalleeIsOne(recs, c, rank', rank);
  }

  lemma CanQueueStep(S: Sched, cs: seq<nat>)
    requires |S.q| >= 2 && Below(cs, |S.recs|) && CanQueue(S, cs) && cs != []
    ensures cs[0] < |S.recs| && (S.recs[cs[0]].fireCount == 1 ==> !On(S.q, cs[0]))
    ensures Below(cs[1..], |S.recs|) && CanQueue(Fire(S, cs[0]), cs[1..])
    ensures FireAll(S, cs) == FireAll(Fire(S, cs[0]), cs[1..])
  {
  }

  lemma FireNone(S: Sched)
    requires |S.q| >= 2
    ensures FireAll(S, []) == S
  {
  }

  lemma NothingQueued(link: seq<nat>, head: seq<nat>, tail: seq<nat>, q: seq<seq<nat>>)
    requires |head| == |q| && |tail| == |q| && |link| < NOT_A_CLUMP
    requires forall i :: 0 <= i < |q| ==> q[i] == [] && head[i] == NOT_A_CLUMP && tail[i] == NOT_A_CLUMP
    requires forall c :: 0 <= c < |link| ==> link[c] == NOT_A_CLUMP
    ensures ThreadsOk(link, head, tail, q)
  {
  }

  lemma NoneReady(fireCounts: seq<byte>)
    ensures Ready(fireCounts, 0) == []
  {
  }

  lemma ReadyNext(fireCounts: seq<byte>, i: nat, mutexes: nat, recs: seq<ClumpRec>)
    requires i < |fireCounts|
    ensures var now, next := Idle(Ready(fireCounts, i), mutexes, recs).q, Idle(Ready(fireCounts, i + 1), mutexes, recs).q;
      !On(now, i) && next == if fireCounts[i] == 0 then Add(now, RUN, i) else now
  {
    if fireCounts[i] != 0 {
      assert Ready(fireCounts, i + 1) == Ready(fireCounts, i);
    }
  }
}

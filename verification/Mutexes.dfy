/** Acquiring and releasing mutexes and stopping clumps: who holds and who waits for what afterwards. */
module Mutexes {
  import opened Seqs
  import opened Clumps
  import opened ClumpSteps

  // ---- queues ----

  ghost predicate SameOn(S: Sched, R: Sched) {
    forall x: nat :: On(R.q, x) <==> On(S.q, x)
  }

  lemma AddKeepsQueues(S: Sched, i: nat, c: nat)
    requires QueuesOk(S) && i < |S.q| && c < |S.recs| && !On(S.q, c)
    ensures QueuesOk(S.(q := Add(S.q, i, c)))
    ensures forall x: nat :: On(Add(S.q, i, c), x) <==> x == c || On(S.q, x)
  {
    hide Separate, On;
    AddKeepsSeparateExactly(S.q, i, c);
    forall x ensures On(Add(S.q, i, c), x) <==> x == c || On(S.q, x) {
      AddOn(S.q, i, c, x);
    }
  }

  lemma TakeOffKeepsQueues(S: Sched, i: nat, c: nat)
    requires QueuesOk(S) && i < |S.q| && c in S.q[i]
    ensures QueuesOk(S.(q := TakeOff(S.q, i, c)))
    ensures forall x: nat :: On(TakeOff(S.q, i, c), x) <==> x != c && On(S.q, x)
  {
    hide Separate, On, TakeOff;
    TakeOffKeepsSeparate(S.q, i, c);
    TakeOffAt(S.q, i, c);
    forall x ensures On(TakeOff(S.q, i, c), x) <==> x != c && On(S.q, x) {
      TakeOffOn(S.q, i, c, x);
    }
  }

  lemma MoveKeepsQueues(S: Sched, i: nat, j: nat, c: nat)
    requires QueuesOk(S) && i < |S.q| && j < |S.q| && c in S.q[i]
    ensures QueuesOk(Move(S, i, j, c))
    ensures forall x: nat :: On(Move(S, i, j, c).q, x) <==> On(S.q, x)
  {
    hide Separate, TakeOff, Add;
    TakeOffKeepsQueues(S, i, c);
    assert On(S.q, c);
    AddKeepsQueues(S.(q := TakeOff(S.q, i, c)), j, c);
  }

  /** The head of a queue taken off it leaves the rest. */
  lemma HeadOff(q: seq<seq<nat>>, i: nat)
    requires i < |q| && q[i] != []
    ensures TakeOff(q, i, q[i][0]) == q[i := q[i][1..]]
  {
    assert q[i][..0] + q[i][1..] == q[i][1..];
  }

  // ---- mutexes ----

  /** Who owns mutex m, and behind it who waits. */
  ghost function Line(S: Sched, m: nat): seq<nat>
    requires m < |S.owner| && |S.q| == |S.owner| + 2
  {
    if S.owner[m] == NOT_A_CLUMP then [] else [S.owner[m]] + S.q[m + 2]
  }

  ghost function FirstOf(s: seq<nat>): seq<nat> {
    if s == [] then [] else [s[0]]
  }

  ghost predicate SameMutex(S: Sched, T: Sched, m: nat)
    requires m < |S.owner| && |S.q| == |S.owner| + 2 && |T.q| == |S.q| && |T.owner| == |S.owner|
  {
    S.owner[m] == T.owner[m] && S.q[m + 2] == T.q[m + 2]
  }

  ghost function Cancelled(s: seq<nat>, c: nat): seq<nat> {
    if c in s then Without(s, c) else s
  }

  lemma OthersOk(S: Sched, T: Sched, m: nat)
    requires OwnersOk(S) && |T.q| == |S.q| && |T.owner| == |S.owner| && m < |S.owner|
    requires forall k :: 0 <= k < |S.owner| && k != m ==> SameMutex(S, T, k)
    requires MutexOk(T, m)
    ensures OwnersOk(T)
  {
    forall k | 0 <= k < |S.owner| ensures MutexOk(T, k) {
      assert k != m ==> SameMutex(S, T, k) && MutexOk(S, k);
    }
  }

  lemma AcquireKeeps(S: Sched, m: nat)
    requires QueuesOk(S) && OwnersOk(S) && m < |S.owner| && S.q[RUN] != [] && S.q[RUN][0] != S.owner[m]
    ensures QueuesOk(Acquire(S, m)) && OwnersOk(Acquire(S, m))
    ensures SameOn(S, Acquire(S, m))
    ensures forall k :: 0 <= k < |S.owner| ==> Line(Acquire(S, m), k) == if k == m then Line(S, m) + [S.q[RUN][0]] else Line(S, k)
  {
    hide Separate, OwnersOk;
    var c := S.q[RUN][0];
    HeadOff(S.q, RUN);
    assert MutexOk(S, m) by { MutexIsOk(S, m); }
    if S.owner[m] != NOT_A_CLUMP {
      MoveKeepsQueues(S, RUN, WAIT(m), c);
    }
    OthersOk(S, Acquire(S, m), m);
  }

  lemma MutexIsOk(S: Sched, m: nat)
    requires OwnersOk(S) && m < |S.owner|
    ensures MutexOk(S, m)
  {
  }

  lemma WaitHeadLeaves(S: Sched, m: nat)
    requires QueuesOk(S) && m < |S.owner| && S.q[m + 2] != []
    ensures S.q[m + 2][0] !in S.q[m + 2][1..]
  {
    NoDupOfSeparate(S.q, m + 2);
  }

  lemma ReleaseMoves(S: Sched, m: nat)
    requires QueuesOk(S) && m < |S.owner|
    ensures QueuesOk(Release(S, m))
    ensures SameOn(S, Release(S, m))
    ensures forall k :: 0 <= k < |S.owner| && k != m ==> SameMutex(S, Release(S, m), k)
    ensures Release(S, m).q[m + 2] == if S.q[m + 2] == [] then [] else S.q[m + 2][1..]
    ensures Release(S, m).q[REST] == S.q[REST]
    ensures Release(S, m).q[RUN] == S.q[RUN] + FirstOf(S.q[m + 2])
  {
    hide Separate, On, Without;
    if S.q[m + 2] != [] {
      var w := S.q[m + 2][0];
      var T := S.(owner := S.owner[m := w]);
      HeadOff(T.q, m + 2);
      MoveKeepsQueues(T, m + 2, RUN, w);
    }
  }

  lemma ReleaseKeeps(S: Sched, m: nat)
    requires QueuesOk(S) && OwnersOk(S) && m < |S.owner|
    ensures QueuesOk(Release(S, m)) && OwnersOk(Release(S, m))
    ensures SameOn(S, Release(S, m))
    ensures Line(Release(S, m), m) == if Line(S, m) != [] then Line(S, m)[1..] else []
    ensures forall k :: 0 <= k < |S.owner| && k != m ==> SameMutex(S, Release(S, m), k)
    ensures Release(S, m).q[REST] == S.q[REST]
    ensures Release(S, m).q[RUN] == S.q[RUN] + FirstOf(S.q[m + 2])
  {
    assert MutexOk(S, m);
    ReleaseMoves(S, m);
    if S.q[m + 2] != [] {
      WaitHeadLeaves(S, m);
    }
    hide Separate, On, OwnersOk, Below, Move;
    OthersOk(S, Release(S, m), m);
  }

  // ---- stopping a clump ----

  /** The waiters that get the mutexes from m on that c owns. */
  ghost function Heirs(S: Sched, c: nat, m: nat): (r: seq<nat>)
    requires |S.q| == |S.owner| + 2 && m <= |S.owner|
    decreases |S.owner| - m
  {
    if m == |S.owner| then []
    else (if S.owner[m] == c then FirstOf(S.q[m + 2]) else []) + Heirs(S, c, m + 1)
  }

  lemma {:induction false} HeirsSame(S: Sched, T: Sched, c: nat, m: nat)
    requires |S.q| == |S.owner| + 2 && |T.q| == |S.q| && |T.owner| == |S.owner| && m <= |S.owner|
    requires forall k :: m <= k < |S.owner| ==> SameMutex(S, T, k)
    ensures Heirs(S, c, m) == Heirs(T, c, m)
    decreases |S.owner| - m
  {
    if m < |S.owner| {
      assert SameMutex(S, T, m);
      HeirsSame(S, T, c, m + 1);
    }
  }

  lemma CancelledLast(s: seq<nat>, x: nat, c: nat)
    ensures Cancelled(s + [x], c) == if x != c || c in s then Cancelled(s, c) + [x] else s
  {
    if c in s {
      var i := IndexOf(s, c);
      IndexOfPrefix(s, [x], c);
      assert (s + [x])[i + 1..] == s[i + 1..] + [x];
    } else if x == c {
      var i := IndexOf(s + [x], c);
    }
  }

  lemma {:induction false} IndexOfPrefix(s: seq<nat>, t: seq<nat>, c: nat)
    requires c in s
    ensures IndexOf(s + t, c) == IndexOf(s, c)
  {
    if s[0] != c {
      assert (s + t)[1..] == s[1..] + t;
      IndexOfPrefix(s[1..], t, c);
    }
  }

  /** One turn of the loop in cCmdReleaseAllMutexes. */
  ghost function ReleaseTurn(S: Sched, c: nat, m: nat, found: bool): (r: Sched)
    requires m < |S.owner| && |S.q| == |S.owner| + 2
    ensures |r.q| == |S.q| && |r.owner| == |S.owner| && r.recs == S.recs
  {
    var T := if S.owner[m] == c then Release(S, m) else S;
    if !found && c in T.q[m + 2] then Move(T, m + 2, RUN, c) else T
  }

  lemma WaiterNotRunnable(S: Sched, c: nat, m: nat)
    requires QueuesOk(S) && m < |S.owner| && c in S.q[m + 2]
    ensures c !in S.q[RUN]
  {
    var k := IndexOf(S.q[m + 2], c);
    forall j | 0 <= j < |S.q[RUN]| ensures S.q[RUN][j] != c {
      assert S.q[RUN][j] != S.q[m + 2][k];
    }
  }

  /** Waiter c of mutex m loses its place in the line and is put on RunQ. */
  lemma WaiterLeaves(S: Sched, c: nat, m: nat)
    requires QueuesOk(S) && OwnersOk(S) && m < |S.owner| && c in S.q[m + 2]
    ensures QueuesOk(Move(S, m + 2, RUN, c)) && OwnersOk(Move(S, m + 2, RUN, c))
    ensures forall x: nat :: On(Move(S, m + 2, RUN, c).q, x) <==> On(S.q, x)
    ensures Line(Move(S, m + 2, RUN, c), m) == Cancelled(Line(S, m), c)
    ensures Cancelled(Move(S, m + 2, RUN, c).q[RUN], c) == Cancelled(S.q[RUN], c)
  {
    hide Separate, On, OwnersOk, Below, IndexOf, NoDup, Without;
    MutexIsOk(S, m);
    WaiterNotRunnable(S, c, m);
    var T := Move(S, m + 2, RUN, c);
    MoveKeepsQueues(S, m + 2, RUN, c);
    WaiterGone(S, c, m);
    CancelledLast(S.q[RUN], c, c);
    CancelledTail(S.owner[m], S.q[m + 2], c);
    assert T.q[m + 2] == Without(S.q[m + 2], c);
    assert MutexOk(T, m);
    OthersOk(S, T, m);
  }

  lemma WaiterGone(S: Sched, c: nat, m: nat)
    requires QueuesOk(S) && m < |S.owner| && c in S.q[m + 2]
    ensures S.owner[m] !in S.q[m + 2] ==> S.owner[m] !in Without(S.q[m + 2], c)
    ensures c !in Without(S.q[m + 2], c)
  {
    NoDupOfSeparate(S.q, m + 2);
    WithoutKeepsRest(S.q[m + 2], c);
  }

  lemma IndexOfTail(x: nat, s: seq<nat>, c: nat)
    requires x == c || c in s
    ensures c in [x] + s && IndexOf([x] + s, c) == if x == c then 0 else 1 + IndexOf(s, c)
  {
    assert ([x] + s)[1..] == s;
  }

  lemma CancelledTail(x: nat, s: seq<nat>, c: nat)
    ensures Cancelled([x] + s, c) == if x == c then s else [x] + Cancelled(s, c)
  {
    hide IndexOf;
    var t := [x] + s;
    if x == c || c in s {
      IndexOfTail(x, s, c);
      var i := IndexOf(t, c);
      assert t[..i] == if x == c then [] else [x] + s[..i - 1];
      assert t[i + 1..] == s[i..];
    }
  }

  /** Owner c of mutex m gives it up. */
  lemma OwnerLeaves(S: Sched, c: nat, m: nat)
    requires QueuesOk(S) && OwnersOk(S) && c < |S.recs| && m < |S.owner| && S.owner[m] == c
    ensures |S.q| == |S.owner| + 2
    ensures Line(Release(S, m), m) == Cancelled(Line(S, m), c)
    ensures Cancelled(Release(S, m).q[RUN], c) == Cancelled(S.q[RUN], c) + FirstOf(S.q[m + 2])
    ensures c !in Release(S, m).q[m + 2]
  {
    hide Separate, On, QueuesOk, Below, OwnersOk, Cancelled, IndexOf, Release, Line, SameMutex;
    ReleasedQueue(S, m);
    OwnerOnce(S, c, m);
    ReleaseKeeps(S, m);
    CancelledTail(c, S.q[m + 2], c);
    var w := S.q[m + 2];
    if w != [] {
      CancelledLast(S.q[RUN], w[0], c);
    } else {
      assert S.q[RUN] + [] == S.q[RUN];
      assert Cancelled(S.q[RUN], c) + [] == Cancelled(S.q[RUN], c);
    }
  }

  lemma ReleasedQueue(S: Sched, m: nat)
    requires QueuesOk(S) && m < |S.owner|
    ensures |S.q| == |S.owner| + 2
    ensures Release(S, m).q[m + 2] == if S.q[m + 2] == [] then [] else S.q[m + 2][1..]
  {
    HeadOffIf(S, m);
  }

  lemma HeadOffIf(S: Sched, m: nat)
    requires m < |S.owner| && |S.q| == |S.owner| + 2
    ensures S.q[m + 2] != [] ==> TakeOff(S.q, m + 2, S.q[m + 2][0]) == S.q[m + 2 := S.q[m + 2][1..]]
  {
    if S.q[m + 2] != [] {
      HeadOff(S.q, m + 2);
    }
  }

  lemma OwnerOnce(S: Sched, c: nat, m: nat)
    requires QueuesOk(S) && OwnersOk(S) && c < |S.recs| && m < |S.owner| && S.owner[m] == c
    ensures c !in S.q[m + 2] && Line(S, m) == [c] + S.q[m + 2]
  {
    assert MutexOk(S, m);
  }

  /** What c held of mutex m, a place in its line, is given up; c itself may then be on RunQ. */
  lemma ReleaseTurnCancels(S: Sched, c: nat, m: nat, found: bool)
    requires QueuesOk(S) && OwnersOk(S) && c < |S.recs| && m < |S.owner| && (found ==> c in S.q[RUN])
    ensures QueuesOk(ReleaseTurn(S, c, m, found)) && OwnersOk(ReleaseTurn(S, c, m, found))
    ensures forall x: nat :: On(ReleaseTurn(S, c, m, found).q, x) <==> On(S.q, x)
    ensures Line(ReleaseTurn(S, c, m, found), m) == Cancelled(Line(S, m), c)
    ensures forall k :: 0 <= k < |S.owner| && k != m ==> SameMutex(S, ReleaseTurn(S, c, m, found), k)
    ensures ReleaseTurn(S, c, m, found).q[REST] == S.q[REST]
    ensures Cancelled(ReleaseTurn(S, c, m, found).q[RUN], c) == Cancelled(S.q[RUN], c)
      + (if S.owner[m] == c then FirstOf(S.q[m + 2]) else [])
    ensures found || (S.owner[m] != c && c in S.q[m + 2]) ==> c in ReleaseTurn(S, c, m, found).q[RUN]
  {
    hide Separate, On, Below, Cancelled, Release;
    if S.owner[m] == c {
      ReleaseKeeps(S, m);
      OwnerLeaves(S, c, m);
    } else if c in S.q[m + 2] {
      WaiterNotRunnable(S, c, m);
      WaiterLeaves(S, c, m);
    } else {
      NotInLine(S, c, m);
    }
  }

  lemma NotInLine(S: Sched, c: nat, m: nat)
    requires m < |S.owner| && |S.q| == |S.owner| + 2 && S.owner[m] != c && c !in S.q[m + 2]
    ensures Cancelled(Line(S, m), c) == Line(S, m)
  {
  }

  /** R is S after c has given up its place in the lines of the mutexes from m on. */
  ghost predicate GivesUp(S: Sched, R: Sched, c: nat, m: nat)
    requires |S.q| == |S.owner| + 2 && m <= |S.owner|
  {
    && |R.q| == |S.q| && |R.owner| == |S.owner|
    && (forall k :: 0 <= k < m ==> SameMutex(S, R, k))
    && (forall k :: m <= k < |S.owner| ==> Line(R, k) == Cancelled(Line(S, k), c))
    && R.q[REST] == S.q[REST]
    && Cancelled(R.q[RUN], c) == Cancelled(S.q[RUN], c) + Heirs(S, c, m)
  }

  lemma {:induction false} ReleaseFromCancels(S: Sched, c: nat, m: nat, found: bool)
    requires |S.q| == |S.owner| + 2 && QueuesOk(S) && OwnersOk(S) && c < |S.recs| && m <= |S.owner| && (found ==> c in S.q[RUN])
    ensures QueuesOk(ReleaseFrom(S, c, m, found)) && OwnersOk(ReleaseFrom(S, c, m, found))
    ensures SameOn(S, ReleaseFrom(S, c, m, found))
    ensures GivesUp(S, ReleaseFrom(S, c, m, found), c, m)
    decreases |S.owner| - m
  {
    hide QueuesOk, OwnersOk, On, SameOn, Release, GivesUp, Separate, Below, ReleaseTurn;
    if m < |S.owner| {
      var T := ReleaseTurn(S, c, m, found);
      var found' := found || (c in (if S.owner[m] == c then Release(S, m) else S).q[m + 2]);
      ReleaseFromTurns(S, c, m, found);
      FoundIsRunnable(S, c, m, found);
      ReleaseFromCancels(T, c, m + 1, found');
      ThenGivesUp(S, ReleaseFrom(S, c, m, found), c, m, found);
      SameOnTwice(S, T, ReleaseFrom(S, c, m, found));
    } else {
      SameOnTwice(S, S, S);
      GivesUpNothing(S, c);
    }
  }

  lemma SameOnTwice(S: Sched, T: Sched, R: Sched)
    ensures SameOn(S, S)
    ensures SameOn(S, T) && SameOn(T, R) ==> SameOn(S, R)
  {
    hide On;
  }

  lemma ReleaseFromTurns(S: Sched, c: nat, m: nat, found: bool)
    requires |S.q| == |S.owner| + 2 && m < |S.owner|
    ensures ReleaseFrom(S, c, m, found) == ReleaseFrom(ReleaseTurn(S, c, m, found), c, m + 1,
              found || (c in (if S.owner[m] == c then Release(S, m) else S).q[m + 2]))
  {
  }

  lemma GivesUpNothing(S: Sched, c: nat)
    requires |S.q| == |S.owner| + 2
    ensures GivesUp(S, S, c, |S.owner|)
  {
    assert Cancelled(S.q[RUN], c) + [] == Cancelled(S.q[RUN], c);
  }

  lemma ThenGivesUp(S: Sched, R: Sched, c: nat, m: nat, found: bool)
    requires |S.q| == |S.owner| + 2
    requires QueuesOk(S) && OwnersOk(S) && c < |S.recs| && m < |S.owner| && (found ==> c in S.q[RUN])
    requires GivesUp(ReleaseTurn(S, c, m, found), R, c, m + 1)
    ensures GivesUp(S, R, c, m)
  {
    hide Separate, On, Release, Cancelled, Line, SameMutex, Below, OwnersOk, QueuesOk, ReleaseTurn;
    ReleaseTurnCancels(S, c, m, found);
    var T := ReleaseTurn(S, c, m, found);
    SameLater(S, T, R, c, m);
    HeirsSame(S, T, c, m + 1);
    assert Heirs(S, c, m) == (if S.owner[m] == c then FirstOf(S.q[m + 2]) else []) + Heirs(T, c, m + 1);
  }

  lemma FoundIsRunnable(S: Sched, c: nat, m: nat, found: bool)
    requires QueuesOk(S) && OwnersOk(S) && c < |S.recs| && m < |S.owner| && (found ==> c in S.q[RUN])
    ensures QueuesOk(ReleaseTurn(S, c, m, found)) && OwnersOk(ReleaseTurn(S, c, m, found))
    ensures SameOn(S, ReleaseTurn(S, c, m, found))
    ensures found || (c in (if S.owner[m] == c then Release(S, m) else S).q[m + 2]) ==> c in ReleaseTurn(S, c, m, found).q[RUN]
  {
    ReleaseTurnCancels(S, c, m, found);
    if S.owner[m] == c {
      OwnerLeaves(S, c, m);
    }
  }

  lemma SameLater(S: Sched, T: Sched, R: Sched, c: nat, m: nat)
    requires |S.q| == |S.owner| + 2 && m < |S.owner|
    requires |T.q| == |S.q| && |T.owner| == |S.owner| && |R.q| == |S.q| && |R.owner| == |S.owner|
    requires forall k :: 0 <= k < |S.owner| && k != m ==> SameMutex(S, T, k)
    requires forall k :: 0 <= k <= m ==> SameMutex(T, R, k)
    requires forall k :: m + 1 <= k < |S.owner| ==> Line(R, k) == Cancelled(Line(T, k), c)
    requires Line(T, m) == Cancelled(Line(S, m), c)
    ensures forall k :: 0 <= k < m ==> SameMutex(S, R, k)
    ensures forall k :: m <= k < |S.owner| ==> Line(R, k) == Cancelled(Line(S, k), c)
  {
    hide Cancelled;
    forall k | 0 <= k < m ensures SameMutex(S, R, k) {
      assert SameMutex(S, T, k) && SameMutex(T, R, k);
    }
    forall k | m <= k < |S.owner| ensures Line(R, k) == Cancelled(Line(S, k), c) {
      if k > m {
        assert SameMutex(S, T, k);
      } else {
        assert SameMutex(T, R, m);
      }
    }
  }

  lemma CancelledIsGone(s: seq<nat>, c: nat)
    requires NoDup(s)
    ensures c !in Cancelled(s, c)
  {
    if c in s {
      WithoutKeepsRest(s, c);
    }
  }

  lemma LineIsNoDup(S: Sched, m: nat)
    requires QueuesOk(S) && OwnersOk(S) && m < |S.owner|
    ensures NoDup(Line(S, m))
  {
    NoDupOfSeparate(S.q, m + 2);
    assert MutexOk(S, m);
    hide Separate;
    var s := Line(S, m);
    forall i, j | 0 <= i < j < |s| ensures s[i] != s[j] {
      assert s[j] == S.q[m + 2][j - 1];
    }
  }

  ghost predicate Holds(S: Sched, m: nat, c: nat)
    requires m < |S.owner| && |S.q| == |S.owner| + 2
  {
    S.owner[m] == c || c in S.q[m + 2]
  }

  /** After cCmdReleaseAllMutexes c waits nowhere and owns nothing. */
  lemma HoldsNothing(S: Sched, R: Sched, c: nat)
    requires QueuesOk(S) && OwnersOk(S) && OwnersOk(R) && |R.owner| == |S.owner| && c < |S.recs| < NOT_A_CLUMP
    requires forall k :: 0 <= k < |S.owner| ==> Line(R, k) == Cancelled(Line(S, k), c)
    ensures forall k :: 0 <= k < |S.owner| ==> !Holds(R, k, c)
  {
    forall k | 0 <= k < |S.owner| ensures !Holds(R, k, c) {
      LineIsNoDup(S, k);
      CancelledIsGone(Line(S, k), c);
      assert MutexOk(R, k);
      hide QueuesOk, Cancelled, NoDup;
      assert c !in Line(R, k);
      if R.owner[k] != NOT_A_CLUMP {
        assert R.owner[k] == Line(R, k)[0];
        assert Line(R, k)[1..] == R.q[k + 2];
      }
    }
  }

  lemma DropTakesOff(S: Sched, c: nat)
    requires QueuesOk(S) && OwnersOk(S) && forall k :: 0 <= k < |S.owner| ==> !Holds(S, k, c)
    ensures QueuesOk(S.(q := Drop(S.q, c))) && OwnersOk(S.(q := Drop(S.q, c)))
    ensures forall x: nat :: On(Drop(S.q, c), x) <==> x != c && On(S.q, x)
    ensures Drop(S.q, c)[RUN] == Cancelled(S.q[RUN], c) && Drop(S.q, c)[REST] == Cancelled(S.q[REST], c)
    ensures forall k :: 0 <= k < |S.owner| ==> SameMutex(S, S.(q := Drop(S.q, c)), k)
  {
    hide Separate;
    if c in S.q[RUN] {
      TakeOffKeepsQueues(S, RUN, c);
      if c in S.q[REST] {
        OnlyQueue(S.q, RUN, REST, c);
      }
    } else if c in S.q[REST] {
      TakeOffKeepsQueues(S, REST, c);
    } else {
      NowhereElse(S, c);
    }
    MutexesKeep(S, S.(q := Drop(S.q, c)));
  }

  lemma NowhereElse(S: Sched, c: nat)
    requires OwnersOk(S) && c !in S.q[RUN] && c !in S.q[REST] && forall k :: 0 <= k < |S.owner| ==> !Holds(S, k, c)
    ensures !On(S.q, c)
  {
    forall i | 0 <= i < |S.q| ensures c !in S.q[i] {
      assert i >= 2 ==> !Holds(S, i - 2, c);
    }
  }

  lemma MutexesKeep(S: Sched, T: Sched)
    requires OwnersOk(S) && T.owner == S.owner && |T.q| == |S.q| && T.q[2..] == S.q[2..]
    ensures OwnersOk(T)
    ensures forall k :: 0 <= k < |S.owner| ==> SameMutex(S, T, k)
  {
    forall k | 0 <= k < |S.owner| ensures SameMutex(S, T, k) && MutexOk(T, k) {
      assert S.q[2..][k] == T.q[2..][k];
      assert MutexOk(S, k);
    }
  }

  /**
   Stopping a clump with no active callee: it is on no queue and in no mutex's line any more, each
   mutex it owned has gone to its first waiter, who is now runnable, or is free, and nothing else moved.
  */
  lemma StopOneEffects(S: Sched, c: nat)
    requires QueuesOk(S) && OwnersOk(S) && c < |S.recs|
    ensures QueuesOk(StopOne(S, c)) && OwnersOk(StopOne(S, c))
    ensures forall x: nat :: On(StopOne(S, c).q, x) <==> x != c && On(S.q, x)
    ensures forall k :: 0 <= k < |S.owner| ==> Line(StopOne(S, c), k) == Cancelled(Line(S, k), c)
    ensures forall k :: 0 <= k < |S.owner| ==> !Holds(StopOne(S, c), k, c)
    ensures StopOne(S, c).q[RUN] == Cancelled(S.q[RUN], c) + Heirs(S, c, 0)
    ensures StopOne(S, c).q[REST] == Cancelled(S.q[REST], c)
    ensures StopOne(S, c).recs == S.recs[c := S.recs[c].(fireCount := S.recs[c].initFireCount, awakenTime := 0)]
  {
    ReleaseFromCancels(S, c, 0, false);
    var R := ReleaseFrom(S, c, 0, false);
    HoldsNothing(S, R, c);
    DropTakesOff(R, c);
    hide Separate, On, Cancelled, Below, ReleaseFrom, Drop, Heirs, QueuesOk, OwnersOk;
    var T := R.(q := Drop(R.q, c));
    forall k | 0 <= k < |S.owner|
      ensures Line(StopOne(S, c), k) == Cancelled(Line(S, k), c) && !Holds(StopOne(S, c), k, c)
    {
      assert SameMutex(R, T, k) && !Holds(R, k, c);
    }
    ResetKeeps(T, c);
  }

  lemma ResetKeeps(S: Sched, c: nat)
    requires QueuesOk(S) && OwnersOk(S) && c < |S.recs|
    ensures var T := S.(recs := S.recs[c := Reset(S.recs[c])]); QueuesOk(T) && OwnersOk(T)
  {
    MutexesKeep(S, S.(recs := S.recs[c := Reset(S.recs[c])]));
  }
}

/** How far cCmdCheckRestQ has come on its walk over RestQ. */
module Wakings {
  import opened Seqs
  import opened Clumps
  import opened ClumpSteps
  import opened ClumpRuns

  /** Where the walk, started in S with RestQ s, is after k clumps. */
  ghost predicate Walked(S: Sched, W: Sched, s: seq<nat>, now: nat, k: nat) {
    && |S.q| >= 2 && s == S.q[REST] && NoDup(s) && k <= |s|
    && W.owner == S.owner && W.recs == Woken(S.recs, Due(s[..k], S.recs, now, true))
    && |W.q| == |S.q| && W.q[2..] == S.q[2..]
    && W.q[RUN] == S.q[RUN] + Due(s[..k], S.recs, now, true)
    && W.q[REST] == Due(s[..k], S.recs, now, false) + s[k..]
  }

  lemma WalkStarts(S: Sched, s: seq<nat>, now: nat)
    requires |S.q| >= 2 && s == S.q[REST] && NoDup(s)
    ensures Walked(S, S, s, now, 0) && Due(s[..0], S.recs, now, true) == []
  {
    assert s[..0] == [] && s[0..] == s;
    assert Woken(S.recs, []) == S.recs;
  }

  lemma WalkEnds(S: Sched, W: Sched, s: seq<nat>, now: nat)
    requires Walked(S, W, s, now, |s|)
    ensures s == S.q[REST] && W == Wake(S, now) && s[..|s|] == s
  {
    assert s[..|s|] == s && s[|s|..] == [];
    var T := Wake(S, now);
    forall i | 0 <= i < |S.q| ensures W.q[i] == T.q[i] {
      assert i >= 2 ==> W.q[2..][i - 2] == S.q[2..][i - 2];
    }
    assert W.q == T.q;
  }

  lemma WalkAt(S: Sched, W: Sched, s: seq<nat>, now: nat, k: nat)
    requires Walked(S, W, s, now, k) && k < |s|
    ensures var p := |Due(s[..k], S.recs, now, false)|;
      p < |W.q[REST]| && W.q[REST][p] == s[k] && (p + 1 < |W.q[REST]| <==> k + 1 < |s|)
      && (k + 1 < |s| ==> W.q[REST][p + 1] == s[k + 1])
  {
    hide Due, Woken;
  }

  lemma DueNext(s: seq<nat>, recs: seq<ClumpRec>, now: nat, due: bool, k: nat)
    requires NoDup(s) && k < |s|
    ensures s[k] !in Due(s[..k], recs, now, due)
    ensures Due(s[..k + 1], recs, now, due) ==
      Due(s[..k], recs, now, due) + if IsDue(recs, s[k], now) == due then [s[k]] else []
  {
    assert s[..k + 1] == s[..k] + [s[k]];
    DueKeepsOrder(s[..k], [s[k]], recs, now, due);
    DueMembers(s[..k], recs, now, due);
    assert s[k] !in s[..k];
  }

  lemma WokenNext(recs: seq<ClumpRec>, awake: seq<nat>, c: nat)
    requires c < |recs| && c !in awake
    ensures Woken(recs, awake)[c] == recs[c]
    ensures Woken(recs, awake + [c]) == Woken(recs, awake)[c := recs[c].(awakenTime := 0)]
  {
  }

  lemma TakenFromMiddle(a: seq<nat>, b: seq<nat>)
    requires b != [] && b[0] !in a
    ensures b[0] in a + b && Without(a + b, b[0]) == a + b[1..]
  {
    var s := a + b;
    assert s[|a|] == b[0];
    var i := IndexOf(s, b[0]);
    FirstIndex(a, b);
    assert s[..i] == a && s[i + 1..] == b[1..];
  }

  /** Both branches for the clump at place k lead on to place k + 1. */
  lemma WalkStep(S: Sched, W: Sched, s: seq<nat>, now: nat, k: nat)
    requires Walked(S, W, s, now, k) && k < |s|
    ensures |W.recs| == |S.recs| && s[k] in W.q[REST]
    ensures IsDue(W.recs, s[k], now) <==> IsDue(S.recs, s[k], now)
    ensures Due(s[..k + 1], S.recs, now, true) != [] <==> Due(s[..k], S.recs, now, true) != [] || IsDue(W.recs, s[k], now)
    ensures !IsDue(W.recs, s[k], now) ==> Walked(S, W, s, now, k + 1)
    ensures IsDue(W.recs, s[k], now) ==>
      Walked(S, Move(W.(recs := W.recs[s[k] := W.recs[s[k]].(awakenTime := 0)]), REST, RUN, s[k]), s, now, k + 1)
  {
    hide Due, Woken, NoDup, IndexOf, Without;
    var c := s[k];
    DueNext(s, S.recs, now, true, k);
    DueNext(s, S.recs, now, false, k);
    if c < |S.recs| {
      WokenNext(S.recs, Due(s[..k], S.recs, now, true), c);
    }
    TakenFromMiddle(Due(s[..k], S.recs, now, false), s[k..]);
    assert s[k..] == [c] + s[k + 1..];
    if IsDue(S.recs, c, now) {
      assert s[k..][1..] == s[k + 1..];
    } else {
      assert Due(s[..k + 1], S.recs, now, true) == Due(s[..k], S.recs, now, true);
      assert W.q[REST] == Due(s[..k], S.recs, now, false) + [c] + s[k + 1..];
    }
  }
}

/** The shell sort that the array sort opcode uses, one copy per element type. */
module ShellSorts {
  import opened Words

  /** Division by 2.2 that drops the fraction, except that 2 is followed by 1. */
  function NextGap(gap: nat): nat {
    if gap == 2 then 1 else ((gap as real) / 2.2).Floor
  }

  lemma NextGapIsSmaller(gap: nat)
    requires gap > 0
    ensures NextGap(gap) < gap
    ensures NextGap(gap) == 0 <==> gap == 1
  {
  }

  /** The gaps of all passes over an array of size elements. */
  function Gaps(gap: nat): (g: seq<nat>)
    decreases gap
  {
    if gap == 0 then [] else (NextGapIsSmaller(gap); [gap] + Gaps(NextGap(gap)))
  }

  /** Gaps strictly decrease, and the last pass compares neighbours. */
  lemma {:induction false} GapsEndInOne(gap: nat)
    ensures forall i :: 0 <= i < |Gaps(gap)| ==> 0 < Gaps(gap)[i] <= gap
    ensures forall i, j :: 0 <= i < j < |Gaps(gap)| ==> Gaps(gap)[i] > Gaps(gap)[j]
    ensures gap > 0 ==> Gaps(gap) != [] && Gaps(gap)[|Gaps(gap)| - 1] == 1
    decreases gap
  {
    if gap > 0 {
      NextGapIsSmaller(gap);
      GapsEndInOne(NextGap(gap));
    }
  }

  /** The first n elements are in order along every chain of places gap apart. */
  ghost predicate GapSorted(s: seq<int>, gap: nat, n: nat) {
    forall k :: gap <= k < n && k < |s| ==> s[k - gap] <= s[k]
  }

  ghost predicate Sorted(s: seq<int>) {
    forall i, j :: 0 <= i < j < |s| ==> s[i] <= s[j]
  }

  lemma {:induction false} OneGapIsSorted(s: seq<int>)
    requires GapSorted(s, 1, |s|)
    ensures Sorted(s)
  {
    if |s| > 1 {
      var t := s[..|s| - 1];
      assert GapSorted(t, 1, |t|) by {
        forall k | 1 <= k < |t| ensures t[k - 1] <= t[k] {
          assert s[k - 1] <= s[k];
        }
      }
      OneGapIsSorted(t);
      assert s[|s| - 2] <= s[|s| - 1];
    }
  }

  /** s is in order along its chains up to place i, but for the element on its way at place j. */
  ghost predicate Sinking(s: seq<int>, gap: nat, i: nat, j: nat) {
    && 0 < gap && j <= i < |s|
    && (forall k :: gap <= k <= i && k != j ==> s[k - gap] <= s[k])
    && (gap <= j && j + gap <= i ==> s[j - gap] <= s[j + gap])
  }

  function Swapped(s: seq<int>, i: nat, j: nat): seq<int>
    requires i < |s| && j < |s|
  {
    s[i := s[j]][j := s[i]]
  }

  lemma SwappedKeepsElements(s: seq<int>, i: nat, j: nat)
    requires i < |s| && j < |s|
    ensures multiset(Swapped(s, i, j)) == multiset(s)
  {
  }

  lemma HoleMoves(v: seq<int>, s: seq<int>, j: nat, k: nat, temp: int)
    requires j < |v| && k < |v| && j != k && v[j := temp] == s
    ensures v[j := v[k]][k := temp] == Swapped(s, j, k)
  {
    assert s[k] == v[k];
  }

  lemma SinksFurther(s: seq<int>, gap: nat, i: nat, j: nat)
    requires Sinking(s, gap, i, j) && gap <= j && s[j - gap] > s[j]
    ensures Sinking(Swapped(s, j, j - gap), gap, i, j - gap)
  {
    var t := Swapped(s, j, j - gap);
    forall k | gap <= k <= i && k != j - gap ensures t[k - gap] <= t[k] {
      if k == j {
      } else if k == j + gap {
        assert s[j - gap] <= s[j + gap];
      } else {
        assert s[k - gap] <= s[k];
      }
    }
    if 2 * gap <= j {
      assert s[j - gap - gap] <= s[j - gap];
    }
  }

  /** The two inner loops: element i sinks along its chain to its place. */
  method Sink(a: array<int>, gap: nat, i: nat)
    requires 0 < gap <= i < a.Length && GapSorted(a[..], gap, i)
    modifies a
    ensures GapSorted(a[..], gap, i + 1) && multiset(a[..]) == multiset(old(a[..]))
  {
    hide Sinking, GapSorted, Swapped;
    ghost var s := a[..];
    var j: nat := i;
    var temp := a[i];
    StartsSinking(s, gap, i);
    while j >= gap && a[j - gap] > temp
      invariant j <= i && |s| == a.Length && a[..][j := temp] == s && Sinking(s, gap, i, j)
      invariant multiset(s) == multiset(old(a[..]))
    {
      SinksFurther(s, gap, i, j);
      SwappedKeepsElements(s, j, j - gap);
      HoleMoves(a[..], s, j, j - gap, temp);
      s := Swapped(s, j, j - gap);
      a[j] := a[j - gap];
      j := j - gap;
    }
    a[j] := temp;
    assert a[..] == s;
    HasSunk(s, gap, i, j);
  }

  lemma StartsSinking(s: seq<int>, gap: nat, i: nat)
    requires 0 < gap <= i < |s| && GapSorted(s, gap, i)
    ensures Sinking(s, gap, i, i)
  {
  }

  lemma HasSunk(s: seq<int>, gap: nat, i: nat, j: nat)
    requires Sinking(s, gap, i, j) && (gap <= j ==> s[j - gap] <= s[j])
    ensures GapSorted(s, gap, i + 1)
  {
  }

  method ShellSort(a: array<int>)
    requires a.Length < 0x1_0000
    modifies a
    ensures Sorted(a[..]) && multiset(a[..]) == multiset(old(a[..]))
  {
    var size: word := a.Length;
    var increment := size / 2;
    while increment > 0
      invariant 0 <= increment <= size / 2
      invariant increment == 0 ==> GapSorted(a[..], 1, size)
      invariant multiset(a[..]) == multiset(old(a[..]))
      decreases increment
    {
      for i := increment to size
        invariant GapSorted(a[..], increment, i)
        invariant multiset(a[..]) == multiset(old(a[..]))
      {
        Sink(a, increment, i);
      }
      NextGapIsSmaller(increment);
      if increment == 2 {
        increment := 1;
      } else {
        increment := NextGap(increment);
      }
    }
    OneGapIsSorted(a[..]);
  }
}

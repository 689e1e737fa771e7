/** Machine widths used by the virtual machine, and plain facts about sequences without repetitions. */
module Words {
  type byte = x: int | 0 <= x < 0x100
  type word = x: int | 0 <= x < 0x1_0000

  /** NOT_A_DS_ID and NOT_AN_OFFSET: the end of a list of dope vectors, and the offset of an array without storage. */
  const NIL: word := 0xFFFF

  /** The C cast to UWORD. */
  function ToWord(x: int): word {
    x % 0x1_0000
  }

  lemma ToWordOfWord(x: int)
    requires 0 <= x < 0x1_0000
    ensures ToWord(x) == x
  {
  }

  /** ALIGN_TO_MOD(x, 4). */
  function Align4(x: int): int {
    if x % 4 != 0 then x + (4 - x % 4) else x
  }

  lemma Align4Whole(x: int)
    ensures Align4(x) % 4 == 0 && x <= Align4(x) < x + 4
    ensures x % 4 == 0 ==> Align4(x) == x
  {
  }

  lemma Align4Sum(x: int, y: int)
    requires x % 4 == 0
    ensures Align4(x + y) == x + Align4(y)
  {
  }

  /** Counting in a word may drop the carries on the way. */
  lemma ToWordSum(x: int, y: int)
    ensures ToWord(ToWord(x) + y) == ToWord(x + y)
  {
  }

  lemma Align4IsLeast(x: int, y: int)
    requires y % 4 == 0
    ensures x <= Align4(x) < x + 4
    ensures x <= y <==> Align4(x) <= y
  {
  }

  /** m with b put at lo. */
  function Paste(m: seq<byte>, lo: nat, b: seq<byte>): (r: seq<byte>)
    requires lo + |b| <= |m|
    ensures |r| == |m|
  {
    m[..lo] + b + m[lo + |b|..]
  }
}

module Seqs {
  ghost predicate NoDup(s: seq<nat>) {
    forall i, j :: 0 <= i < j < |s| ==> s[i] != s[j]
  }

  ghost predicate Disjoint(s: seq<nat>, t: seq<nat>) {
    forall i, j :: 0 <= i < |s| && 0 <= j < |t| ==> s[i] != t[j]
  }

  predicate Below(s: seq<nat>, n: nat) {
    forall k :: 0 <= k < |s| ==> s[k] < n
  }

  function IndexOf(s: seq<nat>, x: nat): (i: nat)
    requires x in s
    ensures i < |s| && s[i] == x
  {
    if s[0] == x then 0 else 1 + IndexOf(s[1..], x)
  }

  lemma {:induction false} FirstIndex(a: seq<nat>, b: seq<nat>)
    requires b != [] && b[0] !in a
    ensures b[0] in a + b && IndexOf(a + b, b[0]) == |a|
  {
    if a == [] {
      assert a + b == b;
    } else {
      assert (a + b)[1..] == a[1..] + b;
      FirstIndex(a[1..], b);
    }
  }

  /** s with its first occurrence of x removed. */
  function Without(s: seq<nat>, x: nat): (r: seq<nat>)
    requires x in s
    ensures |r| == |s| - 1
  {
    var i := IndexOf(s, x);
    s[..i] + s[i + 1..]
  }

  lemma WithoutKeepsRest(s: seq<nat>, x: nat)
    requires NoDup(s) && x in s
    ensures NoDup(Without(s, x))
    ensures x !in Without(s, x)
    ensures forall y :: y in s && y != x ==> y in Without(s, x)
    ensures forall n :: Below(s, n) ==> Below(Without(s, x), n)
    ensures forall t :: Disjoint(s, t) ==> Disjoint(Without(s, x), t)
    ensures forall k :: 0 <= k < |s| - 1 ==> Without(s, x)[k] == s[if k < IndexOf(s, x) then k else k + 1]
  {
    var i := IndexOf(s, x);
    var r := Without(s, x);
    forall y | y in s && y != x ensures y in r {
      var k := IndexOf(s, y);
      assert r[if k < i then k else k - 1] == y;
    }
  }

  /** Distinct numbers below n are at most n. */
  lemma {:induction false} NoMoreThan(s: seq<nat>, n: nat)
    requires NoDup(s) && Below(s, n)
    ensures |s| <= n
  {
    if s == [] {
    } else if n - 1 in s {
      var r := Without(s, n - 1);
      WithoutKeepsRest(s, n - 1);
      forall k | 0 <= k < |r| ensures r[k] < n - 1 {
        assert r[k] != n - 1;
      }
      NoMoreThan(r, n - 1);
    } else {
      assert s[0] < n;
      forall k | 0 <= k < |s| ensures s[k] < n - 1 {
        assert s[k] != n - 1;
      }
      NoMoreThan(s, n - 1);
    }
  }

  /** No element occurs twice, within one sequence or in two of them. */
  ghost predicate Separate(held: seq<seq<nat>>) {
    forall q, j, q', j' :: 0 <= q < |held| && 0 <= j < |held[q]| && 0 <= q' < |held| && 0 <= j' < |held[q']|
      && (q != q' || j != j')
      ==> held[q][j] != held[q'][j']
  }
}

/** The order on values that comparing aggregates decides: element by element, a shorter prefix first. */
module Orders {
  import opened Values

  function Sign(x: int): int {
    if x < 0 then -1 else if x > 0 then 1 else 0
  }

  function Cmp(v: Val, u: Val): int {
    match v
    case Num(a) => if u.Num? then Sign(a - u.n) else -1
    case Items(vs) => if u.Items? then CmpAll(vs, u.items) else 1
  }

  function CmpAll(vs: Vals, us: Vals): int {
    if vs.End? then (if us.End? then 0 else -1)
    else if us.End? then 1
    else
      var c := Cmp(vs.first, us.first);
      if c != 0 then c else CmpAll(vs.rest, us.rest)
  }

  function Len(vs: Vals): nat {
    if vs.End? then 0 else 1 + Len(vs.rest)
  }

  function Nth(vs: Vals, k: nat): Val
    requires k < Len(vs)
  {
    if k == 0 then vs.first else Nth(vs.rest, k - 1)
  }

  /** vs is smaller: it differs first at place k, where it ends or has the smaller element. */
  ghost predicate SmallerAt(vs: Vals, us: Vals, k: nat) {
    && k <= Len(vs) && k < Len(us)
    && (forall j :: 0 <= j < k ==> Nth(vs, j) == Nth(us, j))
    && (k < Len(vs) ==> Cmp(Nth(vs, k), Nth(us, k)) == -1)
  }

  // ---- a total order ----

  lemma {:induction false} CmpIsSign(v: Val, u: Val)
    ensures Cmp(v, u) in {-1, 0, 1}
    ensures Cmp(u, v) == -Cmp(v, u)
    ensures Cmp(v, u) == 0 <==> v == u
    decreases v
  {
    if v.Items? && u.Items? {
      CmpAllIsSign(v.items, u.items);
    }
  }

  lemma {:induction false} CmpAllIsSign(vs: Vals, us: Vals)
    ensures CmpAll(vs, us) in {-1, 0, 1}
    ensures CmpAll(us, vs) == -CmpAll(vs, us)
    ensures CmpAll(vs, us) == 0 <==> vs == us
    decreases vs
  {
    if vs.More? && us.More? {
      CmpIsSign(vs.first, us.first);
      CmpAllIsSign(vs.rest, us.rest);
    }
  }

  lemma {:induction false} CmpIsTransitive(v: Val, u: Val, w: Val)
    requires Cmp(v, u) <= 0 && Cmp(u, w) <= 0
    ensures Cmp(v, w) <= 0
    ensures Cmp(v, w) == 0 ==> Cmp(v, u) == 0 && Cmp(u, w) == 0
    decreases v
  {
    if v.Items? && u.Items? && w.Items? {
      CmpAllIsTransitive(v.items, u.items, w.items);
    }
  }

  lemma {:induction false} CmpAllIsTransitive(vs: Vals, us: Vals, ws: Vals)
    requires CmpAll(vs, us) <= 0 && CmpAll(us, ws) <= 0
    ensures CmpAll(vs, ws) <= 0
    ensures CmpAll(vs, ws) == 0 ==> CmpAll(vs, us) == 0 && CmpAll(us, ws) == 0
    decreases vs
  {
    if vs.More? && us.More? && ws.More? {
      CmpIsSign(vs.first, us.first);
      CmpIsSign(us.first, ws.first);
      CmpIsTransitive(vs.first, us.first, ws.first);
      if Cmp(vs.first, ws.first) == 0 {
        CmpAllIsTransitive(vs.rest, us.rest, ws.rest);
      }
    }
  }

  /** The order is the lexicographic one. */
  lemma {:induction false} CmpIsLexicographic(vs: Vals, us: Vals)
    ensures CmpAll(vs, us) == -1 <==> exists k: nat :: SmallerAt(vs, us, k)
    decreases vs
  {
    if us.End? {
    } else if vs.End? {
      assert SmallerAt(vs, us, 0);
    } else {
      CmpIsSign(vs.first, us.first);
      CmpIsLexicographic(vs.rest, us.rest);
      if CmpAll(vs, us) == -1 {
        if Cmp(vs.first, us.first) == -1 {
          assert SmallerAt(vs, us, 0);
        } else {
          var k: nat :| SmallerAt(vs.rest, us.rest, k);
          SmallerBehind(vs, us, k);
        }
      }
      if k: nat :| SmallerAt(vs, us, k) {
        if k > 0 {
          assert Nth(vs, 0) == Nth(us, 0);
          SmallerInFront(vs, us, k);
        }
      }
    }
  }

  lemma SmallerBehind(vs: Vals, us: Vals, k: nat)
    requires vs.More? && us.More? && vs.first == us.first && SmallerAt(vs.rest, us.rest, k)
    ensures SmallerAt(vs, us, k + 1)
  {
    forall j | 0 <= j < k + 1 ensures Nth(vs, j) == Nth(us, j) {
      if j > 0 {
        assert Nth(vs.rest, j - 1) == Nth(us.rest, j - 1);
      }
    }
  }

  lemma SmallerInFront(vs: Vals, us: Vals, k: nat)
    requires vs.More? && us.More? && k > 0 && SmallerAt(vs, us, k)
    ensures SmallerAt(vs.rest, us.rest, k - 1)
  {
    forall j | 0 <= j < k - 1 ensures Nth(vs.rest, j) == Nth(us.rest, j) {
      assert Nth(vs, j + 1) == Nth(us, j + 1);
    }
  }

  lemma LengthsDiffer(vs: Vals, us: Vals)
    requires Len(vs) != Len(us)
    ensures CmpAll(vs, us) != 0
  {
    CmpAllIsSign(vs, us);
  }

  // ---- the six comparison codes ----

  const LT := 0
  const GT := 1
  const LTEQ := 2
  const GTEQ := 3
  const EQ := 4
  const NEQ := 5

  /** What a comparison code asks of the order c. */
  predicate Holds(code: int, c: int) {
    match code
    case 0 => c < 0
    case 1 => c > 0
    case 2 => c <= 0
    case 3 => c >= 0
    case 4 => c == 0
    case 5 => c != 0
    case _ => false
  }

  /** The codes in terms of the two numbers compared. */
  lemma CodesOfIntegers(x: int, y: int)
    ensures Cmp(Num(x), Num(y)) == Sign(x - y)
    ensures (Holds(0, Sign(x - y)) <==> x < y) && (Holds(1, Sign(x - y)) <==> x > y)
    ensures (Holds(2, Sign(x - y)) <==> x <= y) && (Holds(3, Sign(x - y)) <==> x >= y)
    ensures (Holds(4, Sign(x - y)) <==> x == y) && (Holds(5, Sign(x - y)) <==> x != y)
  {
  }

  lemma CodesAgree(v: Val, u: Val)
    ensures Holds(EQ, Cmp(v, u)) <==> v == u
    ensures Holds(NEQ, Cmp(v, u)) <==> v != u
    ensures Holds(LTEQ, Cmp(v, u)) <==> Holds(LT, Cmp(v, u)) || v == u
    ensures Holds(GTEQ, Cmp(v, u)) <==> Holds(GT, Cmp(v, u)) || v == u
    ensures Holds(LT, Cmp(v, u)) <==> Holds(GT, Cmp(u, v))
    ensures Holds(LT, Cmp(v, u)) <==> !Holds(GTEQ, Cmp(v, u))
    ensures Holds(GT, Cmp(v, u)) <==> !Holds(LTEQ, Cmp(v, u))
  {
    CmpIsSign(v, u);
  }
}

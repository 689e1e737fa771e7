/** The MINSTD generator behind the random number system call, in Schrage's overflow-free form. */
module Randoms {
  const A := 48271
  const M := 2147483647
  const Q := 44488
  const R := 3399

  /** A * B == 1 + M * C: B undoes A. */
  const B := 1899818559
  const C := 42704

  /** The quantities that the source computes in signed 32 bits. */
  ghost predicate InSlong(x: int) {
    -0x8000_0000 <= x < 0x8000_0000
  }

  function Test(seed: nat): int {
    A * (seed % Q) - R * (seed / Q)
  }

  function Next(seed: nat): int {
    if Test(seed) > 0 then Test(seed) else Test(seed) + M
  }

  ghost predicate Good(seed: int) {
    1 <= seed < M
  }

  lemma NoOverflow(seed: nat)
    requires seed <= M
    ensures InSlong(A * (seed % Q)) && InSlong(R * (seed / Q)) && InSlong(Test(seed)) && 0 <= Next(seed) <= M
  {
    assert seed / Q <= M / Q;
  }

  /** The split product differs from A * seed by a multiple of M. */
  lemma SplitProduct(seed: nat)
    ensures A * seed == Test(seed) + M * (seed / Q)
  {
    assert seed == Q * (seed / Q) + seed % Q;
  }

  /** What is 0 modulo M after multiplying by A was 0 before. */
  lemma CancelA(x: int, k: int)
    requires A * x == M * k
    ensures x == M * (B * k - C * x)
  {
    assert B * (A * x) == B * (M * k);
    assert A * B == 1 + M * C;
  }

  lemma RemainderIs(x: int, y: int, k: int)
    requires x == y + M * k && 0 <= y < M
    ensures x % M == y
  {
  }

  lemma TestIsNotZero(seed: nat)
    requires Good(seed)
    ensures Test(seed) != 0
  {
    SplitProduct(seed);
    if Test(seed) == 0 {
      CancelA(seed, seed / Q);
    }
  }

  /** One step multiplies by A modulo M. */
  lemma NextIsProduct(seed: nat)
    requires Good(seed)
    ensures Good(Next(seed)) && Next(seed) == (A * seed) % M
  {
    hide Test;
    NoOverflow(seed);
    SplitProduct(seed);
    TestIsNotZero(seed);
    RemainderIs(A * seed, Next(seed), if Test(seed) > 0 then seed / Q else seed / Q - 1);
  }

  lemma NextIsInjective(s: nat, t: nat)
    requires Good(s) && Good(t) && Next(s) == Next(t)
    ensures s == t
  {
    NextIsProduct(s);
    NextIsProduct(t);
    CancelA(s - t, (A * s) / M - (A * t) / M);
  }

  /** Every good seed has a predecessor, so that a step permutes the good seeds. */
  lemma NextIsOnto(t: nat)
    requires Good(t)
    ensures Good((B * t) % M) && Next((B * t) % M) == t
  {
    var s, k := (B * t) % M, (B * t) / M;
    UndoesB(t, s, k);
    RemainderIs(A * s, t, C * t - A * k);
    NextIsProduct(s);
  }

  lemma UndoesB(t: int, s: int, k: int)
    requires B * t == s + M * k
    ensures A * s == t + M * (C * t - A * k)
  {
  }

  function Pow(b: nat, n: nat): nat {
    if n == 0 then 1 else b * Pow(b, n - 1)
  }

  /** seed after n steps. */
  function Steps(seed: nat, n: nat): (r: int)
    requires seed <= M
    ensures 0 <= r <= M
  {
    if n == 0 then seed else (NoOverflow(Steps(seed, n - 1)); Next(Steps(seed, n - 1)))
  }

  lemma {:induction false} StepsArePowers(seed: nat, n: nat)
    requires Good(seed)
    ensures Good(Steps(seed, n)) && Steps(seed, n) == (Pow(A, n) * seed) % M
  {
    hide Next;
    if n > 0 {
      StepsArePowers(seed, n - 1);
      NextIsProduct(Steps(seed, n - 1));
      ProductOfRemainder(Pow(A, n - 1) * seed);
      assert Pow(A, n) * seed == A * (Pow(A, n - 1) * seed);
    }
  }

  lemma ProductOfRemainder(p: int)
    ensures (A * (p % M)) % M == (A * p) % M
  {
    assert A * p == A * (p % M) + M * (A * (p / M));
    ModuloDrops(A * (p % M), A * (p / M));
  }

  lemma ModuloDrops(x: int, k: int)
    ensures (x + M * k) % M == x % M
  {
  }

  /** Of the seeds that a reseed can leave behind, only 0 and M are bad, and they end in M for ever. */
  lemma {:induction false} GoodExactly(seed: nat, n: nat)
    requires seed <= M
    ensures Good(Steps(seed, n)) <==> Good(seed)
    ensures !Good(seed) && n > 0 ==> Steps(seed, n) == M
  {
    if Good(seed) {
      StepsArePowers(seed, n);
    } else if n > 0 {
      GoodExactly(seed, n - 1);
      assert Next(0) == M && Next(M) == M;
    }
  }

  /** The seed that a call with the reseed flag sets, from the argument, the clock and the seed set before. */
  function Reseeded(argument: int, clock: int, before: nat): (r: int)
    requires InSlong(argument) && InSlong(clock) && before <= M
    ensures 0 <= r <= M
  {
    if argument == 0 then (if clock < 0 then 1 else clock) else if argument < 0 then before else argument
  }

  /** Which reseeds the generator survives. */
  lemma ReseedIsGoodExactly(argument: int, clock: int, before: nat, n: nat)
    requires InSlong(argument) && InSlong(clock) && before <= M && n > 0
    ensures Good(Steps(Reseeded(argument, clock, before), n)) <==>
      argument != M && (argument == 0 ==> clock != 0 && clock != M) && (argument < 0 ==> Good(before))
  {
    GoodExactly(Reseeded(argument, clock, before), n);
  }

  /** cCmdWrapRandomEx and its two static variables. */
  class RandomEx {
    var randomSeed: int
    var oldRandomSeed: int

    predicate Valid()
      reads this
    {
      0 <= randomSeed <= M && 0 <= oldRandomSeed <= M
    }

    constructor ()
      ensures Valid() && randomSeed == 1 && oldRandomSeed == 1
    {
      randomSeed, oldRandomSeed := 1, 1;
    }

    method Call(argument: int, reseed: bool, clock: int) returns (seed: int)
      requires Valid() && InSlong(argument) && InSlong(clock)
      modifies this
      ensures Valid() && seed == randomSeed
      ensures randomSeed == if reseed then Reseeded(argument, clock, old(oldRandomSeed)) else Steps(old(randomSeed), 1)
      ensures oldRandomSeed == if reseed then randomSeed else old(oldRandomSeed)
      ensures reseed && argument > 0 ==> seed == argument
      ensures reseed && argument == 0 ==> seed == if clock >= 0 then clock else 1
      ensures reseed && argument < 0 ==> seed == old(oldRandomSeed)
      ensures !reseed && Good(old(randomSeed)) ==> Good(seed) && seed == (48271 * old(randomSeed)) % 0x7FFF_FFFF
    {
      if reseed {
        seed := argument;
        if seed == 0 {
          seed := clock;
          if seed < 0 {
            seed := 1;
          }
        } else if seed < 0 {
          seed := oldRandomSeed;
        }
        randomSeed := seed;
        oldRandomSeed := randomSeed;
      } else {
        assert Steps(randomSeed, 0) == randomSeed;
        NoOverflow(randomSeed);
        if Good(randomSeed) {
          NextIsProduct(randomSeed);
        }
        var test := A * (randomSeed % Q) - R * (randomSeed / Q);
        if test > 0 {
          randomSeed := test;
        } else {
          randomSeed := test + M;
        }
      }
      seed := randomSeed;
    }
  }
}

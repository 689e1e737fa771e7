/** Where comparing and testing instructions lead, in terms of the values compared, and the interpreters of tests. */
module Branching {
  import opened Words
  import opened TypeTrees
  import opened Dataspaces
  import opened Values
  import opened Orders
  import opened Comparing
  import opened Clumps
  import opened Schedulers
  import opened Dispatching

  /** The first word of an instruction, put together from its size, short flag, comparison and operation code. */
  lemma DecodeExactly(code: seq<word>, pc: nat, size: nat, short: bool, cc: nat, op: nat)
    requires pc < |code| && size < 16 && cc < 8 && op < 0x100
    requires code[pc] == 0x1000 * size + (if short then 0x800 else 0) + 0x100 * cc + op
    ensures OpCode(code, pc) == op && CompCode(code, pc) == cc && (IsShortOp(code, pc) <==> short)
    ensures InstrSize(code, pc) == if size == 14 && pc + 1 < |code| then code[pc + 1] else size
  {
    var s := if short then 1 else 0;
    assert code[pc] / 0x100 == 0x10 * size + 8 * s + cc;
    assert code[pc] / 0x800 == 2 * size + s;
  }

  // ---- comparisons ----

  /** A comparison in both interpreters: its result stored, or the program counter moved by it. */
  ghost predicate ComparesAs(toc: seq<Entry>, code: seq<word>, pc: nat, counter: int, holds: bool, o: Outcome)
    requires Sane(toc, code, pc)
  {
    var a := code[pc + 1];
    o == if OpCode(code, pc) == OP_CMP then Outcome(SetScalar(a, holds), 4)
         else if !holds then Outcome(Nothing, 4)
         else if OpCode(code, pc) == OP_BRCMP then Outcome(Nothing, if a < 0x8000 then a else a - 0x1_0000)
         else Outcome(Nothing, a - counter)
  }

  /**
   Two integers are compared as what they are, except that, where one of them is of an unsigned type, a negative one counts
   as 2 to the 32 more. Both interpreters store the result, or branch exactly if it holds: by a signed distance, or to an
   address.
  */
  lemma IntegersCompareExactly(toc: seq<Entry>, code: seq<word>, pc: nat, counter: int, val: nat -> int,
                               agg: (int, nat, nat) -> bool, b: seq<byte>, c: seq<byte>)
    requires Sane(toc, code, pc)
    requires var t, u := toc[code[pc + 2]].typeCode, toc[code[pc + 3]].typeCode;
      IsInteger(t) && IsInteger(u) && |b| == SizeOf(t) && |c| == SizeOf(u)
      && val(code[pc + 2]) == ToUlong(Number(t, b)) && val(code[pc + 3]) == ToUlong(Number(u, c))
    ensures var t, u := toc[code[pc + 2]].typeCode, toc[code[pc + 3]].typeCode;
      var x, y := Number(t, b), Number(u, c);
      var unsigned := t in {1, 3, 5} || u in {1, 3, 5};
      var x' := if unsigned && x < 0 then x + 0x1_0000_0000 else x;
      var y' := if unsigned && y < 0 then y + 0x1_0000_0000 else y;
      && ComparesAs(toc, code, pc, counter, Holds(CompCode(code, pc), Sign(x' - y')),
                    ScalarBinop(toc, code, pc, counter, val, agg))
      && ComparesAs(toc, code, pc, counter, Holds(CompCode(code, pc), Sign(x' - y')),
                    Binop(toc, code, pc, counter, val, agg))
  {
    hide Number, SizeOf, Holds, CompCode, InstrSize, IsShortOp, OpCode, ToUlong, ToSlong, AggregateFlag;
    var t, u := toc[code[pc + 2]].typeCode, toc[code[pc + 3]].typeCode;
    NumberRange(t, b);
    NumberRange(u, c);
    Images(Number(t, b));
    Images(Number(u, c));
  }

  lemma Images(n: int)
    requires -0x8000_0000 <= n < 0x1_0000_0000
    ensures ToUlong(n) == if n < 0 then n + 0x1_0000_0000 else n
    ensures n < 0x8000_0000 ==> ToSlong(ToUlong(n)) == n
  {
  }

  /**
   Two aggregates are compared in the order of their values, which is what comparing aggregates decides: by the general
   interpreter, but for a destination that is an aggregate; and two strings by the scalar one.
  */
  lemma AggregatesCompareExactly(toc: seq<Entry>, code: seq<word>, pc: nat, counter: int, val: nat -> int,
                                 agg: (int, nat, nat) -> bool, v: Val, u: Val)
    requires Sane(toc, code, pc)
    requires IsAggregate(toc[code[pc + 2]].typeCode) && IsAggregate(toc[code[pc + 3]].typeCode)
    requires agg(CompCode(code, pc), code[pc + 2], code[pc + 3]) == Holds(CompCode(code, pc), Cmp(v, u))
    ensures OpCode(code, pc) != OP_CMP || !IsAggregate(toc[code[pc + 1]].typeCode) ==>
      ComparesAs(toc, code, pc, counter, Holds(CompCode(code, pc), Cmp(v, u)), Binop(toc, code, pc, counter, val, agg))
    ensures OpCode(code, pc) == OP_CMP && toc[code[pc + 2]].typeCode == TC_ARRAY ==>
      ComparesAs(toc, code, pc, counter, Holds(CompCode(code, pc), Cmp(v, u)),
                 ScalarBinop(toc, code, pc, counter, val, agg))
  {
    hide Holds, CompCode, InstrSize, IsShortOp, OpCode, Cmp, Compare;
  }

  /** On which comparisons the two interpreters can differ at all, whatever the values compared. */
  lemma CanDifferExactly(toc: seq<Entry>, code: seq<word>, pc: nat)
    requires Sane(toc, code, pc)
    ensures var t, u := toc[code[pc + 2]].typeCode, toc[code[pc + 3]].typeCode;
      (exists counter, val, agg ::
         ScalarBinop(toc, code, pc, counter, val, agg) != Binop(toc, code, pc, counter, val, agg)) <==>
      if OpCode(code, pc) == OP_CMP then
        var flag := IsAggregate(u) && !IsAggregate(toc[code[pc + 1]].typeCode);
        (t == TC_ARRAY && !flag) || (t == TC_CLUSTER && flag)
      else IsAggregate(t) && (OpCode(code, pc) == OP_BRCMP ==> code[pc + 1] != 4)
  {
    hide CompCode, InstrSize, IsShortOp, OpCode;
    var t, u := toc[code[pc + 2]].typeCode, toc[code[pc + 3]].typeCode;
    var val: nat -> int := _ => 0;
    var same := Compare(CompCode(code, pc), 0, 0, t, u);
    var agg: (int, nat, nat) -> bool := (_, _, _) => !same;
    var counter := code[pc + 1];
    if ScalarBinop(toc, code, pc, counter, val, agg) == Binop(toc, code, pc, counter, val, agg) {
      hide Compare;
    }
  }

  /** What the scan takes for an instruction that needs the general interpreter, operand kind by operand kind. */
  lemma ScanFinds(toc: seq<Entry>, code: seq<word>, pc: nat)
    requires Sane(toc, code, pc)
    ensures var t, u := toc[code[pc + 2]].typeCode, toc[code[pc + 3]].typeCode;
      && (!IsAggregate(t) && !IsAggregate(u) ==> !NeedsBinop(toc, code, pc))
      && (OpCode(code, pc) != OP_CMP && (IsAggregate(t) || IsAggregate(u)) ==> NeedsBinop(toc, code, pc))
      && (OpCode(code, pc) == OP_CMP && (t == TC_CLUSTER || u == TC_CLUSTER) ==> NeedsBinop(toc, code, pc))
      && (OpCode(code, pc) == OP_CMP && t == u == TC_ARRAY && toc[code[pc + 1]].typeCode == TC_ARRAY ==>
            NeedsBinop(toc, code, pc))
      && (OpCode(code, pc) == OP_CMP && IsString(toc, code[pc + 2]) && IsString(toc, code[pc + 3]) ==>
            (NeedsBinop(toc, code, pc) <==> toc[code[pc + 1]].typeCode == TC_ARRAY))
  {
  }

  // ---- tests ----

  /** What a negation or a test does: a truth value stored, elements negated one by one, or a branch. */
  datatype Tested = Negated(dest: nat, value: bool) | ElementsNegated(dest: nat, source: nat) | Tested(pcDelta: int)

  /** The operand names an element of the dataspace. */
  predicate SaneTest(toc: seq<Entry>, code: seq<word>, pc: nat) {
    && pc + 3 <= |code| && !IsShortOp(code, pc) && InstrSize(code, pc) == 6 && IsTest(OpCode(code, pc))
    && code[pc + 2] < |toc| <= NIL
  }

  /** A scalar tested against zero: always as a signed number, but for bytes tested for equality. */
  function Zeroed(cc: int, v: int, typeCode: byte): bool {
    if cc == EQ && typeCode == TC_UBYTE then v == 0 else Holds(cc, Sign(ToSlong(v)))
  }

  /** cCmdInterpScalarUnop2 on OP_NOT and the tests; a test of NOT_A_DS_ID is a test of nothing. */
  function ScalarUnop2(toc: seq<Entry>, code: seq<word>, pc: nat, counter: int, val: nat -> int): Tested
    requires SaneTest(toc, code, pc) || (pc + 3 <= |code| && OpCode(code, pc) != OP_NOT && code[pc + 2] == NIL)
  {
    var op, cc, a1, a2 := OpCode(code, pc), CompCode(code, pc), code[pc + 1], code[pc + 2];
    if op == OP_NOT then Negated(a1, val(a2) == 0)
    else
      var branch :=
        if a2 == NIL then cc == EQ || cc == LTEQ || cc == GTEQ else Zeroed(cc, val(a2), toc[a2].typeCode);
      Tested(Branched(op, a1, counter, branch, 3))
  }

  /** cCmdInterpUnop2 on the same; zero says of a floating-point number that it is 0. */
  function Unop2(toc: seq<Entry>, code: seq<word>, pc: nat, counter: int, val: nat -> int, zero: nat -> bool): Tested
    requires SaneTest(toc, code, pc)
  {
    var op, cc, a1, a2 := OpCode(code, pc), CompCode(code, pc), code[pc + 1], code[pc + 2];
    if op == OP_NOT then
      if IsAggregate(toc[a2].typeCode) then ElementsNegated(a1, a2)
      else Negated(a1, if toc[a2].typeCode == TC_FLOAT then zero(a2) else val(a2) == 0)
    else Tested(Branched(op, a1, counter, Zeroed(cc, val(a2), toc[a2].typeCode), 3))
  }

  /** A test in terms of the number tested: an unsigned one of 2 to the 31 or more counts as negative. */
  lemma IntegersTestExactly(toc: seq<Entry>, code: seq<word>, pc: nat, counter: int, val: nat -> int, zero: nat -> bool,
                            b: seq<byte>)
    requires SaneTest(toc, code, pc)
    requires var t := toc[code[pc + 2]].typeCode;
      IsInteger(t) && |b| == SizeOf(t) && val(code[pc + 2]) == ToUlong(Number(t, b))
    ensures var x := Number(toc[code[pc + 2]].typeCode, b);
      var holds := Holds(CompCode(code, pc), Sign(if x < 0x8000_0000 then x else x - 0x1_0000_0000));
      var a := code[pc + 1];
      && ScalarUnop2(toc, code, pc, counter, val) == Unop2(toc, code, pc, counter, val, zero)
      && Unop2(toc, code, pc, counter, val, zero) ==
           if OpCode(code, pc) == OP_NOT then Negated(a, x == 0)
           else if !holds then Tested(3)
           else if OpCode(code, pc) == OP_BRTST then Tested(if a < 0x8000 then a else a - 0x1_0000)
           else Tested(a - counter)
  {
    hide Number, SizeOf, InstrSize, IsShortOp, OpCode, CompCode;
    NumberRange(toc[code[pc + 2]].typeCode, b);
  }

  /** Testing nothing is testing 0, for the scalar interpreter. */
  lemma NothingIsZero(toc: seq<Entry>, code: seq<word>, pc: nat, counter: int, val: nat -> int)
    requires pc + 3 <= |code| && OpCode(code, pc) == OP_BRTST && CompCode(code, pc) < 6 && code[pc + 2] == NIL
    ensures var a: int := code[pc + 1];
      ScalarUnop2(toc, code, pc, counter, val) ==
        if Holds(CompCode(code, pc), 0) then Tested(if a < 0x8000 then a else a - 0x1_0000) else Tested(3)
  {
    hide OpCode;
  }

  /**
   On an operand that is no aggregate the interpreters agree, unless it is a floating-point number other than 0 that rounds
   to 0: the scalar one negates the rounded number. Only negating needs the scan: tests agree on every operand.
  */
  lemma TestsAgreeExactly(toc: seq<Entry>, code: seq<word>, pc: nat, counter: int, val: nat -> int, zero: nat -> bool)
    requires SaneTest(toc, code, pc)
    ensures var t := toc[code[pc + 2]].typeCode;
      ScalarUnop2(toc, code, pc, counter, val) == Unop2(toc, code, pc, counter, val, zero) <==>
      (OpCode(code, pc) == OP_NOT ==>
         !NeedsUnop2(toc, code, pc) && (t == TC_FLOAT ==> (zero(code[pc + 2]) <==> val(code[pc + 2]) == 0)))
  {
    hide Zeroed, CompCode, Branched;
  }

  /** The interpreter in use for two-argument instructions */
  ghost function DispatchedTest(hints: Hints, toc: seq<Entry>, code: seq<word>, pc: nat, counter: int, val: nat -> int,
                                zero: nat -> bool): Tested
    requires SaneTest(toc, code, pc)
  {
    if hints.scalarUnop2 then ScalarUnop2(toc, code, pc, counter, val) else Unop2(toc, code, pc, counter, val, zero)
  }

  /** In every state of the scheduler whose hints come from the scan, a negation or test of the clump at the head of RunQ
      does what the general interpreter does, if no floating-point number other than 0 rounds to 0. */
  lemma HeadTestsAsGeneral(s: Scheduler, toc: seq<Entry>, codes: seq<seq<word>>, pc: nat, counter: int, val: nat -> int,
                           zero: nat -> bool)
    requires s.Valid() && s.q[RUN] != [] && |codes| == |s.hints|
    requires forall c :: 0 <= c < |codes| ==> (s.hints[c].scalarUnop2 <==> AllScalarUnop2(toc, codes[c], 0))
    requires s.q[RUN][0] < |codes| && StartsAt(codes[s.q[RUN][0]], 0, pc) && SaneTest(toc, codes[s.q[RUN][0]], pc)
    ensures var code := codes[s.q[RUN][0]];
      var a := code[pc + 2];
      DispatchedTest(s.dispatch, toc, code, pc, counter, val, zero) == Unop2(toc, code, pc, counter, val, zero) <==>
      !(AllScalarUnop2(toc, code, 0) && OpCode(code, pc) == OP_NOT && toc[a].typeCode == TC_FLOAT &&
        (zero(a) <==> val(a) != 0))
  {
    var code := codes[s.q[RUN][0]];
    assert s.dispatch == s.hints[s.q[RUN][0]];
    if s.dispatch.scalarUnop2 {
      assert !NeedsUnop2(toc, code, pc);
      TestsAgreeExactly(toc, code, pc, counter, val, zero);
      hide ScalarUnop2, Unop2, AllScalarUnop2, StartsAt, InstrSize, IsShortOp;
    }
  }
}

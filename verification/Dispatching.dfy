/** The scalar and the general interpreters of comparing and testing instructions, and the choice between them. */
module Dispatching {
  import opened Words
  import opened TypeTrees
  import opened Dataspaces
  import opened Orders
  import opened Comparing
  import opened Clumps
  import opened Schedulers

  const OP_NOT := 0x09
  const OP_CMP := 0x11
  const OP_BRCMP := 0x26
  const OP_BRTST := 0x27
  const OP_BRCMPABSVAR := 0x95
  const OP_BRTSTABSVAR := 0x96
  const VAR_INSTR_SIZE := 0xE

  // ---- instructions ----

  function OpCode(code: seq<word>, pc: nat): int
    requires pc < |code|
  {
    code[pc] % 0x100
  }

  function CompCode(code: seq<word>, pc: nat): int
    requires pc < |code|
  {
    code[pc] / 0x100 % 8
  }

  predicate IsShortOp(code: seq<word>, pc: nat)
    requires pc < |code|
  {
    code[pc] / 0x800 % 2 == 1
  }

  /** The size of an instruction in bytes. */
  function InstrSize(code: seq<word>, pc: nat): int
    requires pc < |code|
  {
    var size := code[pc] / 0x1000;
    if size == VAR_INSTR_SIZE && pc + 1 < |code| then code[pc + 1] else size
  }

  /** From pc on, the code is a row of whole instructions. */
  ghost predicate Laid(code: seq<word>, pc: nat)
    decreases |code| - pc
  {
    pc == |code| || (pc < |code| && InstrSize(code, pc) >= 2 && Laid(code, pc + InstrSize(code, pc) / 2))
  }

  /** An instruction starts at p, if the code is read from pc on. */
  ghost predicate StartsAt(code: seq<word>, pc: nat, p: nat)
    decreases |code| - pc
  {
    pc < |code| && (p == pc || (InstrSize(code, pc) >= 2 && StartsAt(code, pc + InstrSize(code, pc) / 2, p)))
  }

  // ---- the scan at activation ----

  predicate Aggregate(toc: seq<Entry>, id: nat) {
    id < |toc| && IsAggregate(toc[id].typeCode)
  }

  predicate IsString(toc: seq<Entry>, id: nat) {
    id + 1 < |toc| && toc[id].typeCode == TC_ARRAY && toc[id + 1].typeCode == TC_UBYTE
  }

  predicate IsCompare(op: int) {
    op == OP_CMP || op == OP_BRCMP || op == OP_BRCMPABSVAR
  }

  predicate IsTest(op: int) {
    op == OP_NOT || op == OP_BRTST || op == OP_BRTSTABSVAR
  }

  /** An instruction with three arguments that the scan finds to need the general interpreter. */
  predicate NeedsBinop(toc: seq<Entry>, code: seq<word>, pc: nat) {
    && pc + 4 <= |code| && !IsShortOp(code, pc) && InstrSize(code, pc) == 8 && IsCompare(OpCode(code, pc))
    && code[pc + 2] < |toc| && code[pc + 3] < |toc|
    && (Aggregate(toc, code[pc + 2]) || Aggregate(toc, code[pc + 3]))
    && (OpCode(code, pc) == OP_CMP ==>
          !(IsString(toc, code[pc + 2]) && IsString(toc, code[pc + 3]))
            || (code[pc + 1] < |toc| && toc[code[pc + 1]].typeCode == TC_ARRAY))
  }

  /** The same for two arguments. */
  predicate NeedsUnop2(toc: seq<Entry>, code: seq<word>, pc: nat) {
    && pc + 3 <= |code| && !IsShortOp(code, pc) && InstrSize(code, pc) == 6 && IsTest(OpCode(code, pc))
    && Aggregate(toc, code[pc + 2])
  }

  /** No instruction needs the general interpreter. */
  ghost predicate AllScalarBinop(toc: seq<Entry>, code: seq<word>, pc: nat) {
    forall p :: pc <= p < |code| && StartsAt(code, pc, p) ==> !NeedsBinop(toc, code, p)
  }

  ghost predicate AllScalarUnop2(toc: seq<Entry>, code: seq<word>, pc: nat) {
    forall p :: pc <= p < |code| && StartsAt(code, pc, p) ==> !NeedsUnop2(toc, code, p)
  }

  lemma NextStarts(toc: seq<Entry>, code: seq<word>, pc: nat)
    requires pc < |code| && Laid(code, pc)
    ensures var next := pc + InstrSize(code, pc) / 2;
      && (AllScalarBinop(toc, code, pc) <==> !NeedsBinop(toc, code, pc) && AllScalarBinop(toc, code, next))
      && (AllScalarUnop2(toc, code, pc) <==> !NeedsUnop2(toc, code, pc) && AllScalarUnop2(toc, code, next))
  {
    var next := pc + InstrSize(code, pc) / 2;
    assert StartsAt(code, pc, pc);
    forall p | pc <= p < |code| ensures StartsAt(code, pc, p) <==> p == pc || (next <= p && StartsAt(code, next, p)) {
      if p < next && StartsAt(code, next, p) {
        StartsLater(code, next, p);
      }
    }
  }

  lemma {:induction false} StartsLater(code: seq<word>, pc: nat, p: nat)
    requires StartsAt(code, pc, p)
    ensures pc <= p
    decreases |code| - pc
  {
    if p != pc {
      StartsLater(code, pc + InstrSize(code, pc) / 2, p);
    }
  }

  /** The last word of a clump is too short to hold an instruction with arguments. */
  lemma LastWord(toc: seq<Entry>, code: seq<word>, pc: nat)
    requires pc + 1 >= |code|
    ensures AllScalarBinop(toc, code, pc) && AllScalarUnop2(toc, code, pc)
  {
  }

  /** The scan of one clump's code in cCmdActivateProgram, which gives up when nothing is scalar any more. */
  method Scan(toc: seq<Entry>, code: seq<word>) returns (scalarBinop: bool, scalarUnop2: bool)
    requires 1 < |code| && Laid(code, 0)
    ensures scalarBinop <==> AllScalarBinop(toc, code, 0)
    ensures scalarUnop2 <==> AllScalarUnop2(toc, code, 0)
  {
    hide AllScalarBinop, AllScalarUnop2, StartsAt;
    scalarBinop, scalarUnop2 := true, true;
    var pc: nat := 0;
    var lastPC := |code| - 1;
    while (scalarBinop || scalarUnop2) && pc < lastPC
      invariant pc <= |code| && Laid(code, pc)
      invariant AllScalarBinop(toc, code, 0) <==> scalarBinop && AllScalarBinop(toc, code, pc)
      invariant AllScalarUnop2(toc, code, 0) <==> scalarUnop2 && AllScalarUnop2(toc, code, pc)
      decreases |code| - pc
    {
      NextStarts(toc, code, pc);
      var size := InstrSize(code, pc);
      ghost var next := pc + size / 2;
      assert next <= |code|;
      if IsShortOp(code, pc) {
      } else if size == 6 {
        if IsTest(OpCode(code, pc)) && code[pc + 2] < |toc| && Aggregate(toc, code[pc + 2]) {
          scalarUnop2 := false;
        }
      } else if size == 8 {
        if IsCompare(OpCode(code, pc)) && code[pc + 2] < |toc| && code[pc + 3] < |toc|
           && (Aggregate(toc, code[pc + 2]) || Aggregate(toc, code[pc + 3]))
        {
          if OpCode(code, pc) == OP_CMP {
            if !IsString(toc, code[pc + 2]) || !IsString(toc, code[pc + 3])
               || (code[pc + 1] < |toc| && toc[code[pc + 1]].typeCode == TC_ARRAY)
            {
              scalarBinop := false;
            }
          } else {
            scalarBinop := false;
          }
        }
      }
      pc := pc + size / 2;
    }
    if pc >= lastPC {
      LastWord(toc, code, pc);
    }
  }

  // ---- the interpreters ----

  /** What an instruction does besides moving the program counter. */
  datatype Action = Nothing | SetScalar(dest: nat, value: bool) | Elementwise(dest: nat, left: nat, right: nat)

  datatype Outcome = Outcome(action: Action, pcDelta: int)

  function ToSword(x: word): int {
    if x < 0x8000 then x else x - 0x1_0000
  }

  /** The program counter after a comparison: the branch if flag, else the next instruction. */
  function Branched(op: int, arg1: word, counter: int, flag: bool, size: int): int {
    if !flag then size else if op == OP_BRCMP || op == OP_BRTST then ToSword(arg1) else arg1 - counter
  }

  /** The arguments name elements of the dataspace. */
  predicate Sane(toc: seq<Entry>, code: seq<word>, pc: nat) {
    && pc + 4 <= |code| && !IsShortOp(code, pc) && InstrSize(code, pc) == 8 && IsCompare(OpCode(code, pc))
    && code[pc + 2] < |toc| && code[pc + 3] < |toc| && (OpCode(code, pc) == OP_CMP ==> code[pc + 1] < |toc|)
  }

  /** cCmdCompareAggregates: on two scalars it comes down to their comparison, on aggregates to agg. */
  function AggregateFlag(toc: seq<Entry>, cc: int, left: nat, right: nat, val: nat -> int,
                         agg: (int, nat, nat) -> bool): bool
    requires left < |toc| && right < |toc|
  {
    if IsAggregate(toc[left].typeCode) then agg(cc, left, right)
    else if Compare(NEQ, val(left), val(right), toc[left].typeCode, toc[right].typeCode)
    then Compare(cc, val(left), val(right), toc[left].typeCode, toc[right].typeCode)
    else cc == EQ || cc == GTEQ || cc == LTEQ
  }

  /** cCmdInterpScalarBinop on a comparison; val fetches scalars, agg compares aggregates. */
  function ScalarBinop(toc: seq<Entry>, code: seq<word>, pc: nat, counter: int, val: nat -> int,
                       agg: (int, nat, nat) -> bool): Outcome
    requires Sane(toc, code, pc)
  {
    var op, cc, a1, a2, a3 := OpCode(code, pc), CompCode(code, pc), code[pc + 1], code[pc + 2], code[pc + 3];
    var t2, t3 := toc[a2].typeCode, toc[a3].typeCode;
    if op == OP_CMP then
      if t2 <= TC_SLONG && t3 <= TC_SLONG then Outcome(SetScalar(a1, Compare(cc, val(a2), val(a3), t2, t3)), 4)
      else if t2 == TC_ARRAY then Outcome(SetScalar(a1, AggregateFlag(toc, cc, a2, a3, val, agg)), 4)
      else Outcome(Elementwise(a1, a2, a3), 4)
    else
      Outcome(Nothing, Branched(op, a1, counter, Compare(cc, val(a2), val(a3), t2, t3), 4))
  }

  /** cCmdInterpBinop on a comparison. */
  function Binop(toc: seq<Entry>, code: seq<word>, pc: nat, counter: int, val: nat -> int,
                 agg: (int, nat, nat) -> bool): Outcome
    requires Sane(toc, code, pc)
  {
    var op, cc, a1, a2, a3 := OpCode(code, pc), CompCode(code, pc), code[pc + 1], code[pc + 2], code[pc + 3];
    var t2, t3 := toc[a2].typeCode, toc[a3].typeCode;
    if op == OP_CMP then
      if t2 <= TC_SLONG && t3 <= TC_SLONG then Outcome(SetScalar(a1, Compare(cc, val(a2), val(a3), t2, t3)), 4)
      else if IsAggregate(t2) && IsAggregate(t3) && !IsAggregate(toc[a1].typeCode)
      then Outcome(SetScalar(a1, AggregateFlag(toc, cc, a2, a3, val, agg)), 4)
      else Outcome(Elementwise(a1, a2, a3), 4)
    else
      var flag :=
        if t2 <= TC_SLONG && t3 <= TC_SLONG then Compare(cc, val(a2), val(a3), t2, t3)
        else AggregateFlag(toc, cc, a2, a3, val, agg);
      Outcome(Nothing, Branched(op, a1, counter, flag, 4))
  }

  /** Comparing two scalars as aggregates is comparing them. */
  lemma ScalarsAsAggregates(toc: seq<Entry>, cc: int, left: nat, right: nat, val: nat -> int,
                            agg: (int, nat, nat) -> bool)
    requires left < |toc| && right < |toc| && !IsAggregate(toc[left].typeCode)
    ensures AggregateFlag(toc, cc, left, right, val, agg) ==
      Compare(cc, val(left), val(right), toc[left].typeCode, toc[right].typeCode)
  {
  }

  /** Two strings compared into a cluster */
  predicate IntoCluster(toc: seq<Entry>, code: seq<word>, pc: nat)
    requires Sane(toc, code, pc)
  {
    OpCode(code, pc) == OP_CMP && IsString(toc, code[pc + 2]) && IsString(toc, code[pc + 3])
      && toc[code[pc + 1]].typeCode == TC_CLUSTER
  }

  /**
   In code that the scan finds scalar, both interpreters do the same, unless two strings are compared into
   a cluster: the scan lets that pass, and only the general interpreter then goes through the cluster's fields.
  */
  lemma FastDispatchExactly(toc: seq<Entry>, code: seq<word>, pc: nat, counter: int, val: nat -> int,
                            agg: (int, nat, nat) -> bool)
    requires Sane(toc, code, pc) && AllScalarBinop(toc, code, 0) && StartsAt(code, 0, pc)
    ensures ScalarBinop(toc, code, pc, counter, val, agg) == Binop(toc, code, pc, counter, val, agg) <==>
      !IntoCluster(toc, code, pc)
  {
    assert !NeedsBinop(toc, code, pc);
    ScalarsOrStrings(toc, code, pc);
    if !IsAggregate(toc[code[pc + 2]].typeCode) {
      ScalarsAsAggregates(toc, CompCode(code, pc), code[pc + 2], code[pc + 3], val, agg);
    }
    hide AggregateFlag, Compare, AllScalarBinop, StartsAt, InstrSize, IsShortOp, CompCode, NeedsBinop;
  }

  lemma ScalarsOrStrings(toc: seq<Entry>, code: seq<word>, pc: nat)
    requires Sane(toc, code, pc) && !NeedsBinop(toc, code, pc)
    ensures !IsAggregate(toc[code[pc + 2]].typeCode) <==> !IsAggregate(toc[code[pc + 3]].typeCode)
    ensures IsAggregate(toc[code[pc + 2]].typeCode) ==> OpCode(code, pc) == OP_CMP && toc[code[pc + 1]].typeCode != TC_ARRAY
    ensures IsAggregate(toc[code[pc + 2]].typeCode) ==> IsString(toc, code[pc + 2]) && IsString(toc, code[pc + 3])
  {
  }

  // ---- what a comparison stores ----

  /** The setters that store something; for arrays, clusters and mutexes it is cCmdSetError, which does not. */
  predicate HasSetter(code: byte) {
    code <= TC_SLONG || code == TC_FLOAT
  }

  /** An argument of cCmdInterpPolyBinop: its type and the offset that its fields and elements count from */
  datatype Arg = Arg(t: Ty, off: nat)

  /** How a source argument advances while the fields of the destination are walked: an array by its element size. */
  datatype Source = Fixed(arg: Arg) | Elems(e: Ty, at: nat, step: nat) {
    function Current(): Arg {
      if Fixed? then arg else Arg(e, at)
    }

    function Next(): Source {
      if Fixed? then this else Elems(e, at + step, step)
    }
  }

  function Enter(m: seq<byte>, dv: DVs, a: Arg): Source {
    if a.t.Array? then var d := VecOf(m, dv, a.off + a.t.off); Elems(a.t.elem, d.offset, d.elemSize) else Fixed(a)
  }

  /** A scalar, or an array of scalars */
  predicate Plain(t: Ty) {
    t.Scalar? || (t.Array? && t.elem.Scalar?)
  }

  /** cCmdInterpPolyBinop on OP_CMP into a scalar or a cluster, from scalars and arrays of scalars: the addresses it
      stores to and the results it stores. fetch reads a scalar of a type at an address. */
  function PolyCompare(m: seq<byte>, dv: DVs, cc: int, d: Arg, a: Arg, b: Arg, fetch: (nat, byte) -> int): seq<(nat, bool)>
    requires Plain(a.t) && Plain(b.t) && !d.t.Array? && (a.t.Array? || b.t.Array? ==> d.t.Cluster? && NoArrays(d.t.fields))
    decreases d.t
  {
    if a.t.Scalar? && b.t.Scalar? then
      if d.t.Scalar? && HasSetter(d.t.code) then
        [(d.off + d.t.off, Compare(cc, fetch(a.off + a.t.off, a.t.code), fetch(b.off + b.t.off, b.t.code), a.t.code, b.t.code))]
      else []
    else PolyFields(m, dv, cc, d.t.fields, d.off, Enter(m, dv, a), Enter(m, dv, b), fetch)
  }

  /** Its loop over the fields of a cluster */
  function PolyFields(m: seq<byte>, dv: DVs, cc: int, fs: Tys, off: nat, a: Source, b: Source,
                      fetch: (nat, byte) -> int): seq<(nat, bool)>
    requires NoArrays(fs) && a.Current().t.Scalar? && b.Current().t.Scalar?
    decreases fs
  {
    if fs.NoMore? then []
    else
      PolyCompare(m, dv, cc, Arg(fs.head, off), a.Current(), b.Current(), fetch)
      + PolyFields(m, dv, cc, fs.tail, off, a.Next(), b.Next(), fetch)
  }

  /** No field is an array: there, the program would allocate storage. */
  predicate NoArrays(fs: Tys) {
    fs.Fields? ==> !fs.head.Array? && NoArrays(fs.tail)
  }

  /** The fields are integers. */
  predicate Flat(fs: Tys) {
    fs.Fields? ==> fs.head.Scalar? && IsInteger(fs.head.code) && Flat(fs.tail)
  }

  function FieldAt(fs: Tys, i: nat): Ty
    requires i < Count(fs)
  {
    if i == 0 then fs.head else FieldAt(fs.tail, i - 1)
  }

  lemma {:induction false} FlatHasNoArrays(fs: Tys)
    requires Flat(fs)
    ensures NoArrays(fs)
  {
    if fs.Fields? {
      FlatHasNoArrays(fs.tail);
    }
  }

  /** Where element i of an array of scalars is */
  function Address(s: Source, i: nat): nat
    requires s.Elems? && s.e.Scalar?
  {
    s.at + i * s.step + s.e.off
  }

  lemma NextAddress(s: Source, i: nat)
    requires s.Elems? && s.e.Scalar? && i > 0
    ensures Address(s.Next(), i - 1) == Address(s, i)
  {
    assert s.at + s.step + (i - 1) * s.step == s.at + i * s.step;
  }

  /** The result for elements i of two arrays of scalars */
  function ElementResult(cc: int, a: Source, b: Source, fetch: (nat, byte) -> int, i: nat): bool
    requires a.Elems? && b.Elems? && a.e.Scalar? && b.e.Scalar?
  {
    Compare(cc, fetch(Address(a, i), a.e.code), fetch(Address(b, i), b.e.code), a.e.code, b.e.code)
  }

  /** Walking two arrays of scalars along integer fields: field i gets the result for elements i. */
  lemma {:induction false} FieldsGetElements(m: seq<byte>, dv: DVs, cc: int, fs: Tys, off: nat, a: Source, b: Source,
                                             fetch: (nat, byte) -> int, i: nat)
    requires Flat(fs) && NoArrays(fs) && a.Elems? && b.Elems? && a.e.Scalar? && b.e.Scalar?
    ensures |PolyFields(m, dv, cc, fs, off, a, b, fetch)| == Count(fs)
    ensures i < Count(fs) ==>
      FieldAt(fs, i).Scalar? && PolyFields(m, dv, cc, fs, off, a, b, fetch)[i] ==
        (off + FieldAt(fs, i).off, ElementResult(cc, a, b, fetch, i))
    decreases fs
  {
    hide Compare, Address;
    if fs.Fields? {
      var j := if i == 0 then 0 else i - 1;
      FieldsGetElements(m, dv, cc, fs.tail, off, a.Next(), b.Next(), fetch, j);
      FirstGetsFirst(m, dv, cc, fs.head, off, a, b, fetch);
      if i > 0 {
        NextAddress(a, i);
        NextAddress(b, i);
      }
    }
  }

  lemma FirstGetsFirst(m: seq<byte>, dv: DVs, cc: int, d: Ty, off: nat, a: Source, b: Source, fetch: (nat, byte) -> int)
    requires d.Scalar? && IsInteger(d.code) && a.Elems? && b.Elems? && a.e.Scalar? && b.e.Scalar?
    ensures PolyCompare(m, dv, cc, Arg(d, off), a.Current(), b.Current(), fetch) ==
      [(off + d.off, ElementResult(cc, a, b, fetch, 0))]
  {
    hide Compare;
  }

  /** What an action stores, given the trees of its destination and sources. */
  function Effect(m: seq<byte>, dv: DVs, cc: int, action: Action, d: Ty, a: Ty, b: Ty, fetch: (nat, byte) -> int)
    : seq<(nat, bool)>
    requires Plain(a) && Plain(b) && !d.Array? && (a.Array? || b.Array? ==> d.Cluster? && NoArrays(d.fields))
  {
    match action
    case Nothing => []
    case SetScalar(_, value) => if d.Scalar? && HasSetter(d.code) then [(d.off, value)] else []
    case Elementwise(_, _, _) => PolyCompare(m, dv, cc, Arg(d, 0), Arg(a, 0), Arg(b, 0), fetch)
  }

  lemma StringTree(toc: seq<Entry>, id: nat, t: Ty)
    requires At(toc, id, t) && WellFormed(t) && IsString(toc, id)
    ensures t.Array? && t.elem.Scalar? && t.elem.code == TC_UBYTE
  {
    hide At, Encode;
    Here(toc, id, t);
    if t.Array? {
      Here(toc, id + 1, t.elem);
    }
  }

  lemma ClusterTree(toc: seq<Entry>, id: nat, t: Ty)
    requires At(toc, id, t) && WellFormed(t) && id < |toc| && toc[id].typeCode == TC_CLUSTER
    ensures t.Cluster? && toc[id].dsOffset == Count(t.fields)
  {
    hide At, Encode;
    Here(toc, id, t);
  }

  /** Two strings compared into a cluster of integers: the scalar interpreter stores nothing, and the general one
      stores in every field the result for one pair of bytes. */
  lemma IntoClusterStores(toc: seq<Entry>, code: seq<word>, pc: nat, counter: int, val: nat -> int,
                          agg: (int, nat, nat) -> bool,
                          m: seq<byte>, dv: DVs, d: Ty, a: Ty, b: Ty, fetch: (nat, byte) -> int, i: nat)
    requires Sane(toc, code, pc) && IntoCluster(toc, code, pc)
    requires At(toc, code[pc + 1], d) && At(toc, code[pc + 2], a) && At(toc, code[pc + 3], b)
    requires WellFormed(d) && WellFormed(a) && WellFormed(b) && (d.Cluster? ==> Flat(d.fields))
    ensures d.Cluster? && NoArrays(d.fields) && Plain(a) && Plain(b) && a.Array? && b.Array?
    ensures var cc := CompCode(code, pc);
      var fast, slow := ScalarBinop(toc, code, pc, counter, val, agg).action, Binop(toc, code, pc, counter, val, agg).action;
      var stored := Effect(m, dv, cc, slow, d, a, b, fetch);
      var left, right := Enter(m, dv, Arg(a, 0)), Enter(m, dv, Arg(b, 0));
      && Effect(m, dv, cc, fast, d, a, b, fetch) == []
      && |stored| == Count(d.fields) == toc[code[pc + 1]].dsOffset
      && (i < |stored| ==>
            && FieldAt(d.fields, i).Scalar?
            && stored[i] == (FieldAt(d.fields, i).off, ElementResult(cc, left, right, fetch, i)))
  {
    hide Compare, CompCode, AggregateFlag, At, WellFormed, VecOf, ElementResult, Count, PolyFields;
    StringTree(toc, code[pc + 2], a);
    StringTree(toc, code[pc + 3], b);
    ClusterTree(toc, code[pc + 1], d);
    FlatHasNoArrays(d.fields);
    FieldsGetElements(m, dv, CompCode(code, pc), d.fields, 0, Enter(m, dv, Arg(a, 0)), Enter(m, dv, Arg(b, 0)), fetch, i);
  }

  /** The least such program: a cluster of one byte, two strings, and one comparison of the strings into the cluster. */
  lemma StringsIntoCluster(toc: seq<Entry>, code: seq<word>, val: nat -> int, agg: (int, nat, nat) -> bool)
    requires toc == [Entry(TC_CLUSTER, 1), Entry(TC_UBYTE, 0), Entry(TC_ARRAY, 2), Entry(TC_UBYTE, 0),
      Entry(TC_ARRAY, 4), Entry(TC_UBYTE, 0)]
    requires code == [0x8011, 0, 2, 4]
    ensures Sane(toc, code, 0) && Laid(code, 0) && AllScalarBinop(toc, code, 0) && IntoCluster(toc, code, 0)
    ensures ScalarBinop(toc, code, 0, 0, val, agg) == Outcome(SetScalar(0, agg(LT, 2, 4)), 4)
    ensures Binop(toc, code, 0, 0, val, agg) == Outcome(Elementwise(0, 2, 4), 4)
  {
    assert InstrSize(code, 0) == 8;
    NextStarts(toc, code, 0);
    LastWord(toc, code, 4);
  }

  /** The interpreter in use for three-argument instructions. */
  ghost function Dispatched(hints: Hints, toc: seq<Entry>, code: seq<word>, pc: nat, counter: int,
                            val: nat -> int, agg: (int, nat, nat) -> bool): Outcome
    requires Sane(toc, code, pc)
  {
    if hints.scalarBinop then ScalarBinop(toc, code, pc, counter, val, agg) else Binop(toc, code, pc, counter, val, agg)
  }

  /**
   In every reachable state of the scheduler whose hints come from the scan, a comparison of the clump at the head
   of RunQ has the outcome that the general interpreter gives it, unless scalar code compares two strings into a cluster.
  */
  lemma HeadRunsAsGeneral(s: Scheduler, toc: seq<Entry>, codes: seq<seq<word>>, pc: nat, counter: int,
                          val: nat -> int, agg: (int, nat, nat) -> bool)
    requires s.Valid() && s.q[RUN] != [] && |codes| == |s.hints|
    requires forall c :: 0 <= c < |codes| ==> (s.hints[c].scalarBinop <==> AllScalarBinop(toc, codes[c], 0))
    requires s.q[RUN][0] < |codes| && StartsAt(codes[s.q[RUN][0]], 0, pc) && Sane(toc, codes[s.q[RUN][0]], pc)
    ensures var code := codes[s.q[RUN][0]];
      Dispatched(s.dispatch, toc, code, pc, counter, val, agg) == Binop(toc, code, pc, counter, val, agg) <==>
        !(AllScalarBinop(toc, code, 0) && IntoCluster(toc, code, pc))
  {
    var code := codes[s.q[RUN][0]];
    assert s.dispatch == s.hints[s.q[RUN][0]];
    if s.dispatch.scalarBinop {
      FastDispatchExactly(toc, code, pc, counter, val, agg);
    }
  }
}

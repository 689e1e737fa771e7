/** Comparing typed data in the pool. */
module Comparing {
  import opened Words
  import opened Layouts
  import opened TypeTrees
  import opened Dataspaces
  import opened Flattening
  import opened Values
  import opened Orders

  /** What the accessors of the six integer types make of a number: a ULONG. */
  function ToUlong(n: int): int {
    n % 0x1_0000_0000
  }

  /** The cast to SLONG. */
  function ToSlong(v: int): int {
    if v >= 0x8000_0000 then v - 0x1_0000_0000 else v
  }

  /** cCmdCompare: one odd type code, an unsigned one among the integers, makes the comparison unsigned. */
  function Compare(code: int, v: int, u: int, typeCode: byte, typeCode': byte): bool {
    if typeCode % 2 == 1 || typeCode' % 2 == 1 then Holds(code, Sign(v - u)) else Holds(code, Sign(ToSlong(v) - ToSlong(u)))
  }

  predicate IsInteger(code: byte) {
    1 <= code <= TC_SLONG
  }

  /** Only the six integer types occur in t. */
  predicate IntegerLeaves(t: Ty) {
    match t
    case Scalar(code, _) => IsInteger(code)
    case Array(_, e) => IntegerLeaves(e)
    case Cluster(fs) => AllIntegerLeaves(fs)
  }

  predicate AllIntegerLeaves(fs: Tys) {
    fs.Fields? ==> IntegerLeaves(fs.head) && AllIntegerLeaves(fs.tail)
  }

  lemma LittleEndianRange(b: seq<byte>)
    ensures |b| == 1 ==> LittleEndian(b) < 0x100
    ensures |b| == 2 ==> LittleEndian(b) < 0x1_0000
    ensures |b| == 4 ==> LittleEndian(b) < 0x1_0000_0000
  {
    if |b| >= 2 {
      assert b[1..][1..] == b[2..];
      if |b| == 4 {
        assert b[2..][1..] == b[3..] && b[3..][1..] == [];
      }
    }
  }

  /** Odd type codes hold unsigned integers, even ones signed integers. */
  lemma NumberRange(typeCode: byte, b: seq<byte>)
    requires IsInteger(typeCode) && |b| == SizeOf(typeCode)
    ensures if typeCode % 2 == 1 then 0 <= Number(typeCode, b) < 0x1_0000_0000
      else -0x8000_0000 <= Number(typeCode, b) < 0x8000_0000
  {
    LittleEndianRange(b);
  }

  /** Bytes, words and longs, the lowest byte first; even type codes are two's complement. */
  lemma NumberExactly(typeCode: byte, b: seq<byte>)
    requires IsInteger(typeCode) && |b| == SizeOf(typeCode)
    ensures |b| == if typeCode <= 2 then 1 else if typeCode <= 4 then 2 else 4
    ensures var raw := (b[0] as int) + (if typeCode > 2 then 0x100 * (b[1] as int) else 0)
        + if typeCode > 4 then 0x1_0000 * (b[2] as int) + 0x100_0000 * (b[3] as int) else 0;
      var span := if typeCode <= 2 then 0x100 else if typeCode <= 4 then 0x1_0000 else 0x1_0000_0000;
      && 0 <= raw < span
      && if typeCode in {1, 3, 5} then Number(typeCode, b) == raw
         else -span / 2 <= Number(typeCode, b) < span / 2 && Number(typeCode, b) in {raw, raw - span}
  {
    assert LittleEndian(b) == (b[0] as int) + 0x100 * LittleEndian(b[1..]);
    assert LittleEndian([]) == 0;
    if typeCode > 2 {
      assert LittleEndian(b[1..]) == (b[1] as int) + 0x100 * LittleEndian(b[1..][1..]);
      assert b[1..][1..] == b[2..];
    }
    if typeCode > 4 {
      assert LittleEndian(b[2..]) == (b[2] as int) + 0x100 * LittleEndian(b[2..][1..]);
      assert b[2..][1..] == b[3..];
      assert LittleEndian(b[3..]) == (b[3] as int) + 0x100 * LittleEndian(b[3..][1..]);
      assert b[3..][1..] == [];
    }
  }

  lemma CastsKeepOrder(n: int)
    ensures 0 <= n < 0x1_0000_0000 ==> ToUlong(n) == n
    ensures -0x8000_0000 <= n < 0x8000_0000 ==> ToSlong(ToUlong(n)) == n
  {
  }

  /** For two integers of one type, the casts to ULONG and back do not change the order. */
  lemma CompareIsOrder(code: int, typeCode: byte, b: seq<byte>, c: seq<byte>)
    requires IsInteger(typeCode) && |b| == |c| == SizeOf(typeCode)
    ensures Compare(code, ToUlong(Number(typeCode, b)), ToUlong(Number(typeCode, c)), typeCode, typeCode) <==>
      Holds(code, Sign(Number(typeCode, b) - Number(typeCode, c)))
  {
    hide Number, Holds, SizeOf, IsInteger, ToUlong, ToSlong;
    NumberRange(typeCode, b);
    NumberRange(typeCode, c);
    CastsKeepOrder(Number(typeCode, b));
    CastsKeepOrder(Number(typeCode, c));
  }

  /** cCmdGetScalarValFromDataArg. */
  method GetScalarVal(ds: Dataspace, id: nat, off: nat, ghost t: Ty) returns (v: int)
    requires ds.Valid() && At(ds.toc, id, t) && WellFormed(t) && t.Scalar? && IsInteger(t.code) && Ok(ds.Mem(), ds.dv, t, off)
    ensures v == ToUlong(Number(t.code, Bytes(ds.Mem(), Block(off + t.off, SizeOf(t.code)))))
  {
    Here(ds.toc, id, t);
    var code, a := ds.toc[id].typeCode, ds.toc[id].dsOffset + off;
    var n := SizeOf(code);
    ghost var b := Bytes(ds.Mem(), Block(a, n));
    v := 0;
    var i := n;
    while i > 0
      invariant 0 <= i <= n && v == LittleEndian(b[i..])
    {
      i := i - 1;
      assert b[i..][1..] == b[i + 1..] && b[i..][0] == ds.pool[ds.start + a + i];
      v := (ds.pool[ds.start + a + i] as int) + 0x100 * v;
    }
    assert b[0..] == b;
    LittleEndianRange(b);
    if code == 2 && v >= 0x80 {
      v := v + 0xFFFF_FF00;
    } else if code == 4 && v >= 0x8000 {
      v := v + 0xFFFF_0000;
    }
  }

  /** The result a comparison has reached by now, if any, is the one that the order demands. */
  ghost predicate Decides(code: int, finished: bool, result: bool, c: int) {
    (finished <==> c != 0) && (finished ==> (result <==> Holds(code, c)))
  }

  lemma SameKind(t: Ty, u: Ty)
    requires SameType(t, u) && IntegerLeaves(t) && WellFormed(t) && WellFormed(u)
    ensures t.Scalar? ==> u.Scalar? && u.code == t.code && IsInteger(t.code)
    ensures t.Array? ==> u.Array? && SameType(t.elem, u.elem) && IntegerLeaves(t.elem) && WellFormed(t.elem) && WellFormed(u.elem)
    ensures t.Cluster? ==> u.Cluster? && SameTypes(t.fields, u.fields) && AllIntegerLeaves(t.fields)
    ensures t.Cluster? ==> AllWellFormed(t.fields) && AllWellFormed(u.fields)
  {
  }

  /** Two scalars: the first comparison tells whether they differ, the second how. */
  lemma ScalarsCompare(m: seq<byte>, dv: DVs, code: int, t: Ty, x: nat, u: Ty, y: nat)
    requires t.Scalar? && u.Scalar? && u.code == t.code && IsInteger(t.code)
    ensures var v := ToUlong(Number(t.code, Bytes(m, Block(x + t.off, SizeOf(t.code)))));
      var w := ToUlong(Number(u.code, Bytes(m, Block(y + u.off, SizeOf(u.code)))));
      Decides(code, Compare(NEQ, v, w, t.code, u.code), Compare(NEQ, v, w, t.code, u.code) && Compare(code, v, w, t.code, u.code),
              Cmp(Read(m, dv, t, x), Read(m, dv, u, y)))
  {
    hide Number, Compare, Bytes;
    var b, c := Bytes(m, Block(x + t.off, SizeOf(t.code))), Bytes(m, Block(y + u.off, SizeOf(u.code)));
    CompareIsOrder(NEQ, t.code, b, c);
    CompareIsOrder(code, t.code, b, c);
  }

  lemma ArrayReads(m: seq<byte>, dv: DVs, t: Ty, off: nat)
    requires t.Array? && Ok(m, dv, t, off)
    ensures var d := VecOf(m, dv, off + t.off);
      && Read(m, dv, t, off) == Items(ReadElems(m, dv, t.elem, d, 0)) && ElemsOk(m, dv, t.elem, d, 0)
      && (d.count > 0 ==> d.offset + d.Size() <= |m|)
  {
  }

  lemma ClusterReads(m: seq<byte>, dv: DVs, t: Ty, off: nat)
    requires t.Cluster? && Ok(m, dv, t, off)
    ensures Read(m, dv, t, off) == Items(ReadFields(m, dv, t.fields, off)) && FieldsOk(m, dv, t.fields, off)
  {
  }

  lemma CmpItems(vs: Vals, us: Vals)
    ensures Cmp(Items(vs), Items(us)) == CmpAll(vs, us)
  {
  }

  lemma {:induction false} ElemsLength(m: seq<byte>, dv: DVs, e: Ty, d: Desc, i: nat)
    requires i <= d.count
    ensures Len(ReadElems(m, dv, e, d, i)) == d.count - i
    decreases d.count - i
  {
    if i < d.count {
      ElemsLength(m, dv, e, d, i + 1);
    }
  }

  /** Comparing goes on behind equal elements, and stops at the first that differ. */
  lemma ElemsCompare(m: seq<byte>, dv: DVs, e: Ty, d: Desc, f: Ty, c: Desc, i: nat)
    requires ElemsOk(m, dv, e, d, i) && ElemsOk(m, dv, f, c, i)
    ensures i < d.count && i < c.count ==>
      Ok(m, dv, e, Elem(d, i)) && Ok(m, dv, f, Elem(c, i)) && ElemsOk(m, dv, e, d, i + 1) && ElemsOk(m, dv, f, c, i + 1)
    ensures CmpAll(ReadElems(m, dv, e, d, i), ReadElems(m, dv, f, c, i)) ==
      if i >= d.count then (if i >= c.count then 0 else -1)
      else if i >= c.count then 1
      else
        var one := Cmp(Read(m, dv, e, Elem(d, i)), Read(m, dv, f, Elem(c, i)));
        if one != 0 then one else CmpAll(ReadElems(m, dv, e, d, i + 1), ReadElems(m, dv, f, c, i + 1))
  {
  }

  lemma FieldsCompare(m: seq<byte>, dv: DVs, fs: Tys, x: nat, gs: Tys, y: nat)
    requires FieldsOk(m, dv, fs, x) && FieldsOk(m, dv, gs, y) && fs.Fields? == gs.Fields?
    ensures fs.Fields? ==>
      Ok(m, dv, fs.head, x) && Ok(m, dv, gs.head, y) && FieldsOk(m, dv, fs.tail, x) && FieldsOk(m, dv, gs.tail, y)
    ensures CmpAll(ReadFields(m, dv, fs, x), ReadFields(m, dv, gs, y)) ==
      if fs.NoMore? then 0
      else
        var one := Cmp(Read(m, dv, fs.head, x), Read(m, dv, gs.head, y));
        if one != 0 then one else CmpAll(ReadFields(m, dv, fs.tail, x), ReadFields(m, dv, gs.tail, y))
  {
  }

  lemma ElemNext(d: Desc, i: nat, size: nat)
    requires i < d.count && d.offset + d.Size() <= size <= 0x8000
    ensures ToWord(Elem(d, i) + d.elemSize) == Elem(d, i + 1)
  {
    assert d.elemSize * (i + 1) <= d.elemSize * d.count;
  }

  lemma FirstElem(d: Desc)
    ensures Elem(d, 0) == d.offset
  {
  }

  /** cCmdRecursiveCompareAggregates, for data of one type. */
  method RecursiveCompareAggregates(ds: Dataspace, code: int, id2: nat, off2: nat, id3: nat, off3: nat, ghost t: Ty,
                                    ghost u: Ty)
    returns (finished: bool, result: bool)
    requires ds.Valid() && At(ds.toc, id2, t) && At(ds.toc, id3, u) && WellFormed(t) && WellFormed(u)
    requires SameType(t, u) && IntegerLeaves(t) && Ok(ds.Mem(), ds.dv, t, off2) && Ok(ds.Mem(), ds.dv, u, off3)
    ensures Decides(code, finished, result, Cmp(Read(ds.Mem(), ds.dv, t, off2), Read(ds.Mem(), ds.dv, u, off3)))
    decreases t, 0
  {
    hide Ok, Read, Encode, EncodeAll, At, AllAt, Bytes, LittleEndian, Number, Compare, Cmp, CmpAll, WellFormed,
      Indexes, Scalars, ElemsOk, FieldsOk;
    ghost var m := ds.Mem();
    Here(ds.toc, id2, t);
    Here(ds.toc, id3, u);
    var typeCode := ds.toc[id2].typeCode;
    SameKind(t, u);
    finished, result := false, false;
    if !IsAggregate(typeCode) {
      var v2 := GetScalarVal(ds, id2, off2, t);
      var v3 := GetScalarVal(ds, id3, off3, u);
      ScalarsCompare(m, ds.dv, code, t, off2, u, off3);
      finished := Compare(NEQ, v2, v3, typeCode, ds.toc[id3].typeCode);
      if finished {
        result := Compare(code, v2, v3, typeCode, ds.toc[id3].typeCode);
      }
    } else if typeCode == TC_ARRAY {
      var i2 := ds.GetDVIndex(id2, off2, t);
      var i3 := ds.GetDVIndex(id3, off3, u);
      ArrayReads(m, ds.dv, t, off2);
      ArrayReads(m, ds.dv, u, off3);
      CmpItems(ReadElems(m, ds.dv, t.elem, ds.dv[i2], 0), ReadElems(m, ds.dv, u.elem, ds.dv[i3], 0));
      finished, result := CompareElems(ds, code, id2 + 1, i2, id3 + 1, i3, t.elem, u.elem);
    } else {
      ClusterReads(m, ds.dv, t, off2);
      ClusterReads(m, ds.dv, u, off3);
      SameTypesSameCount(t.fields, u.fields);
      CmpItems(ReadFields(m, ds.dv, t.fields, off2), ReadFields(m, ds.dv, u.fields, off3));
      finished, result := CompareFields(ds, code, id2 + 1, off2, id3 + 1, off3, ds.toc[id2].dsOffset, t.fields, u.fields);
    }
  }

  /** The array case. */
  method CompareElems(ds: Dataspace, code: int, id2: nat, v2: nat, id3: nat, v3: nat, ghost e: Ty, ghost f: Ty)
    returns (finished: bool, result: bool)
    requires ds.Valid() && At(ds.toc, id2, e) && At(ds.toc, id3, f) && WellFormed(e) && WellFormed(f)
    requires SameType(e, f) && IntegerLeaves(e) && v2 < |ds.dv| && v3 < |ds.dv|
    requires ElemsOk(ds.Mem(), ds.dv, e, ds.dv[v2], 0) && ElemsOk(ds.Mem(), ds.dv, f, ds.dv[v3], 0)
    requires ds.dv[v2].count > 0 ==> ds.dv[v2].offset + ds.dv[v2].Size() <= |ds.Mem()|
    requires ds.dv[v3].count > 0 ==> ds.dv[v3].offset + ds.dv[v3].Size() <= |ds.Mem()|
    ensures Decides(code, finished, result,
                    CmpAll(ReadElems(ds.Mem(), ds.dv, e, ds.dv[v2], 0), ReadElems(ds.Mem(), ds.dv, f, ds.dv[v3], 0)))
    decreases e, 1
  {
    hide Ok, Read, Encode, At, Bytes, Compare, Cmp, CmpAll, WellFormed, ElemsOk, ReadElems, Elem, SameType,
      IntegerLeaves, Desc.Size, VecOf;
    ghost var m, dv, d, c := ds.Mem(), ds.dv, ds.dv[v2], ds.dv[v3];
    var count2, count3 := ds.dv[v2].count, ds.dv[v3].count;
    ElemsLength(m, dv, e, d, 0);
    ElemsLength(m, dv, f, c, 0);
    finished, result := false, false;
    if count2 != count3 {
      LengthsDiffer(ReadElems(m, dv, e, d, 0), ReadElems(m, dv, f, c, 0));
      if code == EQ || code == NEQ {
        return true, code == NEQ;
      }
    }
    var off2, off3 := ds.dv[v2].offset, ds.dv[v3].offset;
    FirstElem(d);
    FirstElem(c);
    ghost var all := CmpAll(ReadElems(m, dv, e, d, 0), ReadElems(m, dv, f, c, 0));
    var minCount := if count2 < count3 then count2 else count3;
    for i := 0 to minCount
      invariant !finished && off2 == Elem(d, i) && off3 == Elem(c, i)
      invariant ElemsOk(m, dv, e, d, i) && ElemsOk(m, dv, f, c, i)
      invariant CmpAll(ReadElems(m, dv, e, d, i), ReadElems(m, dv, f, c, i)) == all
    {
      ElemsCompare(m, dv, e, d, f, c, i);
      finished, result := RecursiveCompareAggregates(ds, code, id2, off2, id3, off3, e, f);
      if finished {
        return;
      }
      ElemNext(d, i, |ds.Mem()|);
      ElemNext(c, i, |ds.Mem()|);
      off2 := ToWord(off2 + ds.dv[v2].elemSize);
      off3 := ToWord(off3 + ds.dv[v3].elemSize);
    }
    ElemsCompare(m, dv, e, d, f, c, minCount);
    if count2 != count3 {
      CountsCompare(code, count2, count3);
      finished, result := true, Compare(code, count2, count3, 3, 3);
    }
  }

  /** cCmdCompare on two counts, as TC_UWORD. */
  lemma CountsCompare(code: int, count2: nat, count3: nat)
    ensures Compare(code, count2, count3, 3, 3) <==> Holds(code, Sign(count2 - count3))
  {
  }

  /** The cluster case; clusters of one type have equal counts. */
  method CompareFields(ds: Dataspace, code: int, id2: nat, off2: nat, id3: nat, off3: nat, count: nat,
                       ghost fields: Tys, ghost fields': Tys)
    returns (finished: bool, result: bool)
    requires ds.Valid() && AllAt(ds.toc, id2, fields) && AllAt(ds.toc, id3, fields') && AllWellFormed(fields)
      && AllWellFormed(fields')
    requires SameTypes(fields, fields') && AllIntegerLeaves(fields) && count == Count(fields) == Count(fields')
    requires FieldsOk(ds.Mem(), ds.dv, fields, off2) && FieldsOk(ds.Mem(), ds.dv, fields', off3)
    ensures Decides(code, finished, result,
      CmpAll(ReadFields(ds.Mem(), ds.dv, fields, off2), ReadFields(ds.Mem(), ds.dv, fields', off3)))
    decreases fields, 1
  {
    hide Ok, Read, Encode, EncodeAll, At, AllAt, Cmp, CmpAll, FieldsOk, ReadFields, SameType, IntegerLeaves, WellFormed;
    ghost var m, dv, fs, gs, at2: nat, at3: nat := ds.Mem(), ds.dv, fields, fields', id2, id3;
    ghost var all := CmpAll(ReadFields(m, dv, fs, off2), ReadFields(m, dv, gs, off3));
    var curr2, curr3 := id2, id3;
    finished, result := false, false;
    for i := 0 to count
      invariant !finished && i + Count(fs) == count && (fs == fields || fs < fields)
      invariant AllWellFormed(fs) && AllWellFormed(gs) && SameTypes(fs, gs) && AllIntegerLeaves(fs)
      invariant AllAt(ds.toc, at2, fs) && (at2 < |ds.toc| ==> curr2 == at2)
      invariant AllAt(ds.toc, at3, gs) && (at3 < |ds.toc| ==> curr3 == at3)
      invariant FieldsOk(m, dv, fs, off2) && FieldsOk(m, dv, gs, off3)
      invariant CmpAll(ReadFields(m, dv, fs, off2), ReadFields(m, dv, gs, off3)) == all
    {
      AllHere(ds.toc, at2, fs);
      AllHere(ds.toc, at3, gs);
      FieldsCompare(m, dv, fs, off2, gs, off3);
      finished, result := RecursiveCompareAggregates(ds, code, curr2, off2, curr3, off3, fs.head, gs.head);
      if finished {
        return;
      }
      curr2 := NextDSElement(ds.toc, curr2, fs.head);
      curr3 := NextDSElement(ds.toc, curr3, gs.head);
      at2, at3 := at2 + |Encode(fs.head)|, at3 + |Encode(gs.head)|;
      fs, gs := fs.tail, gs.tail;
    }
    FieldsCompare(m, dv, fs, off2, gs, off3);
  }

  /** cCmdCompareAggregates: the order on values, for all six codes. */
  method CompareAggregates(ds: Dataspace, code: int, id2: nat, off2: nat, id3: nat, off3: nat, ghost t: Ty, ghost u: Ty)
    returns (result: bool)
    requires ds.Valid() && At(ds.toc, id2, t) && At(ds.toc, id3, u) && WellFormed(t) && WellFormed(u)
    requires SameType(t, u) && IntegerLeaves(t) && Ok(ds.Mem(), ds.dv, t, off2) && Ok(ds.Mem(), ds.dv, u, off3)
    ensures result <==> Holds(code, Cmp(Read(ds.Mem(), ds.dv, t, off2), Read(ds.Mem(), ds.dv, u, off3)))
  {
    hide Ok, Read, At, Cmp;
    var finished;
    finished, result := RecursiveCompareAggregates(ds, code, id2, off2, id3, off3, t, u);
    if !finished {
      result := code == EQ || code == GTEQ || code == LTEQ;
    }
  }
}

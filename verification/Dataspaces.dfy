/** Typed data in the dataspace: which bytes a value is made of, and what it is worth. */
module Dataspaces {
  import opened Words
  import opened Layouts
  import opened Vectors
  import opened TypeTrees

  /** TC_Size_Table. */
  function SizeOf(code: byte): nat {
    match code
    case 1 => 1
    case 2 => 1
    case 3 => 2
    case 4 => 2
    case 5 => 4
    case 6 => 4
    case 9 => 4
    case 10 => 4
    case _ => 0
  }

  /** ARRAY_ELEM_OFFSET. */
  function Elem(d: Desc, i: nat): nat {
    d.offset + d.elemSize * i
  }

  /** The dope vectors as they are while data is read and written. */
  type DVs = seq<Desc>

  function VecOf(m: seq<byte>, dv: DVs, a: nat): Desc {
    if a + 2 <= |m| && WordAt(m, a) < |dv| then dv[WordAt(m, a)] else Blank
  }

  /** The data of type t at off, its nested arrays included, lies within the memory. */
  ghost predicate Ok(m: seq<byte>, dv: DVs, t: Ty, off: nat)
    decreases t, 0
  {
    match t
    case Scalar(code, o) => off + o + SizeOf(code) <= |m|
    case Array(o, e) =>
      && off + o + 2 <= |m| && 0 < WordAt(m, off + o) < |dv|
      && var d := VecOf(m, dv, off + o);
      && (d.count == 0 || d.offset + d.Size() <= |m|)
      && (e.Scalar? ==> e.off == 0 && d.elemSize == SizeOf(e.code))
      && ElemsOk(m, dv, e, d, 0)
    case Cluster(fs) => FieldsOk(m, dv, fs, off)
  }

  ghost predicate ElemsOk(m: seq<byte>, dv: DVs, e: Ty, d: Desc, i: nat)
    decreases e, d.count - i + 1
  {
    i < d.count ==> Ok(m, dv, e, Elem(d, i)) && ElemsOk(m, dv, e, d, i + 1)
  }

  ghost predicate FieldsOk(m: seq<byte>, dv: DVs, fs: Tys, off: nat)
    decreases fs, 0
  {
    fs.Fields? ==> Ok(m, dv, fs.head, off) && FieldsOk(m, dv, fs.tail, off)
  }

  function Block(a: nat, n: nat): (r: seq<nat>)
    ensures |r| == n
  {
    seq(n, k => a + k)
  }

  /** The addresses of all scalar bytes, in the order in which they are flattened. */
  function Scalars(m: seq<byte>, dv: DVs, t: Ty, off: nat): seq<nat>
    decreases t, 0
  {
    match t
    case Scalar(code, o) => Block(off + o, SizeOf(code))
    case Array(o, e) => ElemScalars(m, dv, e, VecOf(m, dv, off + o), 0)
    case Cluster(fs) => FieldScalars(m, dv, fs, off)
  }

  function ElemScalars(m: seq<byte>, dv: DVs, e: Ty, d: Desc, i: nat): seq<nat>
    decreases e, d.count - i + 1
  {
    if i >= d.count then [] else Scalars(m, dv, e, Elem(d, i)) + ElemScalars(m, dv, e, d, i + 1)
  }

  function FieldScalars(m: seq<byte>, dv: DVs, fs: Tys, off: nat): seq<nat>
    decreases fs, 0
  {
    if fs.NoMore? then [] else Scalars(m, dv, fs.head, off) + FieldScalars(m, dv, fs.tail, off)
  }

  /** The addresses of the bytes that say which dope vectors the nested arrays have. */
  function Indexes(m: seq<byte>, dv: DVs, t: Ty, off: nat): set<nat>
    decreases t, 0
  {
    match t
    case Scalar(_, _) => {}
    case Array(o, e) => {off + o, off + o + 1} + ElemIndexes(m, dv, e, VecOf(m, dv, off + o), 0)
    case Cluster(fs) => FieldIndexes(m, dv, fs, off)
  }

  function ElemIndexes(m: seq<byte>, dv: DVs, e: Ty, d: Desc, i: nat): set<nat>
    decreases e, d.count - i + 1
  {
    if i >= d.count then {} else Indexes(m, dv, e, Elem(d, i)) + ElemIndexes(m, dv, e, d, i + 1)
  }

  function FieldIndexes(m: seq<byte>, dv: DVs, fs: Tys, off: nat): set<nat>
    decreases fs, 0
  {
    if fs.NoMore? then {} else Indexes(m, dv, fs.head, off) + FieldIndexes(m, dv, fs.tail, off)
  }

  /** m and m' hold the same bytes at the addresses in s. */
  ghost predicate Agree(m: seq<byte>, m': seq<byte>, s: set<nat>) {
    |m| == |m'| && forall a :: a in s && a < |m| ==> m[a] == m'[a]
  }

  // ---- data stays where it is while its dope vector indexes stay ----

  lemma {:induction false} IndexesDecide(m: seq<byte>, m': seq<byte>, dv: DVs, t: Ty, off: nat)
    requires Ok(m, dv, t, off) && Agree(m, m', Indexes(m, dv, t, off))
    ensures Ok(m', dv, t, off)
    ensures Scalars(m', dv, t, off) == Scalars(m, dv, t, off)
    ensures Indexes(m', dv, t, off) == Indexes(m, dv, t, off)
    decreases t, 0
  {
    match t
    case Scalar(_, _) =>
    case Array(o, e) => ElemIndexesDecide(m, m', dv, e, VecOf(m, dv, off + o), 0);
    case Cluster(fs) => FieldIndexesDecide(m, m', dv, fs, off);
  }

  lemma {:induction false} ElemIndexesDecide(m: seq<byte>, m': seq<byte>, dv: DVs, e: Ty, d: Desc, i: nat)
    requires ElemsOk(m, dv, e, d, i) && Agree(m, m', ElemIndexes(m, dv, e, d, i))
    ensures ElemsOk(m', dv, e, d, i)
    ensures ElemScalars(m', dv, e, d, i) == ElemScalars(m, dv, e, d, i)
    ensures ElemIndexes(m', dv, e, d, i) == ElemIndexes(m, dv, e, d, i)
    decreases e, d.count - i + 1
  {
    if i < d.count {
      IndexesDecide(m, m', dv, e, Elem(d, i));
      ElemIndexesDecide(m, m', dv, e, d, i + 1);
    }
  }

  lemma {:induction false} FieldIndexesDecide(m: seq<byte>, m': seq<byte>, dv: DVs, fs: Tys, off: nat)
    requires FieldsOk(m, dv, fs, off) && Agree(m, m', FieldIndexes(m, dv, fs, off))
    ensures FieldsOk(m', dv, fs, off)
    ensures FieldScalars(m', dv, fs, off) == FieldScalars(m, dv, fs, off)
    ensures FieldIndexes(m', dv, fs, off) == FieldIndexes(m, dv, fs, off)
    decreases fs, 0
  {
    if fs.Fields? {
      IndexesDecide(m, m', dv, fs.head, off);
      FieldIndexesDecide(m, m', dv, fs.tail, off);
    }
  }

  // ---- arrays of scalars are one block ----

  lemma {:induction false} ScalarBlock(m: seq<byte>, dv: DVs, e: Ty, d: Desc, i: nat)
    requires e.Scalar? && e.off == 0 && d.elemSize == SizeOf(e.code) && i <= d.count
    ensures Elem(d, i) <= d.offset + d.Size()
    ensures ElemScalars(m, dv, e, d, i) == Block(Elem(d, i), d.offset + d.Size() - Elem(d, i))
    ensures ElemIndexes(m, dv, e, d, i) == {}
    decreases d.count - i
  {
    if i < d.count {
      ScalarBlock(m, dv, e, d, i + 1);
      assert Elem(d, i + 1) == Elem(d, i) + d.elemSize;
    }
  }

  /** All scalar bytes are within the memory. */
  lemma {:induction false} ScalarsInside(m: seq<byte>, dv: DVs, t: Ty, off: nat)
    requires Ok(m, dv, t, off)
    ensures forall k :: 0 <= k < |Scalars(m, dv, t, off)| ==> Scalars(m, dv, t, off)[k] < |m|
    ensures forall a :: a in Indexes(m, dv, t, off) ==> a < |m|
    decreases t, 0
  {
    match t
    case Scalar(_, _) =>
    case Array(o, e) => ElemScalarsInside(m, dv, e, VecOf(m, dv, off + o), 0);
    case Cluster(fs) => FieldScalarsInside(m, dv, fs, off);
  }

  lemma {:induction false} ElemScalarsInside(m: seq<byte>, dv: DVs, e: Ty, d: Desc, i: nat)
    requires ElemsOk(m, dv, e, d, i)
    ensures forall k :: 0 <= k < |ElemScalars(m, dv, e, d, i)| ==> ElemScalars(m, dv, e, d, i)[k] < |m|
    ensures forall a :: a in ElemIndexes(m, dv, e, d, i) ==> a < |m|
    decreases e, d.count - i + 1
  {
    if i < d.count {
      ScalarsInside(m, dv, e, Elem(d, i));
      ElemScalarsInside(m, dv, e, d, i + 1);
    }
  }

  lemma {:induction false} FieldScalarsInside(m: seq<byte>, dv: DVs, fs: Tys, off: nat)
    requires FieldsOk(m, dv, fs, off)
    ensures forall k :: 0 <= k < |FieldScalars(m, dv, fs, off)| ==> FieldScalars(m, dv, fs, off)[k] < |m|
    ensures forall a :: a in FieldIndexes(m, dv, fs, off) ==> a < |m|
    decreases fs, 0
  {
    if fs.Fields? {
      ScalarsInside(m, dv, fs.head, off);
      FieldScalarsInside(m, dv, fs.tail, off);
    }
  }
}

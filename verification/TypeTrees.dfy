/** The dataspace table of contents: type trees laid down in preorder. */
module TypeTrees {
  import opened Words

  const TC_UBYTE: byte := 1
  const TC_SLONG: byte := 6
  const TC_ARRAY: byte := 7
  const TC_CLUSTER: byte := 8
  const TC_FLOAT: byte := 10
  const NOT_A_DS_ID: nat := 0xFFFF

  /** DS_TOC_ENTRY; a cluster keeps its number of fields in the offset. */
  datatype Entry = Entry(typeCode: byte, dsOffset: nat)

  datatype Ty = Scalar(code: byte, off: nat) | Array(off: nat, elem: Ty) | Cluster(fields: Tys)
  datatype Tys = NoMore | Fields(head: Ty, tail: Tys)

  predicate IsAggregate(code: byte) {
    code == TC_ARRAY || code == TC_CLUSTER
  }

  /** Scalars have scalar type codes. */
  predicate WellFormed(t: Ty) {
    match t
    case Scalar(code, _) => !IsAggregate(code) && code <= TC_FLOAT
    case Array(_, e) => WellFormed(e)
    case Cluster(fs) => AllWellFormed(fs)
  }

  predicate AllWellFormed(fs: Tys) {
    fs.Fields? ==> WellFormed(fs.head) && AllWellFormed(fs.tail)
  }

  function Count(fs: Tys): nat {
    if fs.NoMore? then 0 else 1 + Count(fs.tail)
  }

  function Encode(t: Ty): (r: seq<Entry>)
    ensures r != []
  {
    match t
    case Scalar(code, off) => [Entry(code, off)]
    case Array(off, e) => [Entry(TC_ARRAY, off)] + Encode(e)
    case Cluster(fs) => [Entry(TC_CLUSTER, Count(fs))] + EncodeAll(fs)
  }

  function EncodeAll(fs: Tys): seq<Entry> {
    if fs.NoMore? then [] else Encode(fs.head) + EncodeAll(fs.tail)
  }

  /** The tree t stands at id in the table. */
  ghost predicate At(toc: seq<Entry>, id: nat, t: Ty) {
    id + |Encode(t)| <= |toc| && toc[id..id + |Encode(t)|] == Encode(t)
  }

  ghost predicate AllAt(toc: seq<Entry>, id: nat, fs: Tys) {
    id + |EncodeAll(fs)| <= |toc| && toc[id..id + |EncodeAll(fs)|] == EncodeAll(fs)
  }

  /** What stands at id, and where its parts stand. */
  lemma Here(toc: seq<Entry>, id: nat, t: Ty)
    requires At(toc, id, t) && WellFormed(t)
    ensures id < |toc| && id + |Encode(t)| <= |toc|
    ensures t.Scalar? ==> toc[id] == Entry(t.code, t.off) && !IsAggregate(toc[id].typeCode) && |Encode(t)| == 1
    ensures t.Array? ==> toc[id] == Entry(TC_ARRAY, t.off) && At(toc, id + 1, t.elem) && |Encode(t)| == 1 + |Encode(t.elem)|
    ensures t.Cluster? ==> toc[id] == Entry(TC_CLUSTER, Count(t.fields)) && AllAt(toc, id + 1, t.fields)
    ensures t.Cluster? ==> |Encode(t)| == 1 + |EncodeAll(t.fields)|
  {
    assert toc[id] == toc[id..id + |Encode(t)|][0];
    assert toc[id..id + |Encode(t)|][1..] == toc[id + 1..id + |Encode(t)|];
  }

  lemma AllHere(toc: seq<Entry>, id: nat, fs: Tys)
    requires AllAt(toc, id, fs)
    ensures id + |EncodeAll(fs)| <= |toc|
    ensures fs.Fields? ==> id < |toc| && At(toc, id, fs.head) && AllAt(toc, id + |Encode(fs.head)|, fs.tail)
    ensures fs.Fields? ==> |EncodeAll(fs)| == |Encode(fs.head)| + |EncodeAll(fs.tail)|
    ensures fs.NoMore? ==> |EncodeAll(fs)| == 0
  {
    if fs.Fields? {
      var n := |Encode(fs.head)|;
      var s := toc[id..id + |EncodeAll(fs)|];
      assert s[..n] == toc[id..id + n];
      assert s[n..] == toc[id + n..id + |EncodeAll(fs)|];
    }
  }

  function IdOrNone(toc: seq<Entry>, id: nat): nat {
    if id < |toc| then id else NOT_A_DS_ID
  }

  predicate IsSane(toc: seq<Entry>, id: nat) {
    id % 0x8000 < |toc|
  }

  /** cCmdNextDSElement skips exactly the tree at id; at the end of the table there is no next element. */
  method NextDSElement(toc: seq<Entry>, id: nat, ghost t: Ty) returns (next: nat)
    requires |toc| < 0x8000 && At(toc, id, t) && WellFormed(t)
    ensures next == IdOrNone(toc, id + |Encode(t)|)
    decreases t
  {
    hide Encode, EncodeAll, At, AllAt;
    Here(toc, id, t);
    next := id + 1;
    if !IsSane(toc, next) {
      return NOT_A_DS_ID;
    }
    if toc[id].typeCode == TC_ARRAY {
      next := NextDSElement(toc, next, t.elem);
    } else if toc[id].typeCode == TC_CLUSTER {
      ghost var fs, at: nat := t.fields, id + 1;
      for i := 0 to toc[id].dsOffset
        invariant i + Count(fs) == toc[id].dsOffset && AllWellFormed(fs) && (fs == t.fields || fs < t.fields)
        invariant AllAt(toc, at, fs) && at + |EncodeAll(fs)| == id + |Encode(t)| && next == IdOrNone(toc, at)
      {
        AllHere(toc, at, fs);
        next := NextDSElement(toc, next, fs.head);
        at := at + |Encode(fs.head)|;
        fs := fs.tail;
      }
      AllHere(toc, at, fs);
    }
  }

  // ---- comparing types ----

  /** The tree without its offsets. */
  predicate SameType(t: Ty, u: Ty) {
    match t
    case Scalar(code, _) => u.Scalar? && u.code == code
    case Array(_, e) => u.Array? && SameType(e, u.elem)
    case Cluster(fs) => u.Cluster? && SameTypes(fs, u.fields)
  }

  predicate SameTypes(fs: Tys, gs: Tys) {
    fs.Fields? == gs.Fields? && (fs.Fields? ==> SameType(fs.head, gs.head) && SameTypes(fs.tail, gs.tail))
  }

  lemma SameTypesSameCount(fs: Tys, gs: Tys)
    requires SameTypes(fs, gs)
    ensures Count(fs) == Count(gs)
  {
  }

  /** cCmdCompareDSType. */
  method CompareDSType(toc: seq<Entry>, id1: nat, id2: nat, ghost t: Ty, ghost u: Ty) returns (same: bool)
    requires |toc| < 0x8000 && At(toc, id1, t) && At(toc, id2, u) && WellFormed(t) && WellFormed(u)
    ensures same <==> SameType(t, u)
    decreases t
  {
    hide Encode, EncodeAll, At, AllAt;
    Here(toc, id1, t);
    Here(toc, id2, u);
    if toc[id1].typeCode != toc[id2].typeCode {
      return false;
    }
    if toc[id1].typeCode == TC_CLUSTER {
      if toc[id1].dsOffset != toc[id2].dsOffset {
        if SameType(t, u) {
          SameTypesSameCount(t.fields, u.fields);
        }
        return false;
      }
      var n1, n2 := id1 + 1, id2 + 1;
      ghost var fs, gs, at1: nat, at2: nat := t.fields, u.fields, n1, n2;
      for i := 0 to toc[id1].dsOffset
        invariant i + Count(fs) == toc[id1].dsOffset && Count(fs) == Count(gs) && AllWellFormed(fs) && AllWellFormed(gs)
        invariant fs == t.fields || fs < t.fields
        invariant AllAt(toc, at1, fs) && (at1 < |toc| ==> n1 == at1)
        invariant AllAt(toc, at2, gs) && (at2 < |toc| ==> n2 == at2)
        invariant SameType(t, u) <==> SameTypes(fs, gs)
      {
        AllHere(toc, at1, fs);
        AllHere(toc, at2, gs);
        var one := CompareDSType(toc, n1, n2, fs.head, gs.head);
        if !one {
          return false;
        }
        n1 := NextDSElement(toc, n1, fs.head);
        n2 := NextDSElement(toc, n2, gs.head);
        at1, at2 := at1 + |Encode(fs.head)|, at2 + |Encode(gs.head)|;
        fs, gs := fs.tail, gs.tail;
      }
    } else if toc[id1].typeCode == TC_ARRAY {
      same := CompareDSType(toc, id1 + 1, id2 + 1, t.elem, u.elem);
      return;
    }
    same := true;
  }
}

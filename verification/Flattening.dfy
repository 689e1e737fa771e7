/** Copying bytes out of scattered places into a block, and back. */
module Flattening {
  import opened Words
  import opened Layouts
  import opened TypeTrees
  import opened Dataspaces

  function Bytes(m: seq<byte>, s: seq<nat>): (r: seq<byte>)
    ensures |r| == |s|
  {
    seq(|s|, k requires 0 <= k < |s| => if s[k] < |m| then m[s[k]] else 0)
  }

  /** m with b written to the places s, one after the other. */
  function Write(m: seq<byte>, s: seq<nat>, b: seq<byte>): (r: seq<byte>)
    requires |s| == |b|
    ensures |r| == |m|
    decreases |s|
  {
    if s == [] then m else Write(if s[0] < |m| then m[s[0] := b[0]] else m, s[1..], b[1..])
  }

  /** No address of s or x is in the block from lo to hi. */
  ghost predicate Apart(lo: nat, hi: nat, s: seq<nat>, x: set<nat>) {
    && (forall k :: 0 <= k < |s| ==> !(lo <= s[k] < hi))
    && (forall a :: a in x ==> !(lo <= a < hi))
  }

  lemma PasteAgrees(m: seq<byte>, lo: nat, b: seq<byte>, hi: nat, s: seq<nat>, x: set<nat>)
    requires lo + |b| <= hi <= |m| && Apart(lo, hi, s, x)
    ensures Agree(m, Paste(m, lo, b), x)
    ensures Bytes(Paste(m, lo, b), s) == Bytes(m, s)
  {
  }

  lemma PasteTwice(m: seq<byte>, lo: nat, b: seq<byte>, c: seq<byte>)
    requires lo + |b| + |c| <= |m|
    ensures Paste(Paste(m, lo, b), lo + |b|, c) == Paste(m, lo, b + c)
  {
  }

  lemma BytesOfBoth(m: seq<byte>, s: seq<nat>, t: seq<nat>)
    ensures Bytes(m, s + t) == Bytes(m, s) + Bytes(m, t)
  {
  }

  /** One more value flattened behind what has been flattened from m0 so far. */
  lemma FlattenStep(m0: seq<byte>, dv: DVs, t: Ty, off: nat, lo: nat, hi: nat, done: seq<nat>)
    requires Ok(m0, dv, t, off) && Apart(lo, hi, Scalars(m0, dv, t, off), Indexes(m0, dv, t, off))
    requires lo + |done| + |Scalars(m0, dv, t, off)| <= hi <= |m0|
    ensures var m := Paste(m0, lo, Bytes(m0, done)); var s := Scalars(m0, dv, t, off);
      && Ok(m, dv, t, off) && Scalars(m, dv, t, off) == s && Indexes(m, dv, t, off) == Indexes(m0, dv, t, off)
      && Paste(m, lo + |done|, Bytes(m, s)) == Paste(m0, lo, Bytes(m0, done + s))
  {
    hide Ok, Scalars, Indexes, Paste, Bytes, Agree;
    var s := Scalars(m0, dv, t, off);
    PasteAgrees(m0, lo, Bytes(m0, done), hi, s, Indexes(m0, dv, t, off));
    IndexesDecide(m0, Paste(m0, lo, Bytes(m0, done)), dv, t, off);
    PasteTwice(m0, lo, Bytes(m0, done), Bytes(m0, s));
    BytesOfBoth(m0, done, s);
  }

  class Dataspace {
    const pool: array<byte>
    /** pDataspace - Pool */
    const start: nat
    const toc: seq<Entry>
    /** The dope vectors as they are while one value is copied */
    const dv: seq<Desc>

    predicate Valid() {
      start <= pool.Length <= 0x8000 && |toc| < 0x8000
    }

    /** The pool from the dataspace on */
    function Mem(): (m: seq<byte>)
      requires Valid()
      reads pool
      ensures |m| == pool.Length - start
    {
      pool[start..]
    }

    /** The pool below the dataspace, with the code and the tables of the program */
    function Program(): (m: seq<byte>)
      requires Valid()
      reads pool
    {
      pool[..start]
    }

    constructor (pool: array<byte>, start: nat, toc: seq<Entry>, dv: seq<Desc>)
      requires start <= pool.Length <= 0x8000 && |toc| < 0x8000
      ensures Valid() && this.pool == pool && this.start == start && this.toc == toc && this.dv == dv
    {
      this.pool, this.start, this.toc, this.dv := pool, start, toc, dv;
    }

    /** memmove within the pool. */
    method MemMove(dst: nat, src: nat, n: nat)
      requires Valid() && (n > 0 ==> dst + n <= |Mem()| && src + n <= |Mem()|)
      modifies pool
      ensures Program() == old(Program())
      ensures Mem() == if n == 0 then old(Mem()) else Paste(old(Mem()), dst, old(Mem()[src..src + n]))
    {
      forall k | 0 <= k < n {
        pool[start + dst + k] := pool[start + src + k];
      }
      assert n > 0 ==> Mem() == Paste(old(Mem()), dst, old(Mem()[src..src + n]));
    }

    /** cCmdGetDVIndex. */
    method GetDVIndex(id: nat, off: nat, ghost t: Ty) returns (i: nat)
      requires Valid() && At(toc, id, t) && WellFormed(t) && t.Array? && Ok(Mem(), dv, t, off)
      ensures i < |dv| && dv[i] == VecOf(Mem(), dv, off + t.off)
    {
      Here(toc, id, t);
      var a := toc[id].dsOffset + off;
      i := (pool[start + a] as int) + 0x100 * (pool[start + a + 1] as int);
    }

    /** cCmdFlattenToByteArray, into the byte array at base, from byteOffset on. */
    method Flatten(base: nat, byteOffset: word, id: nat, off: nat, ghost t: Ty, ghost hi: nat) returns (next: word)
      requires Valid() && At(toc, id, t) && WellFormed(t) && Ok(Mem(), dv, t, off)
      requires base + byteOffset + |Scalars(Mem(), dv, t, off)| <= hi <= |Mem()|
      requires Apart(base + byteOffset, hi, Scalars(Mem(), dv, t, off), Indexes(Mem(), dv, t, off))
      modifies pool
      ensures Program() == old(Program())
      ensures next == byteOffset + |Scalars(old(Mem()), dv, t, off)|
      ensures Mem() == Paste(old(Mem()), base + byteOffset, Bytes(old(Mem()), Scalars(old(Mem()), dv, t, off)))
      decreases t, 0
    {
      hide Bytes, Paste, Apart, Agree, Ok, Scalars, Indexes, ElemsOk, FieldsOk, Encode, EncodeAll, At, AllAt,
        ElemScalars, ElemIndexes;
      Here(toc, id, t);
      var typeCode := toc[id].typeCode;
      if typeCode == TC_ARRAY {
        var i := GetDVIndex(id, off, t);
        ArrayParts(Mem(), dv, t, off, base + byteOffset, hi);
        Here(toc, id + 1, t.elem);
        if !IsAggregate(toc[id + 1].typeCode) {
          var count := dv[i].Size();
          FlattenBlock(Mem(), dv, t.elem, dv[i], base + byteOffset);
          MemMove(base + byteOffset, dv[i].offset, count);
          next := byteOffset + count;
        } else {
          next := FlattenElems(base, byteOffset, id + 1, i, t.elem, hi);
        }
      } else if typeCode == TC_CLUSTER {
        ClusterParts(Mem(), dv, t, off);
        next := FlattenFields(base, byteOffset, id + 1, toc[id].dsOffset, off, t.fields, hi);
      } else {
        var count := SizeOf(typeCode);
        FlattenScalar(Mem(), dv, t, off, base + byteOffset);
        MemMove(base + byteOffset, toc[id].dsOffset + off, count);
        next := byteOffset + count;
      }
    }

    method FlattenElems(base: nat, byteOffset: word, id: nat, v: nat, ghost e: Ty, ghost hi: nat) returns (next: word)
      requires Valid() && At(toc, id, e) && WellFormed(e) && v < |dv| && ElemsOk(Mem(), dv, e, dv[v], 0)
      requires dv[v].count > 0 ==> dv[v].offset + dv[v].Size() <= |Mem()|
      requires base + byteOffset + |ElemScalars(Mem(), dv, e, dv[v], 0)| <= hi <= |Mem()|
      requires Apart(base + byteOffset, hi, ElemScalars(Mem(), dv, e, dv[v], 0), ElemIndexes(Mem(), dv, e, dv[v], 0))
      modifies pool
      ensures Program() == old(Program())
      ensures next == byteOffset + |ElemScalars(old(Mem()), dv, e, dv[v], 0)|
      ensures Mem() == Paste(old(Mem()), base + byteOffset, Bytes(old(Mem()), ElemScalars(old(Mem()), dv, e, dv[v], 0)))
      decreases e, 1
    {
      hide Bytes, Paste, Apart, Agree, Ok, At, Encode, Scalars, Indexes, ElemsOk, ElemScalars, ElemIndexes, Elem;
      ghost var m0, lo, d, done: seq<nat> := Mem(), base + byteOffset, dv[v], [];
      NothingFlattened(m0, lo);
      next := byteOffset;
      for i := 0 to dv[v].count
        invariant ElemsOk(m0, dv, e, d, i) && done + ElemScalars(m0, dv, e, d, i) == ElemScalars(m0, dv, e, d, 0)
        invariant Apart(lo, hi, ElemScalars(m0, dv, e, d, i), ElemIndexes(m0, dv, e, d, i))
        invariant Program() == old(Program())
        invariant next == byteOffset + |done| && Mem() == Paste(m0, lo, Bytes(m0, done))
      {
        ElemParts(m0, dv, e, d, i, lo, hi, |done|);
        ElemIsWord(d, i, |Mem()|);
        FlattenStep(m0, dv, e, Elem(d, i), lo, hi, done);
        next := Flatten(base, next, id, ToWord(dv[v].offset + dv[v].elemSize * i), e, hi);
        done := done + Scalars(m0, dv, e, Elem(d, i));
      }
      NoElems(m0, dv, e, d);
      assert done + [] == done;
    }

    method FlattenFields(base: nat, byteOffset: word, id: nat, count: nat, off: nat, ghost fields: Tys, ghost hi: nat)
      returns (next: word)
      requires Valid() && AllAt(toc, id, fields) && AllWellFormed(fields) && FieldsOk(Mem(), dv, fields, off)
      requires count == Count(fields)
      requires base + byteOffset + |FieldScalars(Mem(), dv, fields, off)| <= hi <= |Mem()|
      requires Apart(base + byteOffset, hi, FieldScalars(Mem(), dv, fields, off), FieldIndexes(Mem(), dv, fields, off))
      modifies pool
      ensures Program() == old(Program())
      ensures next == byteOffset + |FieldScalars(old(Mem()), dv, fields, off)|
      ensures Mem() == Paste(old(Mem()), base + byteOffset, Bytes(old(Mem()), FieldScalars(old(Mem()), dv, fields, off)))
      decreases fields, 1
    {
      hide Bytes, Paste, Apart, Agree, Ok, At, AllAt, Encode, EncodeAll, Scalars, Indexes, FieldsOk, FieldScalars,
        FieldIndexes;
      ghost var m0, lo, fs, done: seq<nat>, at: nat := Mem(), base + byteOffset, fields, [], id;
      NothingFlattened(m0, lo);
      var curr := id;
      next := byteOffset;
      for i := 0 to count
        invariant i + Count(fs) == count && AllWellFormed(fs) && (fs == fields || fs < fields)
        invariant AllAt(toc, at, fs) && (at < |toc| ==> curr == at)
        invariant FieldsOk(m0, dv, fs, off) && done + FieldScalars(m0, dv, fs, off) == FieldScalars(m0, dv, fields, off)
        invariant Apart(lo, hi, FieldScalars(m0, dv, fs, off), FieldIndexes(m0, dv, fs, off))
        invariant Program() == old(Program())
        invariant next == byteOffset + |done| && Mem() == Paste(m0, lo, Bytes(m0, done))
      {
        AllHere(toc, at, fs);
        FieldParts(m0, dv, fs, off, lo, hi, |done|);
        FlattenStep(m0, dv, fs.head, off, lo, hi, done);
        next := Flatten(base, next, curr, off, fs.head, hi);
        curr := NextDSElement(toc, curr, fs.head);
        at := at + |Encode(fs.head)|;
        done := done + Scalars(m0, dv, fs.head, off);
        fs := fs.tail;
      }
      NoFields(m0, dv, fs, off);
      assert done + [] == done;
    }

    /** cCmdCalcFlattenedSize, in a UWORD. */
    method CalcFlattenedSize(id: nat, off: nat, ghost t: Ty) returns (size: word)
      requires Valid() && At(toc, id, t) && WellFormed(t) && Ok(Mem(), dv, t, off)
      ensures size == ToWord(|Scalars(Mem(), dv, t, off)|)
      decreases t, 0
    {
      hide Ok, Scalars, Indexes, ElemsOk, FieldsOk, Encode, EncodeAll, At, AllAt, ElemScalars, FieldScalars;
      Here(toc, id, t);
      var typeCode := toc[id].typeCode;
      size := 0;
      if typeCode == TC_ARRAY {
        var i := GetDVIndex(id, off, t);
        ArrayIs(Mem(), dv, t, off);
        Here(toc, id + 1, t.elem);
        if !IsAggregate(toc[id + 1].typeCode) {
          ScalarBlockSize(Mem(), dv, t.elem, dv[i]);
          size := ToWord(dv[i].Size());
        } else {
          size := CalcElemsSize(id + 1, i, t.elem);
        }
      } else if typeCode == TC_CLUSTER {
        ClusterParts(Mem(), dv, t, off);
        size := CalcFieldsSize(id + 1, toc[id].dsOffset, off, t.fields);
      } else {
        ScalarIs(Mem(), dv, t, off);
        size := SizeOf(typeCode);
      }
    }

    method CalcElemsSize(id: nat, v: nat, ghost e: Ty) returns (size: word)
      requires Valid() && At(toc, id, e) && WellFormed(e) && v < |dv| && ElemsOk(Mem(), dv, e, dv[v], 0)
      requires dv[v].count > 0 ==> dv[v].offset + dv[v].Size() <= |Mem()|
      ensures size == ToWord(|ElemScalars(Mem(), dv, e, dv[v], 0)|)
      decreases e, 1
    {
      hide Ok, At, Encode, Scalars, Indexes, ElemsOk, ElemScalars, ElemIndexes, Elem, ToWord;
      ToWordOfWord(0);
      ghost var m, d, done: nat := Mem(), dv[v], 0;
      size := 0;
      for i := 0 to dv[v].count
        invariant ElemsOk(m, dv, e, d, i) && done + |ElemScalars(m, dv, e, d, i)| == |ElemScalars(m, dv, e, d, 0)|
        invariant size == ToWord(done)
      {
        ElemIs(m, dv, e, d, i);
        ElemIsWord(d, i, |Mem()|);
        AddWords(done, |Scalars(m, dv, e, Elem(d, i))|);
        var one := CalcFlattenedSize(id, ToWord(dv[v].offset + dv[v].elemSize * i), e);
        size := ToWord(size + one);
        done := done + |Scalars(m, dv, e, Elem(d, i))|;
      }
      NoElems(m, dv, e, d);
    }

    method CalcFieldsSize(id: nat, count: nat, off: nat, ghost fields: Tys) returns (size: word)
      requires Valid() && AllAt(toc, id, fields) && AllWellFormed(fields) && FieldsOk(Mem(), dv, fields, off)
      requires count == Count(fields)
      ensures size == ToWord(|FieldScalars(Mem(), dv, fields, off)|)
      decreases fields, 1
    {
      hide Ok, At, AllAt, Encode, EncodeAll, Scalars, Indexes, FieldsOk, FieldScalars, FieldIndexes, ToWord;
      ToWordOfWord(0);
      ghost var m, fs, done: nat, at: nat := Mem(), fields, 0, id;
      var curr := id;
      size := 0;
      for i := 0 to count
        invariant i + Count(fs) == count && AllWellFormed(fs) && (fs == fields || fs < fields)
        invariant AllAt(toc, at, fs) && (at < |toc| ==> curr == at)
        invariant FieldsOk(m, dv, fs, off) && done + |FieldScalars(m, dv, fs, off)| == |FieldScalars(m, dv, fields, off)|
        invariant size == ToWord(done)
      {
        AllHere(toc, at, fs);
        FieldIs(m, dv, fs, off);
        AddWords(done, |Scalars(m, dv, fs.head, off)|);
        var one := CalcFlattenedSize(curr, off, fs.head);
        size := ToWord(size + one);
        curr := NextDSElement(toc, curr, fs.head);
        at := at + |Encode(fs.head)|;
        done := done + |Scalars(m, dv, fs.head, off)|;
        fs := fs.tail;
      }
      NoFields(m, dv, fs, off);
    }

    /** cCmdUnflattenFromByteArray, out of the byte array at base, from byteOffset on. */
    method Unflatten(base: nat, byteOffset: word, id: nat, off: nat, ghost t: Ty, ghost hi: nat) returns (next: word)
      requires Valid() && At(toc, id, t) && WellFormed(t) && Ok(Mem(), dv, t, off)
      requires base + byteOffset + |Scalars(Mem(), dv, t, off)| <= hi <= |Mem()|
      requires Apart(base + byteOffset, hi, Scalars(Mem(), dv, t, off), Indexes(Mem(), dv, t, off))
      requires Unshared(Scalars(Mem(), dv, t, off), Indexes(Mem(), dv, t, off))
      modifies pool
      ensures Program() == old(Program())
      ensures next == byteOffset + |Scalars(old(Mem()), dv, t, off)|
      ensures base + next <= |Mem()|
      ensures Mem() == Write(old(Mem()), Scalars(old(Mem()), dv, t, off), old(Mem())[base + byteOffset..base + next])
      decreases t, 0
    {
      hide Write, Paste, Apart, Agree, Unshared, Ok, Scalars, Indexes, ElemsOk, FieldsOk, Encode, EncodeAll, At, AllAt,
        ElemScalars, ElemIndexes,
        Desc.Size, VecOf, WellFormed;
      ghost var m, lo := Mem(), base + byteOffset;
      WellFormedParts(t);
      Here(toc, id, t);
      var typeCode := toc[id].typeCode;
      if typeCode == TC_ARRAY {
        var i := GetDVIndex(id, off, t);
        ArrayParts(Mem(), dv, t, off, lo, hi);
        ArrayUnshared(Mem(), dv, t, off);
        next := UnflattenArray(base, byteOffset, id + 1, i, t.elem, hi);
      } else if typeCode == TC_CLUSTER {
        ClusterParts(Mem(), dv, t, off);
        next := UnflattenFields(base, byteOffset, id + 1, toc[id].dsOffset, off, t.fields, hi);
      } else {
        var count := SizeOf(typeCode);
        UnflattenScalar(Mem(), dv, t, off, lo);
        assert Mem()[lo..lo + count] == m[lo..lo + count];
        MemMove(toc[id].dsOffset + off, base + byteOffset, count);
        next := byteOffset + count;
      }
    }

    /** The array case: a block of scalars at once, other elements one by one. */
    method UnflattenArray(base: nat, byteOffset: word, id: nat, v: nat, ghost e: Ty, ghost hi: nat) returns (next: word)
      requires Valid() && At(toc, id, e) && WellFormed(e) && v < |dv| && ElemsOk(Mem(), dv, e, dv[v], 0)
      requires dv[v].count > 0 ==> dv[v].offset + dv[v].Size() <= |Mem()|
      requires e.Scalar? ==> e.off == 0 && dv[v].elemSize == SizeOf(e.code)
      requires base + byteOffset + |ElemScalars(Mem(), dv, e, dv[v], 0)| <= hi <= |Mem()|
      requires Apart(base + byteOffset, hi, ElemScalars(Mem(), dv, e, dv[v], 0), ElemIndexes(Mem(), dv, e, dv[v], 0))
      requires Unshared(ElemScalars(Mem(), dv, e, dv[v], 0), ElemIndexes(Mem(), dv, e, dv[v], 0))
      modifies pool
      ensures Program() == old(Program())
      ensures next == byteOffset + |ElemScalars(old(Mem()), dv, e, dv[v], 0)|
      ensures base + next <= |Mem()|
      ensures Mem() == Write(old(Mem()), ElemScalars(old(Mem()), dv, e, dv[v], 0), old(Mem())[base + byteOffset..base + next])
      decreases e, 2
    {
      hide Write, Paste, Apart, Unshared, Ok, Scalars, Indexes, ElemsOk, Encode, At, ElemScalars, ElemIndexes,
        Desc.Size;
      Here(toc, id, e);
      if !IsAggregate(toc[id].typeCode) {
        ghost var m, lo := Mem(), base + byteOffset;
        var count := dv[v].Size();
        UnflattenBlock(m, dv, e, dv[v], lo);
        assert Mem()[lo..lo + count] == m[lo..lo + count];
        MemMove(dv[v].offset, base + byteOffset, count);
        next := byteOffset + count;
      } else {
        next := UnflattenElems(base, byteOffset, id, v, e, hi);
      }
    }

    method UnflattenElems(base: nat, byteOffset: word, id: nat, v: nat, ghost e: Ty, ghost hi: nat) returns (next: word)
      requires Valid() && At(toc, id, e) && WellFormed(e) && v < |dv| && ElemsOk(Mem(), dv, e, dv[v], 0)
      requires dv[v].count > 0 ==> dv[v].offset + dv[v].Size() <= |Mem()|
      requires base + byteOffset + |ElemScalars(Mem(), dv, e, dv[v], 0)| <= hi <= |Mem()|
      requires Apart(base + byteOffset, hi, ElemScalars(Mem(), dv, e, dv[v], 0), ElemIndexes(Mem(), dv, e, dv[v], 0))
      requires Unshared(ElemScalars(Mem(), dv, e, dv[v], 0), ElemIndexes(Mem(), dv, e, dv[v], 0))
      modifies pool
      ensures Program() == old(Program())
      ensures next == byteOffset + |ElemScalars(old(Mem()), dv, e, dv[v], 0)|
      ensures base + next <= |Mem()|
      ensures Mem() == Write(old(Mem()), ElemScalars(old(Mem()), dv, e, dv[v], 0), old(Mem())[base + byteOffset..base + next])
      decreases e, 1
    {
      hide Write, Apart, Agree, Unshared, Ok, At, Encode, Scalars, Indexes, ElemsOk, ElemScalars, ElemIndexes, Elem;
      ghost var m0, lo, d, done: seq<nat> := Mem(), base + byteOffset, dv[v], [];
      NothingWritten(m0, lo);
      assert done + ElemScalars(m0, dv, e, d, 0) == ElemScalars(m0, dv, e, d, 0);
      ApartNothing(lo, hi);
      next := byteOffset;
      for i := 0 to dv[v].count
        invariant ElemsOk(m0, dv, e, d, i) && done + ElemScalars(m0, dv, e, d, i) == ElemScalars(m0, dv, e, d, 0)
        invariant Apart(lo, hi, ElemScalars(m0, dv, e, d, i), ElemIndexes(m0, dv, e, d, i)) && ApartSeq(lo, hi, done)
        invariant Unshared(done + ElemScalars(m0, dv, e, d, i), ElemIndexes(m0, dv, e, d, i))
        invariant Program() == old(Program())
        invariant next == byteOffset + |done| && lo + |done| <= hi && Mem() == Write(m0, done, m0[lo..lo + |done|])
      {
        ElemParts(m0, dv, e, d, i, lo, hi, |done|);
        ElemUnshared(m0, dv, e, d, i, done);
        ElemIsWord(d, i, |Mem()|);
        UnflattenStep(m0, dv, e, Elem(d, i), lo, hi, done);
        next := Unflatten(base, next, id, ToWord(dv[v].offset + dv[v].elemSize * i), e, hi);
        done := done + Scalars(m0, dv, e, Elem(d, i));
      }
      NoElems(m0, dv, e, d);
      assert done + [] == done;
    }

    method UnflattenFields(base: nat, byteOffset: word, id: nat, count: nat, off: nat, ghost fields: Tys, ghost hi: nat)
      returns (next: word)
      requires Valid() && AllAt(toc, id, fields) && AllWellFormed(fields) && FieldsOk(Mem(), dv, fields, off)
      requires count == Count(fields)
      requires base + byteOffset + |FieldScalars(Mem(), dv, fields, off)| <= hi <= |Mem()|
      requires Apart(base + byteOffset, hi, FieldScalars(Mem(), dv, fields, off), FieldIndexes(Mem(), dv, fields, off))
      requires Unshared(FieldScalars(Mem(), dv, fields, off), FieldIndexes(Mem(), dv, fields, off))
      modifies pool
      ensures Program() == old(Program())
      ensures next == byteOffset + |FieldScalars(old(Mem()), dv, fields, off)|
      ensures base + next <= |Mem()|
      ensures Mem() == Write(old(Mem()), FieldScalars(old(Mem()), dv, fields, off), old(Mem())[base + byteOffset..base + next])
      decreases fields, 1
    {
      hide Write, Apart, ApartSeq, Agree, Unshared, Ok, At, AllAt, Encode, EncodeAll, Scalars, Indexes, FieldsOk, FieldScalars,
        FieldIndexes, WellFormed;
      ghost var m0, lo, fs, done: seq<nat>, at: nat := Mem(), base + byteOffset, fields, [], id;
      NothingWritten(m0, lo);
      assert done + FieldScalars(m0, dv, fs, off) == FieldScalars(m0, dv, fs, off);
      ApartNothing(lo, hi);
      var curr := id;
      next := byteOffset;
      for i := 0 to count
        invariant i + Count(fs) == count && AllWellFormed(fs) && (fs == fields || fs < fields)
        invariant AllAt(toc, at, fs) && (at < |toc| ==> curr == at)
        invariant FieldsOk(m0, dv, fs, off) && done + FieldScalars(m0, dv, fs, off) == FieldScalars(m0, dv, fields, off)
        invariant Apart(lo, hi, FieldScalars(m0, dv, fs, off), FieldIndexes(m0, dv, fs, off)) && ApartSeq(lo, hi, done)
        invariant Unshared(done + FieldScalars(m0, dv, fs, off), FieldIndexes(m0, dv, fs, off))
        invariant Program() == old(Program())
        invariant next == byteOffset + |done| && lo + |done| <= hi && Mem() == Write(m0, done, m0[lo..lo + |done|])
      {
        AllHere(toc, at, fs);
        FieldParts(m0, dv, fs, off, lo, hi, |done|);
        FieldUnshared(m0, dv, fs, off, done);
        UnflattenStep(m0, dv, fs.head, off, lo, hi, done);
        next := Unflatten(base, next, curr, off, fs.head, hi);
        curr := NextDSElement(toc, curr, fs.head);
        at := at + |Encode(fs.head)|;
        done := done + Scalars(m0, dv, fs.head, off);
        fs := fs.tail;
      }
      NoFields(m0, dv, fs, off);
      assert done + [] == done;
    }
  }

  // ---- taking typed data apart ----

  lemma ElemIsWord(d: Desc, i: nat, size: nat)
    requires i < d.count && d.offset + d.Size() <= size <= 0x8000
    ensures ToWord(d.offset + d.elemSize * i) == Elem(d, i)
  {
    assert d.elemSize * i <= d.elemSize * d.count;
  }

  lemma ArrayParts(m: seq<byte>, dv: DVs, t: Ty, off: nat, lo: nat, hi: nat)
    requires t.Array? && Ok(m, dv, t, off) && Apart(lo, hi, Scalars(m, dv, t, off), Indexes(m, dv, t, off))
    ensures var d := VecOf(m, dv, off + t.off);
      && Scalars(m, dv, t, off) == ElemScalars(m, dv, t.elem, d, 0) && ElemsOk(m, dv, t.elem, d, 0)
      && Apart(lo, hi, ElemScalars(m, dv, t.elem, d, 0), ElemIndexes(m, dv, t.elem, d, 0))
      && (d.count > 0 ==> d.offset + d.Size() <= |m|)
      && (t.elem.Scalar? ==> t.elem.off == 0 && d.elemSize == SizeOf(t.elem.code))
  {
  }

  lemma ClusterParts(m: seq<byte>, dv: DVs, t: Ty, off: nat)
    requires t.Cluster? && Ok(m, dv, t, off)
    ensures FieldsOk(m, dv, t.fields, off)
    ensures Scalars(m, dv, t, off) == FieldScalars(m, dv, t.fields, off)
    ensures Indexes(m, dv, t, off) == FieldIndexes(m, dv, t.fields, off)
  {
  }

  lemma ElemParts(m: seq<byte>, dv: DVs, e: Ty, d: Desc, i: nat, lo: nat, hi: nat, n: nat)
    requires i < d.count && ElemsOk(m, dv, e, d, i) && Apart(lo, hi, ElemScalars(m, dv, e, d, i), ElemIndexes(m, dv, e, d, i))
    ensures Ok(m, dv, e, Elem(d, i)) && ElemsOk(m, dv, e, d, i + 1)
    ensures ElemScalars(m, dv, e, d, i) == Scalars(m, dv, e, Elem(d, i)) + ElemScalars(m, dv, e, d, i + 1)
    ensures Apart(lo, hi, Scalars(m, dv, e, Elem(d, i)), Indexes(m, dv, e, Elem(d, i)))
    ensures Apart(lo + n, hi, Scalars(m, dv, e, Elem(d, i)), Indexes(m, dv, e, Elem(d, i)))
    ensures Apart(lo, hi, ElemScalars(m, dv, e, d, i + 1), ElemIndexes(m, dv, e, d, i + 1))
  {
    hide Apart;
    ApartParts(lo, hi, Scalars(m, dv, e, Elem(d, i)), ElemScalars(m, dv, e, d, i + 1),
               Indexes(m, dv, e, Elem(d, i)), ElemIndexes(m, dv, e, d, i + 1), n);
  }

  lemma FieldParts(m: seq<byte>, dv: DVs, fs: Tys, off: nat, lo: nat, hi: nat, n: nat)
    requires fs.Fields? && FieldsOk(m, dv, fs, off) && Apart(lo, hi, FieldScalars(m, dv, fs, off), FieldIndexes(m, dv, fs, off))
    ensures Ok(m, dv, fs.head, off) && FieldsOk(m, dv, fs.tail, off)
    ensures FieldScalars(m, dv, fs, off) == Scalars(m, dv, fs.head, off) + FieldScalars(m, dv, fs.tail, off)
    ensures Apart(lo, hi, Scalars(m, dv, fs.head, off), Indexes(m, dv, fs.head, off))
    ensures Apart(lo + n, hi, Scalars(m, dv, fs.head, off), Indexes(m, dv, fs.head, off))
    ensures Apart(lo, hi, FieldScalars(m, dv, fs.tail, off), FieldIndexes(m, dv, fs.tail, off))
  {
    hide Apart;
    ApartParts(lo, hi, Scalars(m, dv, fs.head, off), FieldScalars(m, dv, fs.tail, off),
               Indexes(m, dv, fs.head, off), FieldIndexes(m, dv, fs.tail, off), n);
  }

  lemma NoElems(m: seq<byte>, dv: DVs, e: Ty, d: Desc)
    ensures ElemScalars(m, dv, e, d, d.count) == []
  {
  }

  lemma NoFields(m: seq<byte>, dv: DVs, fs: Tys, off: nat)
    requires Count(fs) == 0
    ensures FieldScalars(m, dv, fs, off) == []
  {
  }

  /** A block of scalars is flattened at once as it would be one by one. */
  lemma FlattenBlock(m: seq<byte>, dv: DVs, e: Ty, d: Desc, lo: nat)
    requires e.Scalar? && e.off == 0 && d.elemSize == SizeOf(e.code) && (d.count > 0 ==> d.offset + d.Size() <= |m|)
    requires lo + |ElemScalars(m, dv, e, d, 0)| <= |m|
    ensures |ElemScalars(m, dv, e, d, 0)| == d.Size()
    ensures Paste(m, lo, Bytes(m, ElemScalars(m, dv, e, d, 0))) ==
      if d.Size() == 0 then m else Paste(m, lo, m[d.offset..d.offset + d.Size()])
  {
    ScalarBlock(m, dv, e, d, 0);
    assert Elem(d, 0) == d.offset;
    assert d.count == 0 ==> d.Size() == 0;
    BytesOfRange(m, d.offset, d.Size());
    hide Bytes;
    PasteNothing(m, lo);
  }

  lemma FlattenScalar(m: seq<byte>, dv: DVs, t: Ty, off: nat, lo: nat)
    requires t.Scalar? && Ok(m, dv, t, off) && lo + |Scalars(m, dv, t, off)| <= |m|
    ensures var n := SizeOf(t.code);
      && |Scalars(m, dv, t, off)| == n && off + t.off + n <= |m|
      && Paste(m, lo, Bytes(m, Scalars(m, dv, t, off))) == if n == 0 then m else Paste(m, lo, m[off + t.off..off + t.off + n])
  {
    BytesOfRange(m, off + t.off, SizeOf(t.code));
    hide Bytes;
    PasteNothing(m, lo);
  }

  lemma WellFormedParts(t: Ty)
    requires WellFormed(t)
    ensures t.Array? ==> WellFormed(t.elem)
    ensures t.Cluster? ==> AllWellFormed(t.fields)
  {
  }

  lemma BytesOfRange(m: seq<byte>, a: nat, n: nat)
    requires n > 0 ==> a + n <= |m|
    ensures n > 0 ==> Bytes(m, Block(a, n)) == m[a..a + n]
    ensures n == 0 ==> Bytes(m, Block(a, n)) == []
  {
  }

  lemma PasteNothing(m: seq<byte>, lo: nat)
    requires lo <= |m|
    ensures Paste(m, lo, []) == m
  {
  }

  lemma NothingFlattened(m: seq<byte>, lo: nat)
    requires lo <= |m|
    ensures Paste(m, lo, Bytes(m, [])) == m
  {
  }

  /** What is apart from a block is so part by part, also from a part of the block. */
  lemma ApartParts(lo: nat, hi: nat, s: seq<nat>, s': seq<nat>, x: set<nat>, x': set<nat>, n: nat)
    requires Apart(lo, hi, s + s', x + x')
    ensures Apart(lo, hi, s, x) && Apart(lo, hi, s', x') && Apart(lo + n, hi, s, x)
  {
    assert forall k :: 0 <= k < |s| ==> s[k] == (s + s')[k];
    assert forall k :: 0 <= k < |s'| ==> s'[k] == (s + s')[|s| + k];
  }

  // ---- the same for writing ----

  /** No scalar byte is part of a dope vector index. */
  ghost predicate Unshared(s: seq<nat>, x: set<nat>) {
    forall k :: 0 <= k < |s| ==> s[k] !in x
  }

  ghost predicate ApartSeq(lo: nat, hi: nat, s: seq<nat>) {
    forall k :: 0 <= k < |s| ==> !(lo <= s[k] < hi)
  }

  lemma ApartNothing(lo: nat, hi: nat)
    ensures ApartSeq(lo, hi, [])
  {
  }

  lemma NothingWritten(m: seq<byte>, lo: nat)
    requires lo <= |m|
    ensures Write(m, [], m[lo..lo]) == m
  {
  }

  lemma AddWords(x: nat, y: nat)
    ensures ToWord(ToWord(x) + ToWord(y)) == ToWord(x + y)
  {
    ToWordSum(x, y);
    ToWordSum(y, ToWord(x));
  }

  lemma ArrayIs(m: seq<byte>, dv: DVs, t: Ty, off: nat)
    requires t.Array? && Ok(m, dv, t, off)
    ensures var d := VecOf(m, dv, off + t.off);
      && Scalars(m, dv, t, off) == ElemScalars(m, dv, t.elem, d, 0) && ElemsOk(m, dv, t.elem, d, 0)
      && (d.count > 0 ==> d.offset + d.Size() <= |m|)
      && (t.elem.Scalar? ==> t.elem.off == 0 && d.elemSize == SizeOf(t.elem.code))
  {
  }

  lemma ScalarIs(m: seq<byte>, dv: DVs, t: Ty, off: nat)
    requires t.Scalar? && Ok(m, dv, t, off)
    ensures |Scalars(m, dv, t, off)| == SizeOf(t.code)
  {
  }

  lemma ScalarBlockSize(m: seq<byte>, dv: DVs, e: Ty, d: Desc)
    requires e.Scalar? && e.off == 0 && d.elemSize == SizeOf(e.code)
    ensures |ElemScalars(m, dv, e, d, 0)| == d.Size()
  {
    ScalarBlock(m, dv, e, d, 0);
    assert Elem(d, 0) == d.offset;
  }

  lemma ElemIs(m: seq<byte>, dv: DVs, e: Ty, d: Desc, i: nat)
    requires i < d.count && ElemsOk(m, dv, e, d, i)
    ensures Ok(m, dv, e, Elem(d, i)) && ElemsOk(m, dv, e, d, i + 1)
    ensures ElemScalars(m, dv, e, d, i) == Scalars(m, dv, e, Elem(d, i)) + ElemScalars(m, dv, e, d, i + 1)
  {
  }

  lemma FieldIs(m: seq<byte>, dv: DVs, fs: Tys, off: nat)
    requires fs.Fields? && FieldsOk(m, dv, fs, off)
    ensures Ok(m, dv, fs.head, off) && FieldsOk(m, dv, fs.tail, off)
    ensures FieldScalars(m, dv, fs, off) == Scalars(m, dv, fs.head, off) + FieldScalars(m, dv, fs.tail, off)
  {
  }

  lemma ArrayUnshared(m: seq<byte>, dv: DVs, t: Ty, off: nat)
    requires t.Array? && Unshared(Scalars(m, dv, t, off), Indexes(m, dv, t, off))
    ensures var d := VecOf(m, dv, off + t.off);
      Unshared(ElemScalars(m, dv, t.elem, d, 0), ElemIndexes(m, dv, t.elem, d, 0))
  {
  }

  lemma UnsharedParts(done: seq<nat>, s: seq<nat>, s': seq<nat>, x: set<nat>, x': set<nat>)
    requires Unshared(done + (s + s'), x + x')
    ensures Unshared(done, x) && Unshared(s, x) && Unshared((done + s) + s', x')
  {
    var all := done + (s + s');
    assert forall k :: 0 <= k < |done| ==> done[k] == all[k];
    assert forall k :: 0 <= k < |s| ==> s[k] == all[|done| + k];
    assert (done + s) + s' == all;
  }

  lemma ElemUnshared(m: seq<byte>, dv: DVs, e: Ty, d: Desc, i: nat, done: seq<nat>)
    requires i < d.count && Unshared(done + ElemScalars(m, dv, e, d, i), ElemIndexes(m, dv, e, d, i))
    ensures var s, x := Scalars(m, dv, e, Elem(d, i)), Indexes(m, dv, e, Elem(d, i));
      && Unshared(done, x) && Unshared(s, x)
      && Unshared((done + s) + ElemScalars(m, dv, e, d, i + 1), ElemIndexes(m, dv, e, d, i + 1))
  {
    hide Unshared;
    UnsharedParts(done, Scalars(m, dv, e, Elem(d, i)), ElemScalars(m, dv, e, d, i + 1),
                  Indexes(m, dv, e, Elem(d, i)), ElemIndexes(m, dv, e, d, i + 1));
  }

  lemma FieldUnshared(m: seq<byte>, dv: DVs, fs: Tys, off: nat, done: seq<nat>)
    requires fs.Fields? && Unshared(done + FieldScalars(m, dv, fs, off), FieldIndexes(m, dv, fs, off))
    ensures var s, x := Scalars(m, dv, fs.head, off), Indexes(m, dv, fs.head, off);
      && Unshared(done, x) && Unshared(s, x)
      && Unshared((done + s) + FieldScalars(m, dv, fs.tail, off), FieldIndexes(m, dv, fs.tail, off))
  {
    hide Unshared;
    UnsharedParts(done, Scalars(m, dv, fs.head, off), FieldScalars(m, dv, fs.tail, off),
                  Indexes(m, dv, fs.head, off), FieldIndexes(m, dv, fs.tail, off));
  }

  lemma {:induction false} WriteElsewhere(m: seq<byte>, s: seq<nat>, b: seq<byte>, a: nat)
    requires |s| == |b| && a < |m| && forall k :: 0 <= k < |s| ==> s[k] != a
    ensures Write(m, s, b)[a] == m[a]
    decreases |s|
  {
    if s != [] {
      WriteElsewhere(if s[0] < |m| then m[s[0] := b[0]] else m, s[1..], b[1..], a);
    }
  }

  lemma {:induction false} WriteBoth(m: seq<byte>, s: seq<nat>, b: seq<byte>, s': seq<nat>, b': seq<byte>)
    requires |s| == |b| && |s'| == |b'|
    ensures Write(Write(m, s, b), s', b') == Write(m, s + s', b + b')
    decreases |s|
  {
    if s == [] {
      assert s + s' == s' && b + b' == b';
    } else {
      var n := if s[0] < |m| then m[s[0] := b[0]] else m;
      WriteBoth(n, s[1..], b[1..], s', b');
      assert (s + s')[1..] == s[1..] + s' && (b + b')[1..] == b[1..] + b';
    }
  }

  /** Writing to consecutive places is writing a block. */
  lemma {:induction false} WriteBlock(m: seq<byte>, a: nat, b: seq<byte>)
    requires a + |b| <= |m|
    ensures Write(m, Block(a, |b|), b) == Paste(m, a, b)
    decreases |b|
  {
    if b == [] {
      PasteNothing(m, a);
    } else {
      var n := m[a := b[0]];
      assert Block(a, |b|)[1..] == Block(a + 1, |b| - 1);
      WriteBlock(n, a + 1, b[1..]);
      assert Paste(n, a + 1, b[1..]) == Paste(m, a, b);
    }
  }

  lemma UnflattenBlock(m: seq<byte>, dv: DVs, e: Ty, d: Desc, lo: nat)
    requires e.Scalar? && e.off == 0 && d.elemSize == SizeOf(e.code) && (d.count > 0 ==> d.offset + d.Size() <= |m|)
    requires lo + |ElemScalars(m, dv, e, d, 0)| <= |m|
    ensures |ElemScalars(m, dv, e, d, 0)| == d.Size() && (d.Size() > 0 ==> d.count > 0)
    ensures Write(m, ElemScalars(m, dv, e, d, 0), m[lo..lo + d.Size()]) ==
      if d.Size() == 0 then m else Paste(m, d.offset, m[lo..lo + d.Size()])
  {
    ScalarBlock(m, dv, e, d, 0);
    assert Elem(d, 0) == d.offset;
    assert d.count == 0 ==> d.Size() == 0;
    if d.Size() > 0 {
      WriteBlock(m, d.offset, m[lo..lo + d.Size()]);
    }
  }

  lemma UnflattenScalar(m: seq<byte>, dv: DVs, t: Ty, off: nat, lo: nat)
    requires t.Scalar? && Ok(m, dv, t, off) && lo + |Scalars(m, dv, t, off)| <= |m|
    ensures var n := SizeOf(t.code);
      && |Scalars(m, dv, t, off)| == n && off + t.off + n <= |m|
      && Write(m, Scalars(m, dv, t, off), m[lo..lo + n]) == if n == 0 then m else Paste(m, off + t.off, m[lo..lo + n])
  {
    WriteBlock(m, off + t.off, m[lo..lo + SizeOf(t.code)]);
  }

  lemma WriteAgrees(m: seq<byte>, s: seq<nat>, b: seq<byte>, x: set<nat>)
    requires |s| == |b| && Unshared(s, x)
    ensures Agree(m, Write(m, s, b), x)
  {
    forall a | a in x && a < |m| ensures m[a] == Write(m, s, b)[a] {
      WriteElsewhere(m, s, b, a);
    }
  }

  lemma WriteSparesBlock(m: seq<byte>, s: seq<nat>, b: seq<byte>, lo: nat, hi: nat, a: nat, c: nat)
    requires |s| == |b| && ApartSeq(lo, hi, s) && lo <= a <= c <= hi <= |m|
    ensures Write(m, s, b)[a..c] == m[a..c]
  {
    forall k | a <= k < c ensures Write(m, s, b)[k] == m[k] {
      WriteElsewhere(m, s, b, k);
    }
  }

  /** One more value unflattened after those unflattened into m0 so far. */
  lemma UnflattenStep(m0: seq<byte>, dv: DVs, t: Ty, off: nat, lo: nat, hi: nat, done: seq<nat>)
    requires Ok(m0, dv, t, off) && Apart(lo, hi, Scalars(m0, dv, t, off), Indexes(m0, dv, t, off)) && ApartSeq(lo, hi, done)
    requires Unshared(done, Indexes(m0, dv, t, off))
    requires lo + |done| + |Scalars(m0, dv, t, off)| <= hi <= |m0|
    ensures var s := Scalars(m0, dv, t, off); var b := m0[lo..lo + |done|]; var m := Write(m0, done, b);
      && Ok(m, dv, t, off) && Scalars(m, dv, t, off) == s && Indexes(m, dv, t, off) == Indexes(m0, dv, t, off)
      && Write(m, s, m[lo + |done|..lo + |done| + |s|]) == Write(m0, done + s, m0[lo..lo + |done + s|])
      && ApartSeq(lo, hi, done + s)
  {
    hide Ok, Scalars, Indexes, Write, Agree, Unshared;
    var s, b := Scalars(m0, dv, t, off), m0[lo..lo + |done|];
    WriteAgrees(m0, done, b, Indexes(m0, dv, t, off));
    IndexesDecide(m0, Write(m0, done, b), dv, t, off);
    WriteSparesBlock(m0, done, b, lo, hi, lo + |done|, lo + |done| + |s|);
    WriteBoth(m0, done, b, s, m0[lo + |done|..lo + |done| + |s|]);
    assert b + m0[lo + |done|..lo + |done| + |s|] == m0[lo..lo + |done + s|];
  }
}

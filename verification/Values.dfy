/** What typed data is worth, and that flattening and unflattening carry it over. */
module Values {
  import opened Words
  import opened Seqs
  import opened Layouts
  import opened TypeTrees
  import opened Dataspaces
  import opened Flattening

  /** A number, or the elements of an array or the fields of a cluster in order. */
  datatype Val = Num(n: int) | Items(items: Vals)
  datatype Vals = End | More(first: Val, rest: Vals)

  function LittleEndian(b: seq<byte>): nat {
    if b == [] then 0 else (b[0] as int) + 0x100 * LittleEndian(b[1..])
  }

  predicate IsSigned(code: byte) {
    code == 2 || code == 4 || code == 6
  }

  /** The integer that the bytes of a scalar stand for. */
  function Number(code: byte, b: seq<byte>): int {
    var n := LittleEndian(b);
    match |b|
    case 1 => if IsSigned(code) && n >= 0x80 then n - 0x100 else n
    case 2 => if IsSigned(code) && n >= 0x8000 then n - 0x1_0000 else n
    case 4 => if IsSigned(code) && n >= 0x8000_0000 then n - 0x1_0000_0000 else n
    case _ => n
  }

  function Read(m: seq<byte>, dv: DVs, t: Ty, off: nat): Val
    decreases t, 0
  {
    match t
    case Scalar(code, o) => Num(Number(code, Bytes(m, Block(off + o, SizeOf(code)))))
    case Array(o, e) => Items(ReadElems(m, dv, e, VecOf(m, dv, off + o), 0))
    case Cluster(fs) => Items(ReadFields(m, dv, fs, off))
  }

  function ReadElems(m: seq<byte>, dv: DVs, e: Ty, d: Desc, i: nat): Vals
    decreases e, d.count - i + 1
  {
    if i >= d.count then End else More(Read(m, dv, e, Elem(d, i)), ReadElems(m, dv, e, d, i + 1))
  }

  function ReadFields(m: seq<byte>, dv: DVs, fs: Tys, off: nat): Vals
    decreases fs, 0
  {
    if fs.NoMore? then End else More(Read(m, dv, fs.head, off), ReadFields(m, dv, fs.tail, off))
  }

  /** u has as many elements everywhere as v. */
  predicate SameShape(v: Val, u: Val) {
    match v
    case Num(_) => u.Num?
    case Items(vs) => u.Items? && SameShapes(vs, u.items)
  }

  predicate SameShapes(vs: Vals, us: Vals) {
    vs.More? == us.More? && (vs.More? ==> SameShape(vs.first, us.first) && SameShapes(vs.rest, us.rest))
  }

  // ---- shape decides the flattened size, shape and bytes decide the value ----

  lemma {:induction false} ShapeDecidesSize(m: seq<byte>, m': seq<byte>, dv: DVs, t: Ty, x: nat, u: Ty, y: nat)
    requires SameType(t, u) && SameShape(Read(m, dv, t, x), Read(m', dv, u, y))
    ensures |Scalars(m, dv, t, x)| == |Scalars(m', dv, u, y)|
    decreases t, 0
  {
    match t
    case Scalar(_, _) =>
    case Array(o, e) => ShapeDecidesElems(m, m', dv, e, VecOf(m, dv, x + o), u.elem, VecOf(m', dv, y + u.off), 0);
    case Cluster(fs) => ShapeDecidesFields(m, m', dv, fs, x, u.fields, y);
  }

  lemma {:induction false} ShapeDecidesElems(m: seq<byte>, m': seq<byte>, dv: DVs, e: Ty, d: Desc, f: Ty, c: Desc,
                                             i: nat)
    requires SameType(e, f) && SameShapes(ReadElems(m, dv, e, d, i), ReadElems(m', dv, f, c, i))
    ensures |ElemScalars(m, dv, e, d, i)| == |ElemScalars(m', dv, f, c, i)|
    decreases e, d.count - i + 1
  {
    if i < d.count {
      ShapeDecidesSize(m, m', dv, e, Elem(d, i), f, Elem(c, i));
      ShapeDecidesElems(m, m', dv, e, d, f, c, i + 1);
    }
  }

  lemma {:induction false} ShapeDecidesFields(m: seq<byte>, m': seq<byte>, dv: DVs, fs: Tys, x: nat, gs: Tys, y: nat)
    requires SameTypes(fs, gs) && SameShapes(ReadFields(m, dv, fs, x), ReadFields(m', dv, gs, y))
    ensures |FieldScalars(m, dv, fs, x)| == |FieldScalars(m', dv, gs, y)|
    decreases fs, 0
  {
    if fs.Fields? {
      ShapeDecidesSize(m, m', dv, fs.head, x, gs.head, y);
      ShapeDecidesFields(m, m', dv, fs.tail, x, gs.tail, y);
    }
  }

  lemma BytesSplit(m: seq<byte>, s: seq<nat>, t: seq<nat>, m': seq<byte>, s': seq<nat>, t': seq<nat>)
    requires |s| == |s'| && Bytes(m, s + t) == Bytes(m', s' + t')
    ensures Bytes(m, s) == Bytes(m', s') && Bytes(m, t) == Bytes(m', t')
  {
    BytesOfBoth(m, s, t);
    BytesOfBoth(m', s', t');
    var b := Bytes(m, s + t);
    assert b[..|s|] == Bytes(m, s) && b[..|s|] == Bytes(m', s');
    assert b[|s|..] == Bytes(m, t) && b[|s|..] == Bytes(m', t');
  }

  lemma {:induction false} BytesDecideValue(m: seq<byte>, m': seq<byte>, dv: DVs, t: Ty, x: nat, u: Ty, y: nat)
    requires SameType(t, u) && SameShape(Read(m, dv, t, x), Read(m', dv, u, y))
    requires Bytes(m, Scalars(m, dv, t, x)) == Bytes(m', Scalars(m', dv, u, y))
    ensures Read(m, dv, t, x) == Read(m', dv, u, y)
    decreases t, 0
  {
    match t
    case Scalar(_, _) =>
    case Array(o, e) => BytesDecideElems(m, m', dv, e, VecOf(m, dv, x + o), u.elem, VecOf(m', dv, y + u.off), 0);
    case Cluster(fs) => BytesDecideFields(m, m', dv, fs, x, u.fields, y);
  }

  lemma {:induction false} BytesDecideElems(m: seq<byte>, m': seq<byte>, dv: DVs, e: Ty, d: Desc, f: Ty, c: Desc,
                                            i: nat)
    requires SameType(e, f) && SameShapes(ReadElems(m, dv, e, d, i), ReadElems(m', dv, f, c, i))
    requires Bytes(m, ElemScalars(m, dv, e, d, i)) == Bytes(m', ElemScalars(m', dv, f, c, i))
    ensures ReadElems(m, dv, e, d, i) == ReadElems(m', dv, f, c, i)
    decreases e, d.count - i + 1
  {
    if i < d.count {
      ShapeDecidesSize(m, m', dv, e, Elem(d, i), f, Elem(c, i));
      BytesSplit(m, Scalars(m, dv, e, Elem(d, i)), ElemScalars(m, dv, e, d, i + 1),
                 m', Scalars(m', dv, f, Elem(c, i)), ElemScalars(m', dv, f, c, i + 1));
      BytesDecideValue(m, m', dv, e, Elem(d, i), f, Elem(c, i));
      BytesDecideElems(m, m', dv, e, d, f, c, i + 1);
    }
  }

  lemma {:induction false} BytesDecideFields(m: seq<byte>, m': seq<byte>, dv: DVs, fs: Tys, x: nat, gs: Tys, y: nat)
    requires SameTypes(fs, gs) && SameShapes(ReadFields(m, dv, fs, x), ReadFields(m', dv, gs, y))
    requires Bytes(m, FieldScalars(m, dv, fs, x)) == Bytes(m', FieldScalars(m', dv, gs, y))
    ensures ReadFields(m, dv, fs, x) == ReadFields(m', dv, gs, y)
    decreases fs, 0
  {
    if fs.Fields? {
      ShapeDecidesSize(m, m', dv, fs.head, x, gs.head, y);
      BytesSplit(m, Scalars(m, dv, fs.head, x), FieldScalars(m, dv, fs.tail, x),
                 m', Scalars(m', dv, gs.head, y), FieldScalars(m', dv, gs.tail, y));
      BytesDecideValue(m, m', dv, fs.head, x, gs.head, y);
      BytesDecideFields(m, m', dv, fs.tail, x, gs.tail, y);
    }
  }

  // ---- indexes decide the shape ----

  lemma {:induction false} IndexesDecideShape(m: seq<byte>, m': seq<byte>, dv: DVs, t: Ty, off: nat)
    requires Ok(m, dv, t, off) && Agree(m, m', Indexes(m, dv, t, off))
    ensures SameShape(Read(m, dv, t, off), Read(m', dv, t, off))
    decreases t, 0
  {
    match t
    case Scalar(_, _) =>
    case Array(o, e) => ElemIndexesDecideShape(m, m', dv, e, VecOf(m, dv, off + o), 0);
    case Cluster(fs) => FieldIndexesDecideShape(m, m', dv, fs, off);
  }

  lemma {:induction false} ElemIndexesDecideShape(m: seq<byte>, m': seq<byte>, dv: DVs, e: Ty, d: Desc, i: nat)
    requires ElemsOk(m, dv, e, d, i) && Agree(m, m', ElemIndexes(m, dv, e, d, i))
    ensures SameShapes(ReadElems(m, dv, e, d, i), ReadElems(m', dv, e, d, i))
    decreases e, d.count - i + 1
  {
    if i < d.count {
      IndexesDecideShape(m, m', dv, e, Elem(d, i));
      ElemIndexesDecideShape(m, m', dv, e, d, i + 1);
    }
  }

  lemma {:induction false} FieldIndexesDecideShape(m: seq<byte>, m': seq<byte>, dv: DVs, fs: Tys, off: nat)
    requires FieldsOk(m, dv, fs, off) && Agree(m, m', FieldIndexes(m, dv, fs, off))
    ensures SameShapes(ReadFields(m, dv, fs, off), ReadFields(m', dv, fs, off))
    decreases fs, 0
  {
    if fs.Fields? {
      IndexesDecideShape(m, m', dv, fs.head, off);
      FieldIndexesDecideShape(m, m', dv, fs.tail, off);
    }
  }

  lemma {:induction false} SameShapeTransitive(v: Val, u: Val, w: Val)
    requires SameShape(v, u) && SameShape(u, w)
    ensures SameShape(v, w)
    decreases v
  {
    if v.Items? {
      SameShapesTransitive(v.items, u.items, w.items);
    }
  }

  lemma {:induction false} SameShapesTransitive(vs: Vals, us: Vals, ws: Vals)
    requires SameShapes(vs, us) && SameShapes(us, ws)
    ensures SameShapes(vs, ws)
    decreases vs
  {
    if vs.More? {
      SameShapeTransitive(vs.first, us.first, ws.first);
      SameShapesTransitive(vs.rest, us.rest, ws.rest);
    }
  }

  // ---- round trips ----

  /** Distinct places hold what was written to them. */
  lemma {:induction false} BytesOfWritten(m: seq<byte>, s: seq<nat>, b: seq<byte>)
    requires |s| == |b| && NoDup(s) && Below(s, |m|)
    ensures Bytes(Write(m, s, b), s) == b
    decreases |s|
  {
    if s != [] {
      var n := m[s[0] := b[0]];
      assert forall k :: 0 <= k < |s[1..]| ==> s[1..][k] == s[k + 1];
      BytesOfWritten(n, s[1..], b[1..]);
      WriteElsewhere(n, s[1..], b[1..], s[0]);
      var w := Write(m, s, b);
      assert Bytes(w, s)[1..] == Bytes(w, s[1..]);
      assert Bytes(w, s)[0] == b[0];
    }
  }

  /** The data at y may be unflattened into: its scalars are distinct, and none is part of an index or of the block. */
  ghost predicate Template(m: seq<byte>, dv: DVs, u: Ty, y: nat, lo: nat, hi: nat) {
    var s, x := Scalars(m, dv, u, y), Indexes(m, dv, u, y);
    Ok(m, dv, u, y) && NoDup(s) && Unshared(s, x) && Apart(lo, hi, s, x)
  }

  /** Unflattening any block of the right length and flattening again gives the block. */
  lemma UnflattenThenFlatten(m: seq<byte>, dv: DVs, u: Ty, y: nat, lo: nat, hi: nat, b: seq<byte>)
    requires Template(m, dv, u, y, lo, hi) && |b| == |Scalars(m, dv, u, y)|
    ensures var w := Write(m, Scalars(m, dv, u, y), b);
      && Ok(w, dv, u, y) && Scalars(w, dv, u, y) == Scalars(m, dv, u, y)
      && SameShape(Read(m, dv, u, y), Read(w, dv, u, y))
      && Bytes(w, Scalars(w, dv, u, y)) == b
  {
    hide Ok, Scalars, Indexes, Read, Write, NoDup, Unshared, Agree;
    var s := Scalars(m, dv, u, y);
    WriteAgrees(m, s, b, Indexes(m, dv, u, y));
    IndexesDecide(m, Write(m, s, b), dv, u, y);
    IndexesDecideShape(m, Write(m, s, b), dv, u, y);
    ScalarsInside(m, dv, u, y);
    BytesOfWritten(m, s, b);
  }

  /**
   Flattening the value at x into a block and unflattening the block into a template y of the same type and
   shape makes y worth what x was worth, every scalar of every nested array included.
  */
  lemma FlattenThenUnflatten(m: seq<byte>, dv: DVs, t: Ty, x: nat, u: Ty, y: nat, lo: nat)
    requires Ok(m, dv, t, x) && SameType(t, u) && SameShape(Read(m, dv, t, x), Read(m, dv, u, y))
    requires lo + |Scalars(m, dv, t, x)| <= |m| && Template(m, dv, u, y, lo, lo + |Scalars(m, dv, t, x)|)
    ensures var n := |Scalars(m, dv, t, x)|;
      var flat := Paste(m, lo, Bytes(m, Scalars(m, dv, t, x)));
      && |Scalars(flat, dv, u, y)| == n
      && var back := Write(flat, Scalars(flat, dv, u, y), flat[lo..lo + n]);
      Ok(back, dv, u, y) && Read(back, dv, u, y) == Read(m, dv, t, x)
  {
    hide Ok, Scalars, Indexes, Read, Write, Paste, NoDup, Unshared, Agree, Apart, SameType, SameShape, Bytes;
    var s, r := Scalars(m, dv, t, x), Scalars(m, dv, u, y);
    ShapeDecidesSize(m, m, dv, t, x, u, y);
    var b := Bytes(m, s);
    var flat := Paste(m, lo, b);
    PasteAgrees(m, lo, b, lo + |b|, r, Indexes(m, dv, u, y));
    IndexesDecide(m, flat, dv, u, y);
    IndexesDecideShape(m, flat, dv, u, y);
    SameShapeTransitive(Read(m, dv, t, x), Read(m, dv, u, y), Read(flat, dv, u, y));
    assert flat[lo..lo + |b|] == b by { PastedBlock(m, lo, b); }
    UnflattenThenFlatten(flat, dv, u, y, lo, lo + |b|, b);
    var back := Write(flat, r, b);
    SameShapeTransitive(Read(m, dv, t, x), Read(flat, dv, u, y), Read(back, dv, u, y));
    BytesDecideValue(m, back, dv, t, x, u, y);
  }

  lemma PastedBlock(m: seq<byte>, lo: nat, b: seq<byte>)
    requires lo + |b| <= |m|
    ensures Paste(m, lo, b)[lo..lo + |b|] == b
  {
  }
}

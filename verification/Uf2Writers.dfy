/** The installer's UF2 package: files cut into 512-byte blocks, and a reader that puts them together again. */
module Uf2Writers {
  import opened Words

  const MAGIC_START0 := 0x0A324655
  const MAGIC_START1 := 0x9E5D5157
  const MAGIC_END := 0x0AB16F30
  const FILE_CONTAINER := 0x00001000
  const BLOCK := 512

  /** The characters of a name, of which those from 0x80 on are not ASCII. */
  datatype File = File(name: seq<byte>, data: seq<byte>)

  datatype Error = NameTooLong | DivisionByZero | NotAscii | StructError
  datatype Result = Success(image: seq<byte>) | Failure(error: Error)

  predicate IsAscii(name: seq<byte>) {
    forall k :: 0 <= k < |name| ==> name[k] < 0x80
  }

  predicate NoNull(name: seq<byte>) {
    forall k :: 0 <= k < |name| ==> name[k] != 0
  }

  // ---- numbers ----

  /** struct.pack of '<I'. */
  function Pack(n: nat): (r: seq<byte>)
    ensures |r| == 4
  {
    [n % 0x100, n / 0x100 % 0x100, n / 0x1_0000 % 0x100, n / 0x100_0000 % 0x100]
  }

  function Unpack(b: seq<byte>, a: nat): nat
    requires a + 4 <= |b|
  {
    (b[a] as int) + 0x100 * (b[a + 1] as int) + 0x1_0000 * (b[a + 2] as int) + 0x100_0000 * (b[a + 3] as int)
  }

  /** Four base-256 digits make up a number below 2 to the 32. */
  lemma Digits(n: nat)
    requires n < 0x1_0000_0000
    ensures n ==
      n % 0x100 + 0x100 * (n / 0x100 % 0x100) + 0x1_0000 * (n / 0x1_0000 % 0x100) + 0x100_0000 * (n / 0x100_0000 % 0x100)
  {
    var a, b, c := n / 0x100, n / 0x1_0000, n / 0x100_0000;
    assert b == a / 0x100 && c == b / 0x100;
  }

  lemma UnpackPacked(b: seq<byte>, a: nat, n: nat)
    requires a + 4 <= |b| && b[a..a + 4] == Pack(n) && n < 0x1_0000_0000
    ensures Unpack(b, a) == n
  {
    Digits(n);
    var s := b[a..a + 4];
    assert s[0] == b[a] && s[1] == b[a + 1] && s[2] == b[a + 2] && s[3] == b[a + 3];
    var p := Pack(n);
    assert (p[0] as int) == n % 0x100;
  }

  // ---- blocks ----

  function Payload(f: File): int {
    var payload := 476 - |f.name| - 1;
    var limited := if payload > |f.data| then |f.data| else payload;
    if limited > 466 then 466 else limited
  }

  /** A file that can be written. */
  predicate Writable(f: File) {
    |f.name| <= 150 && f.data != []
  }

  function BlockCount(f: File): (n: nat)
    requires Writable(f)
  {
    (|f.data| + Payload(f) - 1) / Payload(f)
  }

  function TotalCount(files: seq<File>): (n: nat)
    requires forall k :: 0 <= k < |files| ==> Writable(files[k])
  {
    if files == [] then 0 else BlockCount(files[0]) + TotalCount(files[1..])
  }

  function Zeros(n: nat): (r: seq<byte>)
    ensures |r| == n
  {
    seq(n, _ => 0)
  }

  function Header(at: nat, payload: nat, number: nat, total: nat, size: nat): (r: seq<byte>)
    ensures |r| == 32
  {
    Pack(MAGIC_START0) + Pack(MAGIC_START1) + Pack(FILE_CONTAINER) + Pack(at) + Pack(payload)
    + Pack(number) + Pack(total) + Pack(size)
  }

  /** The block with the bytes of f from at on. */
  function MakeBlock(f: File, at: nat, number: nat, total: nat): (r: seq<byte>)
    requires Writable(f) && at < |f.data|
    ensures |r| == BLOCK
  {
    var buffer := Piece(f, at);
    Header(at, |buffer|, number, total, |f.data|) + buffer + f.name + Zeros(508 - 32 - |buffer| - |f.name|) + Pack(MAGIC_END)
  }

  function Piece(f: File, at: nat): (r: seq<byte>)
    requires Writable(f) && at < |f.data|
    ensures 0 < |r| <= Payload(f)
  {
    f.data[at..if at + Payload(f) < |f.data| then at + Payload(f) else |f.data|]
  }

  /** The blocks of f from at on, the first of them numbered number. */
  function FileBlocks(f: File, at: nat, number: nat, total: nat): (r: seq<byte>)
    requires Writable(f)
    decreases |f.data| - at
  {
    if at >= |f.data| then [] else MakeBlock(f, at, number, total) + FileBlocks(f, at + |Piece(f, at)|, number + 1, total)
  }

  function AllBlocks(files: seq<File>, number: nat, total: nat): (r: seq<byte>)
    requires forall k :: 0 <= k < |files| ==> Writable(files[k])
    decreases |files|
  {
    if files == [] then []
    else FileBlocks(files[0], 0, number, total) + AllBlocks(files[1..], number + BlockCount(files[0]), total)
  }

  lemma PayloadIsPositive(f: File)
    requires Writable(f)
    ensures 0 < Payload(f) <= 466 && Payload(f) + |f.name| <= 475
  {
  }

  lemma {:induction false} FileBlocksLength(f: File, at: nat, number: nat, total: nat)
    requires Writable(f) && at <= |f.data|
    ensures |FileBlocks(f, at, number, total)| == BLOCK * ((|f.data| - at + Payload(f) - 1) / Payload(f))
    decreases |f.data| - at
  {
    hide Payload, MakeBlock;
    var p := Payload(f);
    PayloadIsPositive(f);
    if at < |f.data| {
      FileBlocksLength(f, at + |Piece(f, at)|, number + 1, total);
      Quotient(|f.data| - at, p, |Piece(f, at)|);
    } else {
      QuotientIs(p - 1, p, 0, p - 1);
    }
  }

  lemma NoMultiple(p: int, d: int)
    requires 0 < p && -p < p * d < p
    ensures d == 0
  {
  }

  lemma QuotientIs(x: int, p: int, q: int, r: int)
    requires x == p * q + r && 0 <= r < p
    ensures x / p == q
  {
    var e, s := x / p, x % p;
    assert p * e + s == x;
    assert p * (e - q) == p * e - p * q;
    NoMultiple(p, e - q);
  }

  /** Taking one piece away takes one block away. */
  lemma Quotient(n: int, p: int, taken: int)
    requires 0 < n && 0 < p && taken == if p < n then p else n
    ensures (n + p - 1) / p == 1 + (n - taken + p - 1) / p
  {
    if p < n {
      var q, r := (n - 1) / p, (n - 1) % p;
      assert n - 1 == p * q + r;
      QuotientIs(n + p - 1, p, q + 1, r);
    } else {
      QuotientIs(n + p - 1, p, 1, n - 1);
      QuotientIs(p - 1, p, 0, p - 1);
    }
  }

  // ---- reading, after "File containers" in the UF2 specification ----

  type Volume = map<seq<byte>, seq<byte>>

  function CString(s: seq<byte>): seq<byte> {
    if s == [] || s[0] == 0 then [] else [s[0]] + CString(s[1..])
  }

  /** content with data written at place at, and zeros in any gap before it. */
  function Placed(content: seq<byte>, at: nat, data: seq<byte>): seq<byte> {
    var padded := content + Zeros(if |content| < at then at - |content| else 0);
    padded[..at] + data + if at + |data| < |padded| then padded[at + |data|..] else []
  }

  predicate IsFileBlock(b: seq<byte>) {
    && |b| == BLOCK && Unpack(b, 0) == MAGIC_START0 && Unpack(b, 4) == MAGIC_START1 && Unpack(b, 508) == MAGIC_END
    && Unpack(b, 8) / FILE_CONTAINER % 2 == 1 && Unpack(b, 16) <= 476
  }

  function ReadBlock(v: Volume, b: seq<byte>): Volume {
    if !IsFileBlock(b) then v
    else
      var at, payload := Unpack(b, 12), Unpack(b, 16);
      var name := CString(b[32 + payload..508]);
      v[name := Placed(if name in v then v[name] else [], at, b[32..32 + payload])]
  }

  function ReadImage(v: Volume, image: seq<byte>): Volume
    decreases |image|
  {
    if |image| < BLOCK then v else ReadImage(ReadBlock(v, image[..BLOCK]), image[BLOCK..])
  }

  // ---- what is written is what is read ----

  /** A reader sees a name up to its first null. */
  lemma {:induction false} CStringEnds(name: seq<byte>, rest: seq<byte>)
    requires rest != [] && rest[0] == 0
    ensures CString(name + rest) == CString(name)
  {
    if name == [] {
      assert name + rest == rest;
    } else {
      assert (name + rest)[1..] == name[1..] + rest;
      CStringEnds(name[1..], rest);
    }
  }

  lemma {:induction false} CStringIsAll(name: seq<byte>)
    ensures NoNull(CString(name)) && (CString(name) == name <==> NoNull(name))
  {
    if name != [] {
      CStringIsAll(name[1..]);
      assert name == [name[0]] + name[1..];
    }
  }

  lemma HeaderFields(at: nat, payload: nat, number: nat, total: nat, size: nat)
    ensures var h := Header(at, payload, number, total, size);
      && h[0..4] == Pack(MAGIC_START0) && h[4..8] == Pack(MAGIC_START1) && h[8..12] == Pack(FILE_CONTAINER)
      && h[12..16] == Pack(at)
      && h[16..20] == Pack(payload) && h[20..24] == Pack(number) && h[24..28] == Pack(total) && h[28..32] == Pack(size)
  {
    hide Pack;
  }

  /** The fields of a block, as a reader sees them. */
  lemma BlockFields(f: File, at: nat, number: nat, total: nat)
    requires Writable(f) && at < |f.data| < 0x1_0000_0000 && number < 0x1_0000_0000 && total < 0x1_0000_0000
    ensures var b, p := MakeBlock(f, at, number, total), |Piece(f, at)|;
      && IsFileBlock(b) && Unpack(b, 12) == at && Unpack(b, 16) == p && Unpack(b, 20) == number && Unpack(b, 24) == total
      && Unpack(b, 28) == |f.data| && p <= 466 && b[32..32 + p] == Piece(f, at) && CString(b[32 + p..508]) == CString(f.name)
  {
    hide Pack, Unpack, CString, Header;
    PayloadIsPositive(f);
    var b, piece := MakeBlock(f, at, number, total), Piece(f, at);
    var p := |piece|;
    var h, z := Header(at, p, number, total, |f.data|), Zeros(508 - 32 - p - |f.name|);
    HeaderFields(at, p, number, total, |f.data|);
    assert b == h + (piece + f.name + z + Pack(MAGIC_END));
    BlockSlices(b, h, piece + f.name + z + Pack(MAGIC_END));
    UnpackPacked(b, 0, MAGIC_START0);
    UnpackPacked(b, 4, MAGIC_START1);
    UnpackPacked(b, 8, FILE_CONTAINER);
    UnpackPacked(b, 12, at);
    UnpackPacked(b, 16, p);
    UnpackPacked(b, 20, number);
    UnpackPacked(b, 24, total);
    UnpackPacked(b, 28, |f.data|);
    assert b[508..512] == Pack(MAGIC_END);
    UnpackPacked(b, 508, MAGIC_END);
    assert b[32 + p..508] == f.name + z;
    CStringEnds(f.name, z);
  }

  /** The bytes that the UF2 specification asks for at the beginning of a block and at its end, and the flag of a file. */
  lemma BlockStartsAndEnds(f: File, at: nat, number: nat, total: nat)
    requires Writable(f) && at < |f.data|
    ensures var b := MakeBlock(f, at, number, total);
      && b[0..4] == [0x55, 0x46, 0x32, 0x0A] && b[4..8] == [0x57, 0x51, 0x5D, 0x9E]
      && b[8..12] == [0x00, 0x10, 0x00, 0x00] && b[508..] == [0x30, 0x6F, 0xB1, 0x0A]
  {
    hide Header;
    var b, piece := MakeBlock(f, at, number, total), Piece(f, at);
    var h, z := Header(at, |piece|, number, total, |f.data|), Zeros(508 - 32 - |piece| - |f.name|);
    HeaderFields(at, |piece|, number, total, |f.data|);
    PackedMagic();
    hide Pack, Piece;
    assert b == h + (piece + f.name + z + Pack(MAGIC_END));
    BlockSlices(b, h, piece + f.name + z + Pack(MAGIC_END));
    assert b[508..] == Pack(MAGIC_END);
  }

  lemma PackedMagic()
    ensures Pack(MAGIC_START0) == [0x55, 0x46, 0x32, 0x0A] && Pack(MAGIC_START1) == [0x57, 0x51, 0x5D, 0x9E]
    ensures Pack(FILE_CONTAINER) == [0x00, 0x10, 0x00, 0x00] && Pack(MAGIC_END) == [0x30, 0x6F, 0xB1, 0x0A]
  {
  }

  /** A block carries as many bytes as there are, up to 466, and up to the name with its null. */
  lemma PayloadIsGreatest(f: File, p: int)
    requires Writable(f)
    ensures p <= Payload(f) <==> p <= |f.data| && p <= 466 && 32 + p + |f.name| + 1 <= 508
  {
  }

  lemma BlockSlices(b: seq<byte>, h: seq<byte>, rest: seq<byte>)
    requires |h| == 32 && b == h + rest
    ensures b[0..4] == h[0..4] && b[4..8] == h[4..8] && b[8..12] == h[8..12] && b[12..16] == h[12..16]
    ensures b[16..20] == h[16..20] && b[20..24] == h[20..24] && b[24..28] == h[24..28] && b[28..32] == h[28..32]
  {
  }

  /** content with the front of it overwritten by data. */
  function Over(content: seq<byte>, data: seq<byte>): seq<byte> {
    data + if |data| < |content| then content[|data|..] else []
  }

  /** What the volume holds under the name that a reader sees, to begin with */
  function Held(v: Volume, name: seq<byte>): seq<byte> {
    if CString(name) in v then v[CString(name)] else []
  }

  /** The volume once a file has been read */
  function WithFile(v: Volume, f: File): Volume {
    v[CString(f.name) := Over(Held(v, f.name), f.data)]
  }

  lemma OverMore(content: seq<byte>, done: seq<byte>, piece: seq<byte>)
    ensures Placed(Over(content, done), |done|, piece) == Over(content, done + piece)
  {
  }

  /** Reading the blocks of a file from at on, when what comes before is there already, puts all of it over what was
      there at first. */
  lemma {:induction false} ReadsFile(v: Volume, w: Volume, f: File, at: nat, number: nat, total: nat, rest: seq<byte>)
    requires Writable(f) && at <= |f.data| < 0x1_0000_0000 && total < 0x1_0000_0000
    requires number + |FileBlocks(f, at, number, total)| / BLOCK <= total
    requires w == if at == 0 then v else v[CString(f.name) := Over(Held(v, f.name), f.data[..at])]
    ensures ReadImage(w, FileBlocks(f, at, number, total) + rest) == ReadImage(WithFile(v, f), rest)
    decreases |f.data| - at
  {
    hide FileBlocks, MakeBlock, ReadBlock, ReadImage, Payload, Writable, CString, Over;
    if at == |f.data| {
      FileBlocksEnd(f, number, total);
      assert [] + rest == rest;
      assert f.data[..at] == f.data;
    } else {
      var b, next := MakeBlock(f, at, number, total), at + |Piece(f, at)|;
      var behind := FileBlocks(f, next, number + 1, total);
      FileBlocksFirst(f, at, number, total);
      PlacesPiece(v, w, f, at, number, total);
      ReadFirst(w, b, behind + rest);
      assert b + behind + rest == b + (behind + rest);
      ReadsFile(v, v[CString(f.name) := Over(Held(v, f.name), f.data[..next])], f, next, number + 1, total, rest);
    }
  }

  lemma FileBlocksEnd(f: File, number: nat, total: nat)
    requires Writable(f)
    ensures FileBlocks(f, |f.data|, number, total) == [] && f.data != []
  {
  }

  lemma FileBlocksFirst(f: File, at: nat, number: nat, total: nat)
    requires Writable(f) && at < |f.data|
    ensures var next := at + |Piece(f, at)|;
      && next <= |f.data|
      && FileBlocks(f, at, number, total) == MakeBlock(f, at, number, total) + FileBlocks(f, next, number + 1, total)
      && |FileBlocks(f, at, number, total)| / BLOCK == 1 + |FileBlocks(f, next, number + 1, total)| / BLOCK
  {
  }

  lemma ReadFirst(v: Volume, b: seq<byte>, rest: seq<byte>)
    requires |b| == BLOCK
    ensures ReadImage(v, b + rest) == ReadImage(ReadBlock(v, b), rest)
  {
    hide ReadBlock;
    assert (b + rest)[..BLOCK] == b && (b + rest)[BLOCK..] == rest;
  }

  lemma PlacesPiece(v: Volume, w: Volume, f: File, at: nat, number: nat, total: nat)
    requires Writable(f) && at < |f.data| < 0x1_0000_0000 && number < 0x1_0000_0000 && total < 0x1_0000_0000
    requires w == if at == 0 then v else v[CString(f.name) := Over(Held(v, f.name), f.data[..at])]
    ensures at + |Piece(f, at)| <= |f.data|
    ensures ReadBlock(w, MakeBlock(f, at, number, total)) ==
      v[CString(f.name) := Over(Held(v, f.name), f.data[..at + |Piece(f, at)|])]
  {
    hide MakeBlock, Unpack, CString, IsFileBlock, Placed, Over;
    BlockFields(f, at, number, total);
    var before := if CString(f.name) in w then w[CString(f.name)] else [];
    OverNothing(Held(v, f.name));
    assert f.data[..0] == [];
    assert before == Over(Held(v, f.name), f.data[..at]);
    OverMore(Held(v, f.name), f.data[..at], Piece(f, at));
    assert f.data[..at] + Piece(f, at) == f.data[..at + |Piece(f, at)|];
  }

  lemma OverFits(content: seq<byte>, data: seq<byte>)
    requires |content| <= |data|
    ensures Over(content, data) == data
  {
  }

  lemma OverNothing(content: seq<byte>)
    ensures Over(content, []) == content
  {
  }

  // ---- the package ----

  predicate AllWritable(files: seq<File>) {
    forall k :: 0 <= k < |files| ==> Writable(files[k])
  }

  /** The first n files can be packed: names are ASCII, and counts and sizes fit the fields of struct.pack. */
  ghost predicate PackableUpTo(files: seq<File>, n: nat)
    requires AllWritable(files) && n <= |files|
  {
    && (n > 0 ==> TotalCount(files) < 0x1_0000_0000)
    && (forall k :: 0 <= k < n ==> IsAscii(files[k].name) && |files[k].data| < 0x1_0000_0000)
  }

  ghost predicate Packable(files: seq<File>) {
    AllWritable(files) && PackableUpTo(files, |files|)
  }

  /** What can be packed: names of at most 150 characters below 0x80, files that are not empty, and sizes and the number of
      blocks within 32 bits. */
  lemma PackableExactly(files: seq<File>)
    ensures Packable(files) <==>
      && (forall k :: 0 <= k < |files| ==> |files[k].name| <= 150 && 0 < |files[k].data| <= 0xFFFF_FFFF)
      && (forall k, j :: 0 <= k < |files| && 0 <= j < |files[k].name| ==> files[k].name[j] <= 0x7F)
      && (files != [] && AllWritable(files) ==> TotalCount(files) <= 0xFFFF_FFFF)
  {
    if AllWritable(files) {
      hide TotalCount;
    }
  }

  /** No name holds a null, and files of the same name are the same. */
  ghost predicate Tellable(files: seq<File>) {
    && (forall k :: 0 <= k < |files| ==> NoNull(files[k].name))
    && forall j, k :: 0 <= j < k < |files| && files[j].name == files[k].name ==> files[j].data == files[k].data
  }

  /** The volume once all files have been read, each over what was there under its name */
  function Stored(v: Volume, files: seq<File>): Volume
    decreases |files|
  {
    if files == [] then v else Stored(WithFile(v, files[0]), files[1..])
  }

  lemma FileBlocksCount(f: File, number: nat, total: nat)
    requires Writable(f)
    ensures |FileBlocks(f, 0, number, total)| == BLOCK * BlockCount(f)
    ensures |FileBlocks(f, 0, number, total)| / BLOCK == BlockCount(f)
  {
    FileBlocksLength(f, 0, number, total);
  }

  /** Whatever the names, a reader ends with every file put over what it had under that name. */
  lemma {:induction false} ReadsAll(v: Volume, files: seq<File>, number: nat, total: nat)
    requires AllWritable(files) && total < 0x1_0000_0000 && number + TotalCount(files) <= total
    requires forall k :: 0 <= k < |files| ==> |files[k].data| < 0x1_0000_0000
    ensures ReadImage(v, AllBlocks(files, number, total)) == Stored(v, files)
    decreases |files|
  {
    hide FileBlocks, ReadImage, BlockCount, Writable, WithFile;
    if files != [] {
      FileBlocksCount(files[0], number, total);
      var f, rest := files[0], AllBlocks(files[1..], number + BlockCount(files[0]), total);
      ReadsFile(v, v, f, 0, number, total, rest);
      ReadsAll(WithFile(v, f), files[1..], number + BlockCount(f), total);
    } else {
      NothingToRead(v, number, total);
    }
  }

  lemma {:induction false} StoredNames(v: Volume, files: seq<File>)
    requires forall n :: n in v ==> NoNull(n)
    ensures forall n :: n in Stored(v, files) ==> NoNull(n)
    decreases |files|
  {
    hide NoNull, CString;
    if files != [] {
      CStringIsAll(files[0].name);
      StoredNames(WithFile(v, files[0]), files[1..]);
    }
  }

  /** Files that can be told apart are stored under their names, and nothing else is. */
  lemma {:induction false} StoredIs(v: Volume, files: seq<File>, name: seq<byte>)
    requires Tellable(files)
    requires forall k :: 0 <= k < |files| && files[k].name in v ==> v[files[k].name] == files[k].data
    ensures forall k :: 0 <= k < |files| && files[k].name == name ==>
      name in Stored(v, files) && Stored(v, files)[name] == files[k].data
    ensures (forall k :: 0 <= k < |files| ==> files[k].name != name) ==>
      (name in Stored(v, files) <==> name in v) && (name in v ==> Stored(v, files)[name] == v[name])
    decreases |files|
  {
    hide NoNull, CString;
    if files != [] {
      var f, rest := files[0], files[1..];
      CStringIsAll(f.name);
      assert NoNull(f.name);
      assert f.name in v ==> v[files[0].name] == f.data;
      assert Held(v, f.name) == [] || Held(v, f.name) == f.data;
      OverFits(Held(v, f.name), f.data);
      assert forall k :: 0 < k < |files| ==> files[k] == rest[k - 1];
      StoredIs(v[f.name := f.data], rest, name);
      StoredKeeps(v[f.name := f.data], rest, f.name);
    }
  }

  /** What is there under a name stays if the files of that name bring the same. */
  lemma {:induction false} StoredKeeps(v: Volume, files: seq<File>, name: seq<byte>)
    requires name in v && forall k :: 0 <= k < |files| ==> NoNull(files[k].name)
    requires forall k :: 0 <= k < |files| && files[k].name == name ==> files[k].data == v[name]
    ensures name in Stored(v, files) && Stored(v, files)[name] == v[name]
    decreases |files|
  {
    hide NoNull, CString;
    if files != [] {
      CStringIsAll(files[0].name);
      StoredKeeps(WithFile(v, files[0]), files[1..], name);
    }
  }

  /** Reading the package gives back every file under its name exactly if no name holds a null and files of one name are
      the same; and then it gives nothing else. */
  lemma RoundTripExactly(files: seq<File>)
    requires Packable(files)
    ensures var v := ReadImage(map[], AllBlocks(files, 0, TotalCount(files)));
      && ((forall k :: 0 <= k < |files| ==> files[k].name in v && v[files[k].name] == files[k].data) <==> Tellable(files))
      && (Tellable(files) ==> forall n :: n in v ==> exists k :: 0 <= k < |files| && files[k].name == n)
  {
    hide NoNull, Stored, ReadImage, AllBlocks, BlockCount;
    ReadsAll(map[], files, 0, TotalCount(files));
    StoredNames(map[], files);
    var v := Stored(map[], files);
    if Tellable(files) {
      forall n ensures (forall k :: 0 <= k < |files| && files[k].name == n ==> n in v && v[n] == files[k].data)
        ensures n in v ==> exists k :: 0 <= k < |files| && files[k].name == n
      {
        StoredIs(map[], files, n);
      }
    }
  }

  // ---- numbering ----

  /** A row of whole blocks numbered from number on, each saying how many there are in all. */
  ghost predicate Numbered(image: seq<byte>, number: nat, total: nat)
    decreases |image|
  {
    image != [] ==>
      |image| >= BLOCK && IsFileBlock(image[..BLOCK]) && Unpack(image, 20) == number && Unpack(image, 24) == total
      && Numbered(image[BLOCK..], number + 1, total)
  }

  lemma NothingToRead(v: Volume, number: nat, total: nat)
    ensures ReadImage(v, []) == v && Numbered([], number, total)
  {
  }

  lemma NumberedFirst(b: seq<byte>, rest: seq<byte>, number: nat, total: nat)
    requires |b| == BLOCK && IsFileBlock(b) && Unpack(b, 20) == number && Unpack(b, 24) == total
      && Numbered(rest, number + 1, total)
    ensures Numbered(b + rest, number, total)
  {
    assert (b + rest)[..BLOCK] == b && (b + rest)[BLOCK..] == rest;
  }

  lemma {:induction false} FileIsNumbered(f: File, at: nat, number: nat, total: nat, rest: seq<byte>)
    requires Writable(f) && at <= |f.data| < 0x1_0000_0000 && total < 0x1_0000_0000
    requires number + |FileBlocks(f, at, number, total)| / BLOCK <= total
    requires Numbered(rest, number + |FileBlocks(f, at, number, total)| / BLOCK, total)
    ensures Numbered(FileBlocks(f, at, number, total) + rest, number, total)
    decreases |f.data| - at
  {
    hide FileBlocks, MakeBlock, IsFileBlock, Unpack, Numbered, Payload, Writable, CString;
    if at == |f.data| {
      FileBlocksEnd(f, number, total);
      assert [] + rest == rest;
    } else {
      var b, next := MakeBlock(f, at, number, total), at + |Piece(f, at)|;
      FileBlocksFirst(f, at, number, total);
      BlockFields(f, at, number, total);
      FileIsNumbered(f, next, number + 1, total, rest);
      NumberedFirst(b, FileBlocks(f, next, number + 1, total) + rest, number, total);
      assert b + FileBlocks(f, next, number + 1, total) + rest == b + (FileBlocks(f, next, number + 1, total) + rest);
    }
  }

  lemma {:induction false} AllIsNumbered(files: seq<File>, number: nat, total: nat)
    requires AllWritable(files) && total < 0x1_0000_0000 && number + TotalCount(files) <= total
    requires forall k :: 0 <= k < |files| ==> |files[k].data| < 0x1_0000_0000
    ensures Numbered(AllBlocks(files, number, total), number, total)
    ensures |AllBlocks(files, number, total)| == BLOCK * TotalCount(files)
    decreases |files|
  {
    hide FileBlocks, Numbered, BlockCount, Writable;
    if files != [] {
      var f := files[0];
      FileBlocksCount(f, number, total);
      AllIsNumbered(files[1..], number + BlockCount(f), total);
      FileIsNumbered(f, 0, number, total, AllBlocks(files[1..], number + BlockCount(f), total));
    } else {
      NothingToRead(map[], number, total);
    }
  }

  lemma NumberedHead(image: seq<byte>, number: nat, total: nat)
    requires Numbered(image, number, total) && image != []
    ensures |image| >= BLOCK && Unpack(image, 20) == number && Unpack(image, 24) == total
      && Numbered(image[BLOCK..], number + 1, total)
  {
  }

  lemma UnpackLater(image: seq<byte>, a: nat)
    requires BLOCK + a + 4 <= |image|
    ensures Unpack(image[BLOCK..], a) == Unpack(image, BLOCK + a)
  {
  }

  lemma {:induction false} NumberedAt(image: seq<byte>, number: nat, total: nat, i: nat)
    requires Numbered(image, number, total) && BLOCK * i < |image|
    ensures BLOCK * i + BLOCK <= |image| && Unpack(image, BLOCK * i + 20) == number + i && Unpack(image, BLOCK * i + 24) == total
    decreases i
  {
    hide IsFileBlock, Unpack, Numbered;
    NumberedHead(image, number, total);
    if i > 0 {
      var rest := image[BLOCK..];
      NumberedAt(rest, number + 1, total, i - 1);
      UnpackLater(image, BLOCK * (i - 1) + 20);
      UnpackLater(image, BLOCK * (i - 1) + 24);
    }
  }

  // ---- the writer ----

  /** mkuf2. A file must not be empty, as its payload is divided by. */
  method MkUf2(files: seq<File>) returns (r: Result)
    ensures r.Success? <==> Packable(files)
    ensures r.Success? ==> r.image == AllBlocks(files, 0, TotalCount(files))
    ensures r == Failure(NameTooLong) <==>
      exists k :: 0 <= k < |files| && |files[k].name| > 150 && AllWritable(files[..k])
    ensures r == Failure(DivisionByZero) <==>
      exists k :: 0 <= k < |files| && |files[k].name| <= 150 && files[k].data == [] && AllWritable(files[..k])
    ensures r == Failure(NotAscii) <==>
      AllWritable(files) && exists k :: 0 <= k < |files| && !IsAscii(files[k].name) && PackableUpTo(files, k)
  {
    hide FileBlocks;
    var blocksTotal: nat := 0;
    TotalOfNone(files);
    for i := 0 to |files|
      invariant AllWritable(files[..i]) && blocksTotal == TotalCount(files[..i])
    {
      var size := |files[i].data|;
      if |files[i].name| > 150 {
        FirstBad(files, i);
        return Failure(NameTooLong);
      }
      var payload := 476 - |files[i].name| - 1;
      if payload > size {
        payload := size;
      }
      if payload > 466 {
        payload := 466;
      }
      if payload == 0 {
        FirstBad(files, i);
        return Failure(DivisionByZero);
      }
      TotalGrows(files, i);
      blocksTotal := blocksTotal + (size + payload - 1) / payload;
    }
    assert files[..|files|] == files;
    r := WriteBlocks(files, blocksTotal);
  }

  lemma TotalOfNone(files: seq<File>)
    ensures AllWritable(files[..0]) && TotalCount(files[..0]) == 0
  {
  }

  lemma {:induction false} TotalOfBoth(a: seq<File>, b: seq<File>)
    requires AllWritable(a) && AllWritable(b)
    ensures AllWritable(a + b) && TotalCount(a + b) == TotalCount(a) + TotalCount(b)
  {
    if a == [] {
      assert a + b == b;
    } else {
      assert (a + b)[1..] == a[1..] + b;
      TotalOfBoth(a[1..], b);
    }
  }

  lemma TotalGrows(files: seq<File>, i: nat)
    requires i < |files| && AllWritable(files[..i]) && Writable(files[i])
    ensures AllWritable(files[..i + 1]) && TotalCount(files[..i + 1]) == TotalCount(files[..i]) + BlockCount(files[i])
  {
    assert files[..i + 1] == files[..i] + [files[i]];
    TotalOfBoth(files[..i], [files[i]]);
  }

  /** Only one file can be the first that cannot be written. */
  lemma FirstBad(files: seq<File>, i: nat)
    requires i < |files| && AllWritable(files[..i]) && !Writable(files[i])
    ensures !AllWritable(files)
    ensures forall k :: 0 <= k < |files| && AllWritable(files[..k]) && !Writable(files[k]) ==> k == i
  {
    forall n | 0 <= n <= |files| ensures AllWritable(files[..n]) <==> forall j :: 0 <= j < n ==> Writable(files[j]) {
      PrefixWritable(files, n);
    }
  }

  lemma PrefixWritable(files: seq<File>, n: nat)
    requires n <= |files|
    ensures AllWritable(files[..n]) <==> forall j :: 0 <= j < n ==> Writable(files[j])
  {
    assert forall j :: 0 <= j < n ==> files[..n][j] == files[j];
  }

  /** How the first n files decide on the next one, and on all. */
  lemma PackableSteps(files: seq<File>, n: nat)
    requires AllWritable(files) && n <= |files|
    ensures PackableUpTo(files, 0)
    ensures n < |files| ==> Writable(files[n])
    ensures n < |files| && PackableUpTo(files, n) ==>
      (PackableUpTo(files, n + 1) <==>
        IsAscii(files[n].name) && |files[n].data| < 0x1_0000_0000 && TotalCount(files) < 0x1_0000_0000)
    ensures n < |files| && !PackableUpTo(files, n + 1) ==> forall k :: n < k <= |files| ==> !PackableUpTo(files, k)
    ensures PackableUpTo(files, n) ==> forall k :: 0 <= k < n ==> IsAscii(files[k].name)
  {
    hide IsAscii, Writable, BlockCount;
  }

  /** The second loop of mkuf2: every file read and packed piece by piece. */
  method WriteBlocks(files: seq<File>, blocksTotal: nat) returns (r: Result)
    requires AllWritable(files) && blocksTotal == TotalCount(files)
    ensures r.Success? <==> Packable(files)
    ensures r.Success? ==> r.image == AllBlocks(files, 0, blocksTotal)
    ensures r.Failure? ==> r.error == NotAscii || r.error == StructError
    ensures r == Failure(NotAscii) <==> exists k :: 0 <= k < |files| && !IsAscii(files[k].name) && PackableUpTo(files, k)
  {
    hide FileBlocks, Payload, AllBlocks, BlockCount, IsAscii, PackableUpTo, Writable, TotalCount;
    var blocks: seq<byte> := [];
    var blocksNow: nat := 0;
    AllBlocksOf(files, 0, blocksTotal);
    PackableSteps(files, 0);
    assert files[0..] == files;
    for i := 0 to |files|
      invariant blocksNow + TotalCount(files[i..]) == blocksTotal
      invariant blocks + AllBlocks(files[i..], blocksNow, blocksTotal) == AllBlocks(files, 0, blocksTotal)
      invariant PackableUpTo(files, i)
    {
      AllBlocksOf(files[i..], blocksNow, blocksTotal);
      PackableSteps(files, i);
      assert files[i..][1..] == files[i + 1..] && files[i..][0] == files[i];
      if !IsAscii(files[i].name) {
        return Failure(NotAscii);
      }
      if |files[i].data| >= 0x1_0000_0000 || blocksTotal >= 0x1_0000_0000 {
        return Failure(StructError);
      }
      var more, count := WriteFile(files[i], blocksNow, blocksTotal);
      blocks := blocks + more;
      blocksNow := blocksNow + count;
    }
    AllBlocksOf(files[|files|..], blocksNow, blocksTotal);
    PackableSteps(files, |files|);
    assert blocks + [] == blocks;
    r := Success(blocks);
  }

  lemma AllBlocksOf(files: seq<File>, number: nat, total: nat)
    requires AllWritable(files)
    ensures files == [] ==> AllBlocks(files, number, total) == [] && TotalCount(files) == 0
    ensures files != [] ==> TotalCount(files) == BlockCount(files[0]) + TotalCount(files[1..])
    ensures files != [] ==>
      AllBlocks(files, number, total) ==
        FileBlocks(files[0], 0, number, total) + AllBlocks(files[1..], number + BlockCount(files[0]), total)
  {
    hide FileBlocks, BlockCount;
  }

  /** One file: a block for every piece that can be read. */
  method WriteFile(f: File, blocksNow: nat, blocksTotal: nat) returns (blocks: seq<byte>, count: nat)
    requires Writable(f)
    ensures blocks == FileBlocks(f, 0, blocksNow, blocksTotal) && count == BlockCount(f)
  {
    hide FileBlocks, Payload, MakeBlock, Header, Pack, BlockCount, Piece;
    FileBlocksCount(f, blocksNow, blocksTotal);
    blocks, count := [], 0;
    var sizeNow: nat := 0;
    var buffer := Piece(f, 0);
    while sizeNow < |f.data|
      invariant sizeNow <= |f.data| && (sizeNow < |f.data| ==> buffer == Piece(f, sizeNow))
      invariant blocks + FileBlocks(f, sizeNow, blocksNow + count, blocksTotal) == FileBlocks(f, 0, blocksNow, blocksTotal)
      invariant count + |FileBlocks(f, sizeNow, blocksNow + count, blocksTotal)| / BLOCK == BlockCount(f)
      decreases |f.data| - sizeNow
    {
      FileBlocksFirst(f, sizeNow, blocksNow + count, blocksTotal);
      var block := Header(sizeNow, |buffer|, blocksNow + count, blocksTotal, |f.data|) + buffer + f.name;
      PaddedBlock(f, sizeNow, blocksNow + count, blocksTotal);
      block := block + Zeros(508 - |block|) + Pack(MAGIC_END);
      blocks := blocks + block;
      count := count + 1;
      sizeNow := sizeNow + |buffer|;
      if sizeNow < |f.data| {
        buffer := Piece(f, sizeNow);
      }
    }
    FileBlocksEnd(f, blocksNow + count, blocksTotal);
    assert blocks + [] == blocks;
  }

  lemma PaddedBlock(f: File, at: nat, number: nat, total: nat)
    requires Writable(f) && at < |f.data|
    ensures var block := Header(at, |Piece(f, at)|, number, total, |f.data|) + Piece(f, at) + f.name;
      |block| <= 507 && MakeBlock(f, at, number, total) == block + Zeros(508 - |block|) + Pack(MAGIC_END)
  {
    hide Pack, Header;
    PayloadIsPositive(f);
  }
}

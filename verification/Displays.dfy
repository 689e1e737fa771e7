/** Drawing into the display buffer, where a byte holds eight pixels one above the other. */
module Displays {
  import opened Words

  const DISPLAY_WIDTH := 100
  const DISPLAY_HEIGHT := 64
  /** The eight rows of bytes of the screen, and as many bytes of memory behind it as make another row */
  const SIZE := 900
  const MEMORY_HEIGHT := 72

  datatype PixelMode = Set | Clear | Invert

  // ---- bits ----

  /** 1 << k */
  function Bit(k: nat): bv8
    requires k < 8
  {
    match k
    case 0 => 0x01
    case 1 => 0x02
    case 2 => 0x04
    case 3 => 0x08
    case 4 => 0x10
    case 5 => 0x20
    case 6 => 0x40
    case _ => 0x80
  }

  predicate Shares(b: bv8, c: bv8) {
    b & c != 0
  }

  predicate Has(b: bv8, k: nat)
    requires k < 8
  {
    Shares(b, Bit(k))
  }

  /** The table Masks: the k lowest bits. */
  function Mask(k: nat): bv8
    requires k <= 8
  {
    match k
    case 0 => 0x00
    case 1 => 0x01
    case 2 => 0x03
    case 3 => 0x07
    case 4 => 0x0f
    case 5 => 0x1f
    case 6 => 0x3f
    case 7 => 0x7f
    case _ => 0xff
  }

  function Applied(mode: PixelMode, b: bv8, m: bv8): bv8 {
    match mode
    case Invert => b ^ m
    case Clear => b & !m
    case Set => b | m
  }

  function PixelAfter(mode: PixelMode, on: bool): bool {
    match mode
    case Invert => !on
    case Clear => false
    case Set => true
  }

  predicate OneBit(c: bv8) {
    c == 0x01 || c == 0x02 || c == 0x04 || c == 0x08 || c == 0x10 || c == 0x20 || c == 0x40 || c == 0x80
  }

  lemma BitIsOne(k: nat)
    requires k < 8
    ensures OneBit(Bit(k))
  {
  }

  lemma BitsOfOr(b: bv8, m: bv8, c: bv8)
    ensures (b | m) & c != 0 <==> b & c != 0 || m & c != 0
  {
  }

  lemma BitsOfAndNot(b: bv8, m: bv8, c: bv8)
    requires OneBit(c)
    ensures (b & !m) & c != 0 <==> b & c != 0 && m & c == 0
  {
  }

  lemma BitsOfXor(b: bv8, m: bv8, c: bv8)
    requires OneBit(c)
    ensures (b ^ m) & c != 0 <==> (b & c != 0) != (m & c != 0)
  {
  }

  lemma SetBit(b: bv8, m: bv8, c: bv8)
    requires OneBit(c)
    ensures Shares(Applied(Set, b, m), c) <==> Shares(b, c) || Shares(m, c)
  {
    hide OneBit;
    BitsOfOr(b, m, c);
  }

  lemma ClearBit(b: bv8, m: bv8, c: bv8)
    requires OneBit(c)
    ensures Shares(Applied(Clear, b, m), c) <==> Shares(b, c) && !Shares(m, c)
  {
    hide OneBit;
    BitsOfAndNot(b, m, c);
  }

  lemma InvertBit(b: bv8, m: bv8, c: bv8)
    requires OneBit(c)
    ensures Shares(Applied(Invert, b, m), c) <==> Shares(b, c) != Shares(m, c)
  {
    hide OneBit;
    BitsOfXor(b, m, c);
  }

  /** A mask changes exactly the pixels of its bits. */
  lemma MaskIsPixels(mode: PixelMode, b: bv8, m: bv8, k: nat)
    requires k < 8
    ensures Has(Applied(mode, b, m), k) <==> if Has(m, k) then PixelAfter(mode, Has(b, k)) else Has(b, k)
  {
    hide Bit, OneBit, Shares, Applied;
    BitIsOne(k);
    match mode
    case Set => SetBit(b, m, Bit(k));
    case Clear => ClearBit(b, m, Bit(k));
    case Invert => InvertBit(b, m, Bit(k));
  }

  lemma BitBits(j: nat, k: nat)
    requires j < 8 && k < 8
    ensures Has(Bit(j), k) <==> j == k
  {
  }

  lemma MaskBits(j: nat, k: nat)
    requires j <= 8 && k < 8
    ensures Has(Mask(j), k) <==> k < j
    ensures Has(!Mask(j), k) <==> k >= j
  {
  }

  lemma SameBits(a: bv8, b: bv8)
    requires forall k :: 0 <= k < 8 ==> (Has(a, k) <==> Has(b, k))
    ensures a == b
  {
    assert forall k :: 0 <= k < 8 ==> (Has(a, k) <==> Has(b, k));
    assert Has(a, 0) <==> Has(b, 0);
    assert Has(a, 1) <==> Has(b, 1);
    assert Has(a, 2) <==> Has(b, 2);
    assert Has(a, 3) <==> Has(b, 3);
    assert Has(a, 4) <==> Has(b, 4);
    assert Has(a, 5) <==> Has(b, 5);
    assert Has(a, 6) <==> Has(b, 6);
    assert Has(a, 7) <==> Has(b, 7);
  }

  // ---- pixels ----

  type Buffer = d: seq<bv8> | |d| == SIZE witness seq(SIZE, _ => 0)

  predicate OnScreen(x: int, y: int) {
    0 <= x < DISPLAY_WIDTH && 0 <= y < DISPLAY_HEIGHT
  }

  predicate InMemory(x: int, y: int) {
    0 <= x < DISPLAY_WIDTH && 0 <= y < MEMORY_HEIGHT
  }

  function At(x: nat, y: nat): nat {
    y / 8 * DISPLAY_WIDTH + x
  }

  predicate Pixel(d: Buffer, x: int, y: int)
    requires InMemory(x, y)
  {
    Has(d[At(x, y)], y % 8)
  }

  /** A rectangle of pixels, or in columns x1 to x2 the pixels of one row of bytes whose bits are in mask. */
  datatype Shape = Rect(x1: int, x2: int, y1: int, y2: int) | Band(x1: int, x2: int, row: int, mask: bv8) {
    predicate Contains(x: int, y: int) {
      match this
      case Rect(x1, x2, y1, y2) => x1 <= x <= x2 && y1 <= y <= y2
      case Band(x1, x2, row, mask) => x1 <= x <= x2 && y / 8 == row && Has(mask, y % 8)
    }
  }

  /** e is d with exactly the pixels of the shape drawn. */
  ghost predicate Drawn(d: Buffer, e: Buffer, mode: PixelMode, shape: Shape) {
    forall x, y :: InMemory(x, y) ==>
      (Pixel(e, x, y) <==> if shape.Contains(x, y) then PixelAfter(mode, Pixel(d, x, y)) else Pixel(d, x, y))
  }

  lemma SamePixels(d: Buffer, e: Buffer)
    requires forall x, y :: InMemory(x, y) ==> (Pixel(d, x, y) <==> Pixel(e, x, y))
    ensures d == e
  {
    forall a | 0 <= a < SIZE ensures d[a] == e[a] {
      forall k | 0 <= k < 8 ensures Has(d[a], k) <==> Has(e[a], k) {
        var x, y := a % DISPLAY_WIDTH, a / DISPLAY_WIDTH * 8 + k;
        assert InMemory(x, y) && At(x, y) == a && y % 8 == k;
        assert Pixel(d, x, y) <==> Pixel(e, x, y);
      }
      SameBits(d[a], e[a]);
    }
  }

  /** Drawing leaves no choice. */
  lemma DrawnIsUnique(d: Buffer, e: Buffer, f: Buffer, mode: PixelMode, shape: Shape)
    requires Drawn(d, e, mode, shape) && Drawn(d, f, mode, shape)
    ensures e == f
  {
    hide Pixel;
    SamePixels(e, f);
  }

  /** Inverting the same pixels twice restores the buffer. */
  lemma InvertTwice(d: Buffer, e: Buffer, f: Buffer, shape: Shape)
    requires Drawn(d, e, Invert, shape) && Drawn(e, f, Invert, shape)
    ensures f == d
  {
    hide Pixel;
    SamePixels(d, f);
  }

  ghost predicate Joins(a: Shape, b: Shape, c: Shape) {
    forall x, y :: InMemory(x, y) ==> (c.Contains(x, y) <==> a.Contains(x, y) || b.Contains(x, y))
  }

  ghost predicate Meet(a: Shape, b: Shape) {
    exists x, y :: InMemory(x, y) && a.Contains(x, y) && b.Contains(x, y)
  }

  lemma DrawnBoth(d: Buffer, e: Buffer, f: Buffer, mode: PixelMode, a: Shape, b: Shape, c: Shape)
    requires Drawn(d, e, mode, a) && Drawn(e, f, mode, b) && Joins(a, b, c) && (mode.Invert? ==> !Meet(a, b))
    ensures Drawn(d, f, mode, c)
  {
    hide Pixel;
  }

  lemma DrawnNothing(d: Buffer, mode: PixelMode, shape: Shape)
    requires forall x, y :: InMemory(x, y) ==> !shape.Contains(x, y)
    ensures Drawn(d, d, mode, shape)
  {
  }

  lemma DrawnSame(d: Buffer, e: Buffer, mode: PixelMode, a: Shape, b: Shape)
    requires Drawn(d, e, mode, a) && forall x, y :: InMemory(x, y) ==> (a.Contains(x, y) <==> b.Contains(x, y))
    ensures Drawn(d, e, mode, b)
  {
    hide Pixel;
  }

  /** Writing one byte through a mask. */
  lemma ByteDrawn(d: Buffer, mode: PixelMode, x: nat, row: nat, m: bv8)
    requires x < DISPLAY_WIDTH && row < 9
    ensures row * DISPLAY_WIDTH + x < SIZE
    ensures var a := row * DISPLAY_WIDTH + x; Drawn(d, d[a := Applied(mode, d[a], m)], mode, Band(x, x, row, m))
  {
    hide Has, Applied;
    var a := row * DISPLAY_WIDTH + x;
    var e := d[a := Applied(mode, d[a], m)];
    forall u, v | InMemory(u, v)
      ensures Pixel(e, u, v) <==> if Band(x, x, row, m).Contains(u, v) then PixelAfter(mode, Pixel(d, u, v)) else Pixel(d, u, v)
    {
      MaskIsPixels(mode, d[a], m, v % 8);
      assert At(u, v) == a <==> u == x && v / 8 == row;
    }
  }

  // ---- drawing pixel by pixel ----

  function Min(a: int, b: int): int { if a < b then a else b }
  function Max(a: int, b: int): int { if a < b then b else a }

  /** One pixel, if it is within the first lines of memory; with DISPLAY_HEIGHT lines as the pixel functions draw it. */
  function DrawPixel(d: Buffer, mode: PixelMode, x: int, y: int, lines: nat): Buffer
    requires lines <= MEMORY_HEIGHT
  {
    if InMemory(x, y) && y < lines then d[At(x, y) := Applied(mode, d[At(x, y)], Bit(y % 8))] else d
  }

  function DrawRow(d: Buffer, mode: PixelMode, x1: int, x2: int, y: int, lines: nat): Buffer
    requires lines <= MEMORY_HEIGHT
    decreases x2 - x1
  {
    if x1 > x2 then d else DrawRow(DrawPixel(d, mode, x1, y, lines), mode, x1 + 1, x2, y, lines)
  }

  /** Every pixel of the rectangle drawn once, on its own. */
  function DrawRect(d: Buffer, mode: PixelMode, x1: int, x2: int, y1: int, y2: int, lines: nat): Buffer
    requires lines <= MEMORY_HEIGHT
    decreases y2 - y1
  {
    if y1 > y2 then d else DrawRect(DrawRow(d, mode, x1, x2, y1, lines), mode, x1, x2, y1 + 1, y2, lines)
  }

  lemma DrawPixelDraws(d: Buffer, mode: PixelMode, x: int, y: int, lines: nat)
    requires lines <= MEMORY_HEIGHT
    ensures Drawn(d, DrawPixel(d, mode, x, y, lines), mode, Rect(x, x, y, Min(y, lines - 1)))
  {
    if InMemory(x, y) && y < lines {
      ByteDrawn(d, mode, x, y / 8, Bit(y % 8));
      forall u, v | InMemory(u, v) ensures Band(x, x, y / 8, Bit(y % 8)).Contains(u, v) <==> Rect(x, x, y, y).Contains(u, v) {
        BitBits(y % 8, v % 8);
      }
      DrawnSame(d, DrawPixel(d, mode, x, y, lines), mode, Band(x, x, y / 8, Bit(y % 8)), Rect(x, x, y, y));
    }
  }

  lemma {:induction false} DrawRowDraws(d: Buffer, mode: PixelMode, x1: int, x2: int, y: int, lines: nat)
    requires lines <= MEMORY_HEIGHT
    ensures Drawn(d, DrawRow(d, mode, x1, x2, y, lines), mode, Rect(x1, x2, y, Min(y, lines - 1)))
    decreases x2 - x1
  {
    hide Drawn, DrawPixel;
    if x1 > x2 {
      DrawnNothing(d, mode, Rect(x1, x2, y, Min(y, lines - 1)));
    } else {
      var e, y' := DrawPixel(d, mode, x1, y, lines), Min(y, lines - 1);
      DrawPixelDraws(d, mode, x1, y, lines);
      DrawRowDraws(e, mode, x1 + 1, x2, y, lines);
      DrawnBoth(d, e, DrawRow(d, mode, x1, x2, y, lines), mode,
                Rect(x1, x1, y, y'), Rect(x1 + 1, x2, y, y'), Rect(x1, x2, y, y'));
    }
  }

  lemma {:induction false} DrawRectDraws(d: Buffer, mode: PixelMode, x1: int, x2: int, y1: int, y2: int, lines: nat)
    requires lines <= MEMORY_HEIGHT
    ensures Drawn(d, DrawRect(d, mode, x1, x2, y1, y2, lines), mode, Rect(x1, x2, y1, Min(y2, lines - 1)))
    decreases y2 - y1
  {
    hide Drawn, DrawRow;
    if y1 > y2 {
      DrawnNothing(d, mode, Rect(x1, x2, y1, Min(y2, lines - 1)));
    } else {
      var e, y' := DrawRow(d, mode, x1, x2, y1, lines), Min(y2, lines - 1);
      DrawRowDraws(d, mode, x1, x2, y1, lines);
      DrawRectDraws(e, mode, x1, x2, y1 + 1, y2, lines);
      DrawnBoth(d, e, DrawRect(d, mode, x1, x2, y1, y2, lines), mode,
                Rect(x1, x2, y1, Min(y1, lines - 1)), Rect(x1, x2, y1 + 1, y'), Rect(x1, x2, y1, y'));
    }
  }

  // ---- drawing by masks ----

  /** The part of a row of bytes at y that lies from y1 on. */
  function LowerMask(y: nat, y1: nat): bv8 {
    if y < y1 then 0xff & !Mask(y1 % 8) else 0xff
  }

  /** The mask that cDisplayLineY and cDisplayFillScreen compute for the row of bytes at y. */
  function RowMask(y: nat, y1: nat, y2: nat): bv8
    requires y <= y2
  {
    if y2 - y < 8 then LowerMask(y, y1) & Mask(y2 % 8 + 1) else LowerMask(y, y1)
  }

  lemma LowerMaskBits(y: nat, y1: nat, k: nat)
    requires y % 8 == 0 && y1 < y + 8 && k < 8
    ensures Has(LowerMask(y, y1), k) <==> y1 <= y + k
  {
    hide Has, Mask;
    FullBits(k);
    if y < y1 {
      MaskBits(y1 % 8, k);
      BothBits(0xff, !Mask(y1 % 8), k);
    }
  }

  /** Its bits are the pixels between y1 and y2. */
  lemma RowMaskBits(y: nat, y1: nat, y2: nat, k: nat)
    requires y % 8 == 0 && y1 < y + 8 && y <= y2 && k < 8
    ensures Has(RowMask(y, y1, y2), k) <==> y1 <= y + k <= y2
  {
    hide Has, Mask, LowerMask;
    LowerMaskBits(y, y1, k);
    if y2 - y < 8 {
      MaskBits(y2 % 8 + 1, k);
      BothBits(LowerMask(y, y1), Mask(y2 % 8 + 1), k);
    }
  }

  lemma FullBits(k: nat)
    requires k < 8
    ensures Has(0xff, k)
  {
    MaskBits(8, k);
  }

  lemma BothBits(a: bv8, b: bv8, k: nat)
    requires k < 8
    ensures Has(a & b, k) <==> Has(a, k) && Has(b, k)
  {
    hide Bit, OneBit;
    BitIsOne(k);
    BitsOfAnd(a, b, Bit(k));
  }

  lemma BitsOfAnd(a: bv8, b: bv8, c: bv8)
    requires OneBit(c)
    ensures Shares(a & b, c) <==> Shares(a, c) && Shares(b, c)
  {
  }

  // ---- what the three ways of drawing come to ----

  /** The C cast to UBYTE */
  function ToByte(x: int): byte {
    x % 0x100
  }

  /** cDisplayLineX lets line 64 pass, which is behind the screen. */
  function RowLine(d: Buffer, mode: PixelMode, x1: int, x2: int, y: int): Buffer {
    DrawRect(d, mode, Min(x1, x2), Max(x1, x2), y, y, DISPLAY_HEIGHT + 1)
  }

  /** cDisplayLineY lets column 100 pass, which is column 0 eight lines further down. */
  function ColumnLine(d: Buffer, mode: PixelMode, x: int, y1: int, y2: int): Buffer {
    if x == DISPLAY_WIDTH then DrawRect(d, mode, 0, 0, Min(y1, y2) + 8, Min(Max(y1, y2), DISPLAY_HEIGHT - 1) + 8, MEMORY_HEIGHT)
    else DrawRect(d, mode, x, x, Min(y1, y2), Max(y1, y2), DISPLAY_HEIGHT)
  }

  /** A horizontal line is drawn as its pixels are exactly if it is not line 64, or line 64 is so already. */
  lemma RowLineExactly(d: Buffer, mode: PixelMode, x1: int, x2: int, y: int)
    ensures RowLine(d, mode, x1, x2, y) == DrawRect(d, mode, Min(x1, x2), Max(x1, x2), y, y, DISPLAY_HEIGHT) <==>
      y != DISPLAY_HEIGHT || AsDrawn(d, mode, Rect(Min(x1, x2), Max(x1, x2), DISPLAY_HEIGHT, DISPLAY_HEIGHT))
  {
    hide Drawn, DrawRect, Has;
    var left, right := Min(x1, x2), Max(x1, x2);
    var e, f := RowLine(d, mode, x1, x2, y), DrawRect(d, mode, left, right, y, y, DISPLAY_HEIGHT);
    DrawRectDraws(d, mode, left, right, y, y, DISPLAY_HEIGHT + 1);
    DrawRectDraws(d, mode, left, right, y, y, DISPLAY_HEIGHT);
    if y == DISPLAY_HEIGHT {
      DrawnNothing(d, mode, Rect(left, right, y, y - 1));
      DrawnIsUnique(d, d, f, mode, Rect(left, right, y, y - 1));
      DrawnToNothing(d, e, mode, Rect(left, right, y, y));
    } else {
      DrawnSame(d, f, mode, Rect(left, right, y, Min(y, DISPLAY_HEIGHT - 1)), Rect(left, right, y, Min(y, DISPLAY_HEIGHT)));
      DrawnIsUnique(d, e, f, mode, Rect(left, right, y, Min(y, DISPLAY_HEIGHT)));
    }
  }

  /** A vertical line is drawn as its pixels are exactly if it is not in column 100, or what it draws in column 0 is
      so already. */
  lemma ColumnLineExactly(d: Buffer, mode: PixelMode, x: int, y1: int, y2: int)
    ensures ColumnLine(d, mode, x, y1, y2) == DrawRect(d, mode, x, x, Min(y1, y2), Max(y1, y2), DISPLAY_HEIGHT) <==>
      x != DISPLAY_WIDTH || AsDrawn(d, mode, Rect(0, 0, Min(y1, y2) + 8, Min(Max(y1, y2), DISPLAY_HEIGHT - 1) + 8))
  {
    hide Drawn, DrawRect, Has;
    if x == DISPLAY_WIDTH {
      var top, bottom := Min(y1, y2) + 8, Min(Max(y1, y2), DISPLAY_HEIGHT - 1) + 8;
      Clipped(d, mode, x, x, Min(y1, y2), Max(y1, y2));
      DrawRectDraws(d, mode, 0, 0, top, bottom, MEMORY_HEIGHT);
      DrawnSame(d, ColumnLine(d, mode, x, y1, y2), mode, Rect(0, 0, top, Min(bottom, MEMORY_HEIGHT - 1)),
        Rect(0, 0, top, bottom));
      DrawnToNothing(d, ColumnLine(d, mode, x, y1, y2), mode, Rect(0, 0, top, bottom));
    }
  }

  /** The pixels of the shape are as drawing would leave them. */
  ghost predicate AsDrawn(d: Buffer, mode: PixelMode, shape: Shape) {
    forall x, y :: InMemory(x, y) && shape.Contains(x, y) ==> (Pixel(d, x, y) <==> PixelAfter(mode, Pixel(d, x, y)))
  }

  lemma DrawnToNothing(d: Buffer, e: Buffer, mode: PixelMode, shape: Shape)
    requires Drawn(d, e, mode, shape)
    ensures e == d <==> AsDrawn(d, mode, shape)
  {
    hide Has;
    if AsDrawn(d, mode, shape) {
      SamePixels(d, e);
    }
  }

  /** On a blank memory, line 64 sets the pixels behind the screen, and column 100 those of column 0 from line 8 on. */
  lemma LinesBeside(d: Buffer)
    requires d == seq(SIZE, _ => 0)
    ensures Pixel(RowLine(d, Set, 0, 99, DISPLAY_HEIGHT), 0, DISPLAY_HEIGHT) && !Pixel(d, 0, DISPLAY_HEIGHT)
    ensures Pixel(ColumnLine(d, Set, DISPLAY_WIDTH, 0, 63), 0, 8) && !Pixel(d, 0, 8)
  {
    hide DrawRect, Has;
    DrawRectDraws(d, Set, 0, 99, DISPLAY_HEIGHT, DISPLAY_HEIGHT, DISPLAY_HEIGHT + 1);
    DrawRectDraws(d, Set, 0, 0, 8, 71, MEMORY_HEIGHT);
    BlankHas(d, 0, DISPLAY_HEIGHT);
    BlankHas(d, 0, 8);
  }

  lemma BlankHas(d: Buffer, x: int, y: int)
    requires InMemory(x, y) && d == seq(SIZE, _ => 0)
    ensures !Pixel(d, x, y)
  {
    BlankBit(y % 8);
  }

  lemma BlankBit(k: nat)
    requires k < 8
    ensures !Has(0, k)
  {
    MaskBits(0, k);
  }

  class Screen {
    const display: array<bv8>

    constructor ()
      ensures Valid() && fresh(display)
    {
      display := new bv8[SIZE](_ => 0);
    }

    predicate Valid() {
      display.Length == SIZE
    }

    /** cDisplaySetPixel, cDisplayClrPixel and cDisplayXorPixel. */
    method Pixel(mode: PixelMode, x: byte, y: byte)
      requires Valid()
      modifies display
      ensures display[..] == DrawPixel(old(display[..]), mode, x, y, DISPLAY_HEIGHT)
    {
      if x < DISPLAY_WIDTH && y < DISPLAY_HEIGHT {
        DrawByte(mode, y / 8 * DISPLAY_WIDTH + x, Bit(y % 8));
      }
    }

    /** One byte drawn through a mask, as the three ways of drawing do. */
    method DrawByte(mode: PixelMode, a: nat, m: bv8)
      requires Valid() && a < SIZE
      modifies display
      ensures display[..] == old(display[..])[a := Applied(mode, old(display[a]), m)]
    {
      match mode {
        case Invert => display[a] := display[a] ^ m;
        case Clear => display[a] := display[a] & !m;
        case Set => display[a] := display[a] | m;
      }
    }

    /** The loops over X: the bytes x1 to x2 of a row drawn through one mask. These are bytes u1 to u2 of row v of
        the memory. */
    method DrawBand(mode: PixelMode, x1: byte, x2: int, row: nat, m: bv8, ghost u1: int, ghost u2: int, ghost v: nat)
      requires Valid() && row < 9 && v < 9 && 0 <= u1 && u2 < DISPLAY_WIDTH && u2 - u1 == x2 - x1
      requires row * DISPLAY_WIDTH + x1 == v * DISPLAY_WIDTH + u1
      modifies display
      ensures Drawn(old(display[..]), display[..], mode, Band(u1, u2, v, m))
    {
      hide Drawn, Applied;
      ghost var d := display[..];
      var x: int := x1;
      ghost var u := u1;
      NoBand(d, mode, u1, Min(u - 1, u2), v, m);
      while x <= x2
        invariant x1 <= x && u - u1 == x - x1
        invariant Drawn(d, display[..], mode, Band(u1, Min(u - 1, u2), v, m))
      {
        ghost var e := display[..];
        ByteDrawn(e, mode, u, v, m);
        DrawByte(mode, row * DISPLAY_WIDTH + x, m);
        DrawnBoth(d, e, display[..], mode, Band(u1, u - 1, v, m), Band(u, u, v, m), Band(u1, u, v, m));
        x := x + 1;
        u := u + 1;
      }
    }

    /** cDisplayLineX */
    method LineX(x1: byte, x2: byte, y: byte, mode: PixelMode)
      requires Valid()
      modifies display
      ensures display[..] == RowLine(old(display[..]), mode, x1, x2, y)
    {
      hide Drawn, DrawRect, Has;
      ghost var d := display[..];
      ghost var all := Rect(Min(x1, x2), Max(x1, x2), y, Min(y, DISPLAY_HEIGHT));
      DrawRectDraws(d, mode, all.x1, all.x2, y, y, DISPLAY_HEIGHT + 1);
      if y > DISPLAY_HEIGHT {
        DrawnNothing(d, mode, all);
        DrawnIsUnique(d, d, RowLine(d, mode, x1, x2, y), mode, all);
        return;
      }
      var left, right := x1, x2;
      if left > right {
        left, right := right, left;
      }
      if right > DISPLAY_WIDTH - 1 {
        right := DISPLAY_WIDTH - 1;
      }
      var m := Bit(y % 8);
      DrawBand(mode, left, right, y / 8, m, left, right, y / 8);
      forall u, v | InMemory(u, v) ensures Band(left, right, y / 8, m).Contains(u, v) <==> all.Contains(u, v) {
        BitBits(y % 8, v % 8);
      }
      DrawnSame(d, display[..], mode, Band(left, right, y / 8, m), all);
      DrawnIsUnique(d, display[..], RowLine(d, mode, x1, x2, y), mode, all);
    }

    /** The loop over the rows of bytes that cDisplayLineY and cDisplayFillScreen share. Byte 100 of a row is byte 0
        of the next. */
    method DrawRows(mode: PixelMode, x1: byte, x2: int, y1: byte, y2: int)
      requires Valid() && (x2 < DISPLAY_WIDTH || x1 == x2 == DISPLAY_WIDTH) && -1 <= y2 < DISPLAY_HEIGHT
      modifies display
      ensures display[..] ==
        if x2 < DISPLAY_WIDTH then DrawRect(old(display[..]), mode, x1, x2, y1, y2, DISPLAY_HEIGHT)
        else DrawRect(old(display[..]), mode, 0, 0, y1 + 8, y2 + 8, MEMORY_HEIGHT)
    {
      hide Drawn, DrawRect, RowMask, Has, Joins, Meet;
      ghost var d := display[..];
      ghost var left, down, lines := if x2 < DISPLAY_WIDTH then 0 else DISPLAY_WIDTH, if x2 < DISPLAY_WIDTH then 0 else 8,
        if x2 < DISPLAY_WIDTH then DISPLAY_HEIGHT else MEMORY_HEIGHT;
      ghost var u1, u2, v1, v2 := x1 - left, x2 - left, y1 + down, y2 + down;
      var y: nat := y1 / 8 * 8;
      DrawnNothing(d, mode, Rect(u1, u2, v1, Min(y - 1, y2) + down));
      while y <= y2
        invariant y % 8 == 0 && y1 < y + 8
        invariant Drawn(d, display[..], mode, Rect(u1, u2, v1, Min(y - 1, y2) + down))
      {
        ghost var e := display[..];
        var m := RowMask(y, y1, y2);
        DrawBand(mode, x1, x2, y / 8, m, u1, u2, (y + down) / 8);
        NextBand(y, y1, y2, down, u1, u2);
        DrawnBoth(d, e, display[..], mode, Rect(u1, u2, v1, Min(y - 1, y2) + down), Band(u1, u2, (y + down) / 8, m),
          Rect(u1, u2, v1, Min(y + 7, y2) + down));
        y := y + 8;
      }
      DrawRectDraws(d, mode, u1, u2, v1, v2, lines);
      DrawnIsUnique(d, display[..], DrawRect(d, mode, u1, u2, v1, v2, lines), mode, Rect(u1, u2, v1, v2));
    }

    /** cDisplayLineY */
    method LineY(x: byte, y1: byte, y2: byte, mode: PixelMode)
      requires Valid()
      modifies display
      ensures display[..] == ColumnLine(old(display[..]), mode, x, y1, y2)
    {
      hide Drawn, DrawRect;
      Clipped(display[..], mode, x, x, Min(y1, y2), Max(y1, y2));
      if x > DISPLAY_WIDTH {
        return;
      }
      var top, bottom := y1, y2;
      if top > bottom {
        top, bottom := bottom, top;
      }
      if bottom > DISPLAY_HEIGHT - 1 {
        bottom := DISPLAY_HEIGHT - 1;
      }
      DrawRows(mode, x, x, top, bottom);
    }

    /** cDisplayFillScreen; the far corner is computed in a UBYTE. */
    method FillScreen(startX: byte, startY: byte, pixelsX: byte, pixelsY: byte, mode: PixelMode)
      requires Valid()
      modifies display
      ensures display[..] ==
        DrawRect(old(display[..]), mode, startX, ToByte(startX + pixelsX - 1), startY, ToByte(startY + pixelsY - 1),
          DISPLAY_HEIGHT)
    {
      hide Drawn, DrawRect;
      Clipped(display[..], mode, startX, ToByte(startX + pixelsX - 1), startY, ToByte(startY + pixelsY - 1));
      var x2, y2 := ToByte(startX + pixelsX - 1), ToByte(startY + pixelsY - 1);
      if x2 > DISPLAY_WIDTH - 1 {
        x2 := DISPLAY_WIDTH - 1;
      }
      if y2 > DISPLAY_HEIGHT - 1 {
        y2 := DISPLAY_HEIGHT - 1;
      }
      DrawRows(mode, startX, x2, startY, y2);
    }

    /** cDisplayFrame: the upper side first, the two columns below its ends after it, and no lower side. */
    method Frame(startX: byte, startY: byte, pixelsX: byte, pixelsY: byte, mode: PixelMode)
      requires Valid()
      modifies display
      ensures display[..] == FrameLines(old(display[..]), mode, startX, startY, pixelsX, pixelsY)
    {
      hide Drawn, DrawRect, RowLine, ColumnLine;
      LineX(startX, ToByte(startX + pixelsX - 1), startY, mode);
      if pixelsY > 1 {
        LineY(startX, ToByte(startY + 1), ToByte(startY + pixelsY - 1), mode);
        LineY(ToByte(startX + pixelsX - 1), ToByte(startY + 1), ToByte(startY + pixelsY - 1), mode);
      }
    }
  }

  /** The mask of a row of bytes, down lines further down. */
  lemma RowBand(y: nat, y1: nat, y2: nat, down: nat, u1: int, u2: int)
    requires y % 8 == 0 && y1 < y + 8 && y <= y2 && down % 8 == 0
    ensures forall u, v :: InMemory(u, v) ==>
      (Band(u1, u2, (y + down) / 8, RowMask(y, y1, y2)).Contains(u, v) <==>
       u1 <= u <= u2 && y + down <= v < y + down + 8 && y1 + down <= v <= y2 + down)
  {
    hide RowMask, Has;
    forall u, v | InMemory(u, v)
      ensures Band(u1, u2, (y + down) / 8, RowMask(y, y1, y2)).Contains(u, v) <==>
        u1 <= u <= u2 && y + down <= v < y + down + 8 && y1 + down <= v <= y2 + down
    {
      if v / 8 == (y + down) / 8 {
        RowMaskBits(y, y1, y2, v % 8);
      }
    }
  }

  /** A row of bytes adds its lines to those above. */
  lemma NextBand(y: nat, y1: nat, y2: nat, down: nat, u1: int, u2: int)
    requires y % 8 == 0 && y1 < y + 8 && y <= y2 && down % 8 == 0
    ensures var above, band := Rect(u1, u2, y1 + down, Min(y - 1, y2) + down),
        Band(u1, u2, (y + down) / 8, RowMask(y, y1, y2));
      Joins(above, band, Rect(u1, u2, y1 + down, Min(y + 7, y2) + down)) && !Meet(above, band)
  {
    hide RowMask, Has;
    RowBand(y, y1, y2, down, u1, u2);
  }

  /** The pixels of a rectangle that are on the screen are set, cleared or turned over, and all others stay. */
  lemma RectPixels(d: Buffer, x1: int, x2: int, y1: int, y2: int, x: int, y: int)
    requires InMemory(x, y)
    ensures var inside := x1 <= x <= x2 && y1 <= y <= y2 && y < 64;
      && (Pixel(DrawRect(d, Set, x1, x2, y1, y2, 64), x, y) <==> inside || Pixel(d, x, y))
      && (Pixel(DrawRect(d, Clear, x1, x2, y1, y2, 64), x, y) <==> !inside && Pixel(d, x, y))
      && (Pixel(DrawRect(d, Invert, x1, x2, y1, y2, 64), x, y) <==> (inside <==> !Pixel(d, x, y)))
  {
    hide DrawRect, Has;
    DrawRectDraws(d, Set, x1, x2, y1, y2, 64);
    DrawRectDraws(d, Clear, x1, x2, y1, y2, 64);
    DrawRectDraws(d, Invert, x1, x2, y1, y2, 64);
  }

  /** Pixels off the screen make no difference. */
  lemma Clipped(d: Buffer, mode: PixelMode, x1: int, x2: int, y1: int, y2: int)
    ensures DrawRect(d, mode, x1, x2, y1, y2, DISPLAY_HEIGHT) ==
      DrawRect(d, mode, x1, Min(x2, DISPLAY_WIDTH - 1), y1, Min(y2, DISPLAY_HEIGHT - 1), DISPLAY_HEIGHT)
    ensures x1 >= DISPLAY_WIDTH ==> DrawRect(d, mode, x1, x2, y1, y2, DISPLAY_HEIGHT) == d
  {
    hide Drawn, DrawRect;
    var cx, cy := Min(x2, DISPLAY_WIDTH - 1), Min(y2, DISPLAY_HEIGHT - 1);
    var e, f := DrawRect(d, mode, x1, cx, y1, cy, DISPLAY_HEIGHT), DrawRect(d, mode, x1, x2, y1, y2, DISPLAY_HEIGHT);
    DrawRectDraws(d, mode, x1, x2, y1, y2, DISPLAY_HEIGHT);
    DrawRectDraws(d, mode, x1, cx, y1, cy, DISPLAY_HEIGHT);
    DrawnSame(d, e, mode, Rect(x1, cx, y1, cy), Rect(x1, x2, y1, cy));
    DrawnIsUnique(d, e, f, mode, Rect(x1, x2, y1, cy));
    if x1 >= DISPLAY_WIDTH {
      DrawnNothing(d, mode, Rect(x1, x2, y1, cy));
      DrawnIsUnique(d, d, f, mode, Rect(x1, x2, y1, cy));
    }
  }

  // ---- frames ----

  /** The three lines of a frame, with the corners as the program computes them */
  function FrameLines(d: Buffer, mode: PixelMode, startX: byte, startY: byte, pixelsX: byte, pixelsY: byte): Buffer {
    var x2, y1, y2 := ToByte(startX + pixelsX - 1), ToByte(startY + 1), ToByte(startY + pixelsY - 1);
    var top := RowLine(d, mode, startX, x2, startY);
    if pixelsY > 1 then ColumnLine(ColumnLine(top, mode, startX, y1, y2), mode, x2, y1, y2) else top
  }

  /** A frame pixel by pixel, column after column. */
  function DrawFrame(d: Buffer, mode: PixelMode, x1: int, x2: int, y1: int, y2: int): Buffer {
    var top := DrawRect(d, mode, x1, x2, y1, y1, DISPLAY_HEIGHT);
    if y2 > y1 then
      DrawRect(DrawRect(top, mode, x1, x1, y1 + 1, y2, DISPLAY_HEIGHT), mode, x2, x2, y1 + 1, y2, DISPLAY_HEIGHT)
    else top
  }

  /** Frames whose corners fit a UBYTE and that do not lie along line 64 or column 100 are drawn pixel by pixel,
      clipped at the screen. */
  lemma FrameLinesAreFrame(d: Buffer, mode: PixelMode, startX: byte, startY: byte, pixelsX: byte, pixelsY: byte)
    requires 1 <= pixelsX && startX + pixelsX <= 0x100 && startY + pixelsY <= 0x100
    requires startY != DISPLAY_HEIGHT && startX != DISPLAY_WIDTH && startX + pixelsX - 1 != DISPLAY_WIDTH
    ensures FrameLines(d, mode, startX, startY, pixelsX, pixelsY) ==
      DrawFrame(d, mode, startX, startX + pixelsX - 1, startY, startY + pixelsY - 1)
  {
    hide DrawRect;
    RowLineExactly(d, mode, startX, startX + pixelsX - 1, startY);
    assert ToByte(startX + pixelsX - 1) == startX + pixelsX - 1;
    assert pixelsY > 1 ==> ToByte(startY + pixelsY - 1) == startY + pixelsY - 1 && ToByte(startY + 1) == startY + 1;
  }

  /** A pixel belongs to the upper, left or right side. */
  predicate OnFrame(x: int, y: int, x1: int, x2: int, y1: int, y2: int) {
    x1 <= x <= x2 && y1 <= y && (y == y1 || (y <= y2 && (x == x1 || x == x2)))
  }

  /** The pixels of a frame change as in drawing each of them once, but for inverted frames one pixel wide whose
      second line is on the screen. */
  lemma FrameExactly(d: Buffer, mode: PixelMode, x1: int, x2: int, y1: int, y2: int)
    requires 0 <= x1 <= x2 && 0 <= y1 <= y2
    ensures (forall x, y :: OnScreen(x, y) ==>
        (Pixel(DrawFrame(d, mode, x1, x2, y1, y2), x, y) <==>
         if OnFrame(x, y, x1, x2, y1, y2) then PixelAfter(mode, Pixel(d, x, y)) else Pixel(d, x, y)))
      <==> !(mode.Invert? && x1 == x2 && y1 < y2 && OnScreen(x1, y1 + 1))
  {
    hide DrawRect, Has;
    var top := DrawRect(d, mode, x1, x2, y1, y1, DISPLAY_HEIGHT);
    var left := DrawRect(top, mode, x1, x1, y1 + 1, y2, DISPLAY_HEIGHT);
    DrawRectDraws(d, mode, x1, x2, y1, y1, DISPLAY_HEIGHT);
    DrawRectDraws(top, mode, x1, x1, y1 + 1, y2, DISPLAY_HEIGHT);
    DrawRectDraws(left, mode, x2, x2, y1 + 1, y2, DISPLAY_HEIGHT);
    if y1 < y2 && OnScreen(x1, y1 + 1) {
      assert OnFrame(x1, y1 + 1, x1, x2, y1, y2);
    }
  }

  lemma NoBand(d: Buffer, mode: PixelMode, x1: int, x2: int, row: int, m: bv8)
    requires x2 < x1
    ensures Drawn(d, d, mode, Band(x1, x2, row, m))
  {
    DrawnNothing(d, mode, Band(x1, x2, row, m));
  }
}

/** The packed 1-bit-per-pixel frame: geometry, colours, the pixel view, and the
    byte-level effect of set_pixel, get_pixel, cls/fill, draw_row and draw_column
    as functions of the old memory contents. */
module Frame {
  import opened Bits

  /** Colours (TTVout.cpp:23-30); every other value leaves pixels alone. */
  const BLACK: U8 := 0
  const WHITE: U8 := 1
  const INVERT: U8 := 2

  predicate IsColour(c: int) {
    c == BLACK || c == WHITE || c == INVERT
  }

  /** hres bytes per row and vres rows; the width in pixels is 8 * hres. */
  datatype Geom = Geom(hres: nat, vres: nat) {
    function Size(): nat { hres * vres }
    function Width(): nat { 8 * hres }
  }

  /** The memory region: the frame followed by the one byte just past it, which
      draw_row, bitmap and shift(DOWN) touch. Byte indices fit an int16_t. */
  predicate Shaped(g: Geom, s: seq<bv8>) {
    g.Size() < 0x8000 && |s| == g.Size() + 1
  }

  predicate InFrame(g: Geom, x: int, y: int) {
    0 <= x < g.Width() && 0 <= y < g.vres
  }

  /** Byte holding pixel (x, y): y * hres + x / 8. */
  function Index(g: Geom, x: int, y: int): int {
    y * g.hres + x / 8
  }

  /** Multiplication by a non-negative factor is monotonic. */
  lemma MulMono(a: int, b: int, h: int)
    requires a <= b && h >= 0
    ensures a * h <= b * h
  {
  }

  /** Row-major order: row y, offset a before row y', offset b, for 0 <= a < h and 0 <= b <= h. */
  lemma RowMajor(h: int, y: int, a: int, y': int, b: int)
    requires 0 <= a < h && 0 <= b <= h
    ensures y * h + a < y' * h + b <==> y < y' || (y == y' && a < b)
    ensures b < h ==> (y * h + a == y' * h + b <==> y == y' && a == b)
  {
    if y < y' {
      MulMono(y + 1, y', h);
      assert (y + 1) * h == y * h + h;
    } else if y > y' {
      MulMono(y' + 1, y, h);
      assert (y' + 1) * h == y' * h + h;
    }
  }

  /** Row i + 1 starts h bytes after row i, and row i ends within v rows. */
  lemma RowNext(i: int, v: int, h: int)
    requires 0 <= i < v && h >= 0
    ensures (i + 1) * h == i * h + h && i * h + h <= v * h
  {
    MulMono(i + 1, v, h);
  }

  lemma IndexBound(g: Geom, x: int, y: int)
    requires InFrame(g, x, y)
    ensures 0 <= Index(g, x, y) < g.Size()
    ensures 8 * Index(g, x, y) + x % 8 == y * g.Width() + x
  {
    RowMajor(g.hres, y, x / 8, g.vres, 0);
  }

  /** Pixel (x, y) is lit: bit 0x80 >> (x & 7) of byte y * hres + x / 8. */
  ghost predicate Pixel(g: Geom, s: seq<bv8>, x: int, y: int)
    requires Shaped(g, s) && InFrame(g, x, y)
  {
    IndexBound(g, x, y);
    Lit(s[Index(g, x, y)], x % 8)
  }

  /** Two pixels of the frame share a byte and a mask only if they are the same pixel. */
  lemma IndexInjective(g: Geom, x: int, y: int, x': int, y': int)
    requires InFrame(g, x, y) && InFrame(g, x', y')
    requires Index(g, x, y) == Index(g, x', y')
    ensures y == y' && x / 8 == x' / 8
    ensures x % 8 == x' % 8 ==> x == x'
  {
    RowMajor(g.hres, y, x / 8, y', x' / 8);
  }

  /** How colour c combines mask m into byte b (the effect of the source's sp()). */
  function Paint(b: bv8, m: bv8, c: int): bv8 {
    if c == WHITE then b | m
    else if c == BLACK then b & !m
    else if c == INVERT then b ^ m
    else b
  }

  /** How colour c changes one pixel. */
  function PaintBit(p: bool, c: int): bool {
    if c == WHITE then true
    else if c == BLACK then false
    else if c == INVERT then !p
    else p
  }

  /** Painting with a mask changes exactly the masked columns, as PaintBit says. */
  lemma PaintLit(b: bv8, m: bv8, c: int, j: int)
    requires 0 <= j < 8
    ensures Lit(Paint(b, m, c), j) == if Lit(m, j) then PaintBit(Lit(b, j), c) else Lit(b, j)
  {
    var p := Paint(b, m, c);
    if c == WHITE {
      assert p == b | m;
      OrLit(b, m, j);
    } else if c == BLACK {
      assert p == b & !m;
      AndLit(b, !m, j);
      NotLit(m, j);
    } else if c == INVERT {
      assert p == b ^ m;
      XorLit(b, m, j);
    } else {
      assert p == b;
    }
  }

  /** Painting with an empty mask changes nothing. */
  lemma PaintNothing(b: bv8, c: int)
    ensures Paint(b, 0, c) == b
  {
  }

  // ---------------------------------------------------------------- set_pixel

  /** set_pixel (TTVout.cpp:117-121): out-of-frame coordinates are ignored. */
  function SetPixel(g: Geom, s: seq<bv8>, x: int, y: int, c: int): (r: seq<bv8>)
    requires Shaped(g, s)
    ensures Shaped(g, r)
  {
    if x < 0 || y < 0 || x >= g.Width() || y >= g.vres then s
    else
      IndexBound(g, x, y);
      var k := Index(g, x, y);
      s[k := Paint(s[k], Bit(x % 8), c)]
  }

  /** set_pixel changes at most the addressed pixel, and never the byte past the frame. */
  lemma SetPixelEffect(g: Geom, s: seq<bv8>, x: int, y: int, c: int, px: int, py: int)
    requires Shaped(g, s) && InFrame(g, px, py)
    ensures Pixel(g, SetPixel(g, s, x, y, c), px, py)
         == if px == x && py == y then PaintBit(Pixel(g, s, px, py), c) else Pixel(g, s, px, py)
    ensures SetPixel(g, s, x, y, c)[g.Size()] == s[g.Size()]
  {
    var r := SetPixel(g, s, x, y, c);
    IndexBound(g, px, py);
    var k' := Index(g, px, py);
    if InFrame(g, x, y) {
      IndexBound(g, x, y);
      var k := Index(g, x, y);
      if k == k' {
        IndexInjective(g, x, y, px, py);
        PaintLit(s[k], Bit(x % 8), c, px % 8);
        BitLit(x % 8, px % 8);
      }
    }
  }

  /** Inverting a pixel twice restores the whole memory. */
  lemma InvertTwice(g: Geom, s: seq<bv8>, x: int, y: int)
    requires Shaped(g, s)
    ensures SetPixel(g, SetPixel(g, s, x, y, INVERT), x, y, INVERT) == s
  {
    if InFrame(g, x, y) {
      IndexBound(g, x, y);
      var k := Index(g, x, y);
      var m := Bit(x % 8);
      assert (s[k] ^ m) ^ m == s[k];
      assert SetPixel(g, SetPixel(g, s, x, y, INVERT), x, y, INVERT) == s[k := s[k]];
    }
  }

  /** A value other than BLACK, WHITE or INVERT leaves the memory as it was. */
  lemma SetPixelOtherColour(g: Geom, s: seq<bv8>, x: int, y: int, c: int)
    requires Shaped(g, s) && !IsColour(c)
    ensures SetPixel(g, s, x, y, c) == s
  {
    if InFrame(g, x, y) {
      IndexBound(g, x, y);
      assert SetPixel(g, s, x, y, c) == s[Index(g, x, y) := s[Index(g, x, y)]];
    }
  }

  // ---------------------------------------------------------------- get_pixel

  /** get_pixel as the intended bounds-checked read: 1 exactly for a lit pixel of the frame. */
  function GetPixel(g: Geom, s: seq<bv8>, x: int, y: int): (p: U8)
    requires Shaped(g, s)
    ensures p <= 1
    ensures p == 1 <==> InFrame(g, x, y) && Pixel(g, s, x, y)
  {
    if !InFrame(g, x, y) then 0
    else
      IndexBound(g, x, y);
      if Lit(s[Index(g, x, y)], x % 8) then 1 else 0
  }

  /** What set_pixel promises a later get_pixel: WHITE reads 1, BLACK reads 0, INVERT
      flips the reading, other colours and out-of-frame pixels leave it alone. */
  lemma SetThenGet(g: Geom, s: seq<bv8>, x: int, y: int, c: int)
    requires Shaped(g, s)
    ensures InFrame(g, x, y) && c == WHITE ==> GetPixel(g, SetPixel(g, s, x, y, c), x, y) == 1
    ensures InFrame(g, x, y) && c == BLACK ==> GetPixel(g, SetPixel(g, s, x, y, c), x, y) == 0
    ensures InFrame(g, x, y) && c == INVERT ==>
              GetPixel(g, SetPixel(g, s, x, y, c), x, y) == 1 - GetPixel(g, s, x, y)
    ensures !IsColour(c) || !InFrame(g, x, y) ==> SetPixel(g, s, x, y, c) == s
  {
    if InFrame(g, x, y) {
      SetPixelEffect(g, s, x, y, c, x, y);
    }
    if !IsColour(c) {
      SetPixelOtherColour(g, s, x, y, c);
    }
  }

  /** get_pixel without bit-banding, as written (TTVout.cpp:147-151): the row is
      found with y * _width instead of y * _hres, and negative coordinates are not
      rejected. The caller must keep the byte it reads inside the memory. */
  function GetPixelIndexed(s: seq<bv8>, width: int, height: int, x: I16, y: I16): (p: U8)
    requires x >= width || y >= height || 0 <= x / 8 + y * width < |s|
    ensures p <= 1
  {
    if x >= width || y >= height then 0
    else if Lit(s[x / 8 + y * width], x % 8) then 1 else 0
  }

  /** On a 16x2 frame the indexed read of pixel (0, 1) looks at byte 16, outside
      the 5-byte memory, while the pixel lives in byte 2: the read is not even defined. */
  lemma GetPixelIndexedWrongRow()
    ensures var g := Geom(2, 2);
            var s: seq<bv8> := [0, 0, 0x80, 0, 0];
            Shaped(g, s) && GetPixel(g, s, 0, 1) == 1 && !(0 <= 0 / 8 + 1 * 16 < |s|)
  {
    var g := Geom(2, 2);
    var s: seq<bv8> := [0, 0, 0x80, 0, 0];
    assert Index(g, 0, 1) == 2;
    assert Lit(s[2], 0);
  }

  /** On a memory large enough for the wrong address, the indexed read of a lit
      pixel in row 1 answers 0. */
  lemma GetPixelIndexedMisreads()
    ensures var g := Geom(2, 2);
            var s: seq<bv8> := [0, 0, 0x80, 0, 0];
            var big := s + seq(16, k => 0);
            GetPixel(g, s, 0, 1) == 1 && GetPixelIndexed(big, 16, 2, 0, 1) == 0
  {
    var g := Geom(2, 2);
    var s: seq<bv8> := [0, 0, 0x80, 0, 0];
    var big := s + seq(16, k => 0);
    assert Index(g, 0, 1) == 2 && Lit(s[2], 0);
    assert big[16] == 0;
    assert !Lit(0, 0);
  }

  /** Bit-band word of pixel (x, y) (TTVout.cpp:145): _width * y + (x & 0xf8) + 7 - (x & 7). */
  function BitBandWord(width: int, x: int, y: int): int {
    width * y + (x % 0x100 - x % 8) + 7 - x % 8
  }

  /** Reading bit-band word w: bit w % 8, counted from the least significant end, of byte w / 8. */
  function BitBandRead(s: seq<bv8>, w: int): (p: U8)
    requires 0 <= w < 8 * |s|
    ensures p <= 1
  {
    if (s[w / 8] >> (w % 8)) & 1 == 1 then 1 else 0
  }

  /** get_pixel with bit-banding, as written: no bounds check at all. */
  function GetPixelBitBand(s: seq<bv8>, width: int, x: int, y: int): (p: U8)
    requires 0 <= BitBandWord(width, x, y) < 8 * |s|
    ensures p <= 1
  {
    BitBandRead(s, BitBandWord(width, x, y))
  }

  lemma LsbMsb(b: bv8, j: int)
    requires 0 <= j < 8
    ensures ((b >> (7 - j)) & 1 == 1) <==> Lit(b, j)
  {
  }

  /** For frame pixels left of column 256 the bit-band read is the intended get_pixel. */
  lemma BitBandAgrees(g: Geom, s: seq<bv8>, x: int, y: int)
    requires Shaped(g, s) && InFrame(g, x, y) && x < 0x100
    ensures 0 <= BitBandWord(g.Width(), x, y) < 8 * |s|
    ensures GetPixelBitBand(s, g.Width(), x, y) == GetPixel(g, s, x, y)
  {
    IndexBound(g, x, y);
    var k := Index(g, x, y);
    var w := BitBandWord(g.Width(), x, y);
    assert g.Width() * y == 8 * (y * g.hres);
    assert w == 8 * k + (7 - x % 8);
    assert w / 8 == k && w % 8 == 7 - x % 8;
    LsbMsb(s[k], x % 8);
  }

  /** On a 512-pixel-wide frame, x & 0xf8 sends the read of pixel (256, 0) to byte 0:
      a lit pixel reads as 0. */
  lemma BitBandDropsHighColumns()
    ensures var g := Geom(64, 1);
            var s: seq<bv8> := seq(65, k => if k == 32 then 0x80 else 0);
            Shaped(g, s) && GetPixel(g, s, 256, 0) == 1 && GetPixelBitBand(s, 512, 256, 0) == 0
  {
    var g := Geom(64, 1);
    var s: seq<bv8> := seq(65, k => if k == 32 then 0x80 else 0);
    assert Index(g, 256, 0) == 32 && Lit(s[32], 0);
    assert BitBandWord(512, 256, 0) == 7;
    assert s[0] == 0;
  }

  // ---------------------------------------------------------------- cls / fill

  /** Bytes lo..hi-1 painted with mask m in colour c, the rest kept. */
  function PaintRange(s: seq<bv8>, lo: int, hi: int, m: bv8, c: int): seq<bv8> {
    seq(|s|, k requires 0 <= k < |s| => if lo <= k < hi then Paint(s[k], m, c) else s[k])
  }

  /** Painting one more byte extends the painted range by one. */
  lemma PaintRangeStep(s: seq<bv8>, t: seq<bv8>, lo: int, k: int, m: bv8, c: int)
    requires lo <= k < |s| && 0 <= k && t == PaintRange(s, lo, k, m, c)
    ensures t[k := Paint(t[k], m, c)] == PaintRange(s, lo, k + 1, m, c)
  {
  }

  /** Painting [lo, a) and then [a, b) paints [lo, b). */
  lemma PaintRangeJoin(s: seq<bv8>, t: seq<bv8>, lo: int, a: int, b: int, m: bv8, c: int)
    requires lo <= a <= b && t == PaintRange(s, lo, a, m, c)
    ensures PaintRange(t, a, b, m, c) == PaintRange(s, lo, b, m, c)
  {
  }

  /** What fill writes for each colour is the byte painted with a full mask. */
  lemma FullMask(b: bv8, c: int)
    ensures c == BLACK ==> Paint(b, 0xff, c) == 0
    ensures c == WHITE ==> Paint(b, 0xff, c) == 0xff
    ensures c == INVERT ==> Paint(b, 0xff, c) == !b
  {
  }

  /** fill(c) and, for BLACK, cls (TTVout.cpp:123-125, 156-176): every frame byte set
      to 0 (BLACK), 0xff (WHITE) or complemented (INVERT); other colours change nothing. */
  function Filled(g: Geom, s: seq<bv8>, c: int): (r: seq<bv8>)
    requires Shaped(g, s)
    ensures Shaped(g, r)
  {
    PaintRange(s, 0, g.Size(), 0xff, c)
  }

  lemma FilledBytes(g: Geom, s: seq<bv8>, c: int, k: int)
    requires Shaped(g, s) && 0 <= k < |s|
    ensures k < g.Size() && c == WHITE ==> Filled(g, s, c)[k] == 0xff
    ensures k < g.Size() && c == BLACK ==> Filled(g, s, c)[k] == 0
    ensures k < g.Size() && c == INVERT ==> Filled(g, s, c)[k] == !s[k]
    ensures k == g.Size() || !IsColour(c) ==> Filled(g, s, c)[k] == s[k]
  {
  }

  /** fill changes every pixel as its colour says. */
  lemma FilledPixels(g: Geom, s: seq<bv8>, c: int, x: int, y: int)
    requires Shaped(g, s) && InFrame(g, x, y)
    ensures Pixel(g, Filled(g, s, c), x, y) == PaintBit(Pixel(g, s, x, y), c)
  {
    IndexBound(g, x, y);
    PaintLit(s[Index(g, x, y)], 0xff, c, x % 8);
    ZeroLit(x % 8);
  }

  /** fill(INVERT) is its own inverse. */
  lemma FillInvertTwice(g: Geom, s: seq<bv8>)
    requires Shaped(g, s)
    ensures Filled(g, Filled(g, s, INVERT), INVERT) == s
  {
    var r := Filled(g, Filled(g, s, INVERT), INVERT);
    forall k | 0 <= k < |s| ensures r[k] == s[k] {
      assert (s[k] ^ 0xff) ^ 0xff == s[k];
    }
  }

  /** fill(BLACK) then fill(INVERT) leaves the memory fill(WHITE) leaves. */
  lemma FillBlackThenInvert(g: Geom, s: seq<bv8>)
    requires Shaped(g, s)
    ensures Filled(g, Filled(g, s, BLACK), INVERT) == Filled(g, s, WHITE)
  {
    var a := Filled(g, Filled(g, s, BLACK), INVERT);
    var b := Filled(g, s, WHITE);
    forall k | 0 <= k < |s| ensures a[k] == b[k] {
      assert (s[k] & !0xff) ^ 0xff == s[k] | 0xff;
    }
  }

  // ---------------------------------------------------------------- spans

  /** The ends draw_row and draw_column work with after swapping descending ends
      through a uint8_t temporary (TTVout.cpp:184-188, 227-231): the larger end
      keeps only its low 8 bits. */
  function SpanEnds(a: I16, b: I16): (I16, I16)
    requires a != b
  {
    if a > b then (b, ToU8(a)) else (a, b)
  }

  /** For ends below 256, or already in order, the swap is the plain min/max. */
  lemma SpanEndsOrdered(a: I16, b: I16)
    requires a != b && (a < b || 0 <= a < 0x100)
    ensures SpanEnds(a, b) == (if a < b then (a, b) else (b, a))
  {
  }

  /** draw_row(line, 300, 10): the span becomes 10..44, 300 keeping only its low 8 bits. */
  lemma SpanEndsTruncates()
    ensures SpanEnds(300, 10) == (10, 44)
  {
  }

  /** The ends as intended: min and max, as the uint16_t coordinates require. */
  function SpanEndsIntended(a: I16, b: I16): (e: (I16, I16))
    requires a != b
    ensures e.0 < e.1 && {e.0, e.1} == {a, b}
  {
    if a > b then (b, a) else (a, b)
  }

  /** The bytes draw_row touches: mask lmask on byte first, whole bytes strictly
      between first and last, mask rmask on byte RowEnd(). */
  datatype RowPlan = RowPlan(first: int, lmask: bv8, last: int, rmask: bv8) {
    function RowEnd(): int { if last > first + 1 then last else first + 1 }
  }

  /** TTVout.cpp:189-196: lbit = 0xff >> (x0 & 7), rbit = ~(0xff >> (x1 & 7)), byte
      indices x / 8 + _hres * line in int16_t; a span inside one byte merges the masks. */
  function RowPlanOf(g: Geom, line: I16, x0: I16, x1: I16): RowPlan
    requires x0 != x1
  {
    var (lo, hi) := SpanEnds(x0, x1);
    RowPlanAt(g, line, lo, hi)
  }

  /** The plan for the swapped ends lo, hi. */
  function RowPlanAt(g: Geom, line: I16, lo: I16, hi: I16): RowPlan {
    var lbit := Ones(lo % 8);
    var a := ToI16(Quot(lo, 8) + g.hres * line);
    var rbit := !Ones(hi % 8);
    var b := ToI16(Quot(hi, 8) + g.hres * line);
    if a == b then RowPlan(a, lbit & rbit, b, 0) else RowPlan(a, lbit, b, rbit)
  }

  /** draw_row does no bounds check: the bytes it touches must lie in the memory. */
  predicate RowFits(g: Geom, line: I16, x0: I16, x1: I16, c: int) {
    x0 == x1 || !IsColour(c) ||
    (var p := RowPlanOf(g, line, x0, x1); 0 <= p.first && p.RowEnd() <= g.Size())
  }

  function RowBytes(s: seq<bv8>, p: RowPlan, c: int): seq<bv8>
    requires 0 <= p.first && p.RowEnd() < |s|
  {
    var s1 := s[p.first := Paint(s[p.first], p.lmask, c)];
    var s2 := PaintRange(s1, p.first + 1, p.last, 0xff, c);
    var e := p.RowEnd();
    s2[e := Paint(s2[e], p.rmask, c)]
  }

  /** draw_row(line, x0, x1, c) (TTVout.cpp:179-216). */
  function DrawRow(g: Geom, s: seq<bv8>, line: I16, x0: I16, x1: I16, c: int): (r: seq<bv8>)
    requires Shaped(g, s) && RowFits(g, line, x0, x1, c)
    ensures Shaped(g, r)
  {
    if x0 == x1 then SetPixel(g, s, x0, line, c)
    else if !IsColour(c) then s
    else RowBytes(s, RowPlanOf(g, line, x0, x1), c)
  }

  /** The mask RowBytes applies to byte k. */
  function RowMaskAt(p: RowPlan, k: int): bv8 {
    if k == p.first then p.lmask
    else if p.first < k < p.last then 0xff
    else if k == p.RowEnd() then p.rmask
    else 0
  }

  lemma RowBytesAt(s: seq<bv8>, p: RowPlan, c: int, k: int)
    requires 0 <= p.first && p.RowEnd() < |s| && 0 <= k < |s|
    ensures RowBytes(s, p, c)[k] == Paint(s[k], RowMaskAt(p, k), c)
  {
    PaintNothing(s[k], c);
  }

  /** The masks draw_row builds for bytes a..b and in-byte offsets l, h cover exactly
      the bit positions 8*a + l up to, excluding, 8*b + h, counted MSB-first across bytes. */
  lemma PlanMaskLit(a: int, b: int, l: int, h: int, k: int, j: int)
    requires 0 <= l < 8 && 0 <= h < 8 && 0 <= j < 8
    requires a < b || (a == b && l <= h)
    ensures var p := if a == b then RowPlan(a, Ones(l) & !Ones(h), b, 0) else RowPlan(a, Ones(l), b, !Ones(h));
            Lit(RowMaskAt(p, k), j) <==> 8 * a + l <= 8 * k + j < 8 * b + h
  {
    OnesLit(l, j);
    NotOnesLit(h, j);
    AndLit(Ones(l), !Ones(h), j);
    ZeroLit(j);
  }

  /** The byte draw_row computes for an end x of row line, x / 8 + _hres * line in
      int16_t, is the byte of the frame holding column x (or the byte after the row
      when x is the width). */
  lemma RowByte(g: Geom, line: int, x: int)
    requires 0 <= x <= g.Width() && 0 <= line < g.vres && g.Size() < 0x8000
    ensures var b := line * g.hres + x / 8;
            ToI16(Quot(x, 8) + g.hres * line) == b && 0 <= b <= g.Size() &&
            (x < g.Width() ==> b < g.Size()) &&
            8 * b + x % 8 == line * g.Width() + x && 8 * b + x % 8 <= 8 * g.Size()
  {
    MulMono(line + 1, g.vres, g.hres);
    assert (line + 1) * g.hres == line * g.hres + g.hres;
  }

  /** Where draw_row's bytes lie, for ends inside the frame's width. */
  lemma RowPlanShape(g: Geom, line: I16, x0: I16, x1: I16)
    requires x0 != x1
    requires var (lo, hi) := SpanEnds(x0, x1); 0 <= lo < g.Width() && lo <= hi <= g.Width()
    requires 0 <= line < g.vres && g.Size() < 0x8000
    ensures var (lo, hi) := SpanEnds(x0, x1);
            var p := RowPlanOf(g, line, x0, x1);
            var a := line * g.hres + lo / 8;
            var b := line * g.hres + hi / 8;
            0 <= a < g.Size() && b <= g.Size() && (a < b || (a == b && lo % 8 <= hi % 8)) &&
            8 * a + lo % 8 == line * g.Width() + lo && 8 * b + hi % 8 == line * g.Width() + hi &&
            8 * b + hi % 8 <= 8 * g.Size() &&
            p == (if a == b then RowPlan(a, Ones(lo % 8) & !Ones(hi % 8), b, 0)
                  else RowPlan(a, Ones(lo % 8), b, !Ones(hi % 8)))
  {
    var (lo, hi) := SpanEnds(x0, x1);
    RowByte(g, line, lo);
    RowByte(g, line, hi);
  }

  /** A row's span [lo, hi) counted along the frame holds exactly its own pixels. */
  lemma RowSpanLinear(h: int, line: int, lo: int, hi: int, px: int, py: int)
    requires 0 <= lo <= hi <= h && 0 <= px < h
    ensures line * h + lo <= py * h + px < line * h + hi <==> py == line && lo <= px < hi
  {
    RowMajor(h, py, px, line, lo);
    RowMajor(h, py, px, line, hi);
  }

  /** Byte k of a painted row, bit by bit. */
  lemma RowBytesLit(s: seq<bv8>, p: RowPlan, c: int, k: int, j: int)
    requires 0 <= p.first && p.RowEnd() < |s| && 0 <= k < |s| && 0 <= j < 8
    ensures Lit(RowBytes(s, p, c)[k], j)
            == if Lit(RowMaskAt(p, k), j) then PaintBit(Lit(s[k], j), c) else Lit(s[k], j)
  {
    RowBytesAt(s, p, c, k);
    PaintLit(s[k], RowMaskAt(p, k), c, j);
  }

  /** draw_row with distinct ends paints exactly the columns lo..hi-1 of row line,
      where (lo, hi) are the ends after the swap: the right end is excluded. No other
      pixel and not the byte past the frame changes. */
  lemma DrawRowPixels(g: Geom, s: seq<bv8>, line: I16, x0: I16, x1: I16, c: int, px: int, py: int)
    requires Shaped(g, s) && x0 != x1
    requires var (lo, hi) := SpanEnds(x0, x1); 0 <= lo < g.Width() && lo <= hi <= g.Width()
    requires 0 <= line < g.vres && InFrame(g, px, py)
    ensures RowFits(g, line, x0, x1, c)
    ensures var (lo, hi) := SpanEnds(x0, x1);
            Pixel(g, DrawRow(g, s, line, x0, x1, c), px, py)
            == if py == line && lo <= px < hi then PaintBit(Pixel(g, s, px, py), c) else Pixel(g, s, px, py)
    ensures DrawRow(g, s, line, x0, x1, c)[g.Size()] == s[g.Size()]
  {
    var (lo, hi) := SpanEnds(x0, x1);
    var p := RowPlanOf(g, line, x0, x1);
    RowPlanShape(g, line, x0, x1);
    if IsColour(c) {
      IndexBound(g, px, py);
      var k := Index(g, px, py);
      PlanMaskLit(p.first, p.last, lo % 8, hi % 8, k, px % 8);
      RowBytesLit(s, p, c, k, px % 8);
      RowSpanLinear(g.Width(), line, lo, hi, px, py);
      RowGuard(g, s, line, x0, x1, c);
    }
  }

  /** The byte past the frame gets an empty mask from a row inside the frame. */
  lemma RowGuard(g: Geom, s: seq<bv8>, line: I16, x0: I16, x1: I16, c: int)
    requires Shaped(g, s) && x0 != x1 && IsColour(c)
    requires var (lo, hi) := SpanEnds(x0, x1); 0 <= lo < g.Width() && lo <= hi <= g.Width()
    requires 0 <= line < g.vres
    ensures RowFits(g, line, x0, x1, c)
    ensures DrawRow(g, s, line, x0, x1, c)[g.Size()] == s[g.Size()]
  {
    var (lo, hi) := SpanEnds(x0, x1);
    var p := RowPlanOf(g, line, x0, x1);
    RowPlanShape(g, line, x0, x1);
    forall j | 0 <= j < 8 ensures Lit(RowMaskAt(p, g.Size()), j) <==> Lit(0, j) {
      PlanMaskLit(p.first, p.last, lo % 8, hi % 8, g.Size(), j);
      ZeroLit(j);
    }
    ByteExt(RowMaskAt(p, g.Size()), 0);
    RowBytesAt(s, p, c, g.Size());
    PaintNothing(s[g.Size()], c);
  }

  // ---------------------------------------------------------------- draw_column

  /** Division with remainder is unique. */
  lemma DivModUnique(a: int, h: int, q: int, r: int)
    requires h > 0 && 0 <= r < h && a == q * h + r
    ensures a / h == q && a % h == r
  {
    RowMajor(h, a / h, a % h, q, r);
  }

  /** Byte k is one of the n bytes b, b + h, ..., b + (n - 1) * h. */
  predicate ColumnHit(b: int, h: int, n: int, k: int)
    requires h > 0
  {
    b <= k && (k - b) % h == 0 && (k - b) / h < n
  }

  lemma ColumnHitAt(b: int, h: int, n: int, i: int)
    requires h > 0 && 0 <= i
    ensures ColumnHit(b, h, n, b + i * h) <==> i < n
  {
    DivModUnique(i * h, h, i, 0);
  }

  /** Extending a column by one byte adds exactly byte b + n * h. */
  lemma ColumnHitStep(b: int, h: int, n: int, k: int)
    requires h > 0 && 0 <= n
    ensures ColumnHit(b, h, n + 1, k) <==> ColumnHit(b, h, n, k) || k == b + n * h
  {
    if k == b + n * h {
      ColumnHitAt(b, h, n, n);
      ColumnHitAt(b, h, n + 1, n);
    } else if b <= k && (k - b) % h == 0 {
      DivModUnique(k - b, h, (k - b) / h, 0);
    }
  }

  /** The n bytes b, b + h, ... painted with mask m in colour c. */
  function ColumnBytes(s: seq<bv8>, b: int, h: int, n: int, m: bv8, c: int): seq<bv8>
    requires h > 0
  {
    seq(|s|, k requires 0 <= k < |s| => if ColumnHit(b, h, n, k) then Paint(s[k], m, c) else s[k])
  }

  /** Painting the next byte of a column extends it by one byte. */
  lemma ColumnBytesStep(s: seq<bv8>, t: seq<bv8>, b: int, h: int, n: int, m: bv8, c: int)
    requires h > 0 && 0 <= n && 0 <= b + n * h < |s| && t == ColumnBytes(s, b, h, n, m, c)
    ensures t[b + n * h := Paint(t[b + n * h], m, c)] == ColumnBytes(s, b, h, n + 1, m, c)
  {
    ColumnHitAt(b, h, n, n);
    forall k | 0 <= k < |s| ensures ColumnHit(b, h, n + 1, k) <==> ColumnHit(b, h, n, k) || k == b + n * h {
      ColumnHitStep(b, h, n, k);
    }
  }

  /** The first byte draw_column touches: row / 8 + y0 * _hres in int16_t (TTVout.cpp:233). */
  function ColumnStart(g: Geom, row: I16, y0: I16, y1: I16): int
    requires y0 != y1
  {
    ToI16(Quot(row, 8) + SpanEnds(y0, y1).0 * g.hres)
  }

  /** draw_column does no bounds check: the bytes it touches must lie in the memory. Its
      int16_t y0 never exceeds a y1 of 32767, so the loop only ends for a smaller end.
      When the uint8_t swap leaves lo > hi the loop does not run and touches nothing. */
  predicate ColumnFits(g: Geom, row: I16, y0: I16, y1: I16, c: int) {
    y0 == y1 || !IsColour(c) ||
    (g.hres > 0 &&
     var (lo, hi) := SpanEnds(y0, y1);
     var b := ColumnStart(g, row, y0, y1);
     lo <= hi ==> hi < 0x7fff && 0 <= b && b + (hi - lo) * g.hres <= g.Size())
  }

  /** draw_column(row, y0, y1, c) (TTVout.cpp:219-256). The ends are swapped when
      y1 < y0, through a uint8_t, exactly as draw_row swaps its ends. */
  function DrawColumn(g: Geom, s: seq<bv8>, row: I16, y0: I16, y1: I16, c: int): (r: seq<bv8>)
    requires Shaped(g, s) && ColumnFits(g, row, y0, y1, c)
    ensures Shaped(g, r)
  {
    if y0 == y1 then SetPixel(g, s, row, y0, c)
    else if !IsColour(c) then s
    else
      var (lo, hi) := SpanEnds(y0, y1);
      ColumnBytes(s, ColumnStart(g, row, y0, y1), g.hres, hi - lo + 1, Bit(row % 8), c)
  }

  /** The column's first byte for a row inside the frame. */
  lemma ColumnStartShape(g: Geom, row: I16, y0: I16, y1: I16)
    requires y0 != y1 && 0 <= row < g.Width() && g.Size() < 0x8000
    requires var (lo, hi) := SpanEnds(y0, y1); 0 <= lo <= hi < g.vres
    ensures var (lo, hi) := SpanEnds(y0, y1);
            var b := ColumnStart(g, row, y0, y1);
            b == lo * g.hres + row / 8 && b + (hi - lo) * g.hres == Index(g, row, hi) &&
            0 <= b && Index(g, row, hi) < g.Size()
  {
    var (lo, hi) := SpanEnds(y0, y1);
    var h := g.hres;
    IndexBound(g, row, hi);
    MulMono(0, lo, h);
    MulMono(lo, hi, h);
    assert (hi - lo) * h == hi * h - lo * h;
    assert 0 <= lo * h + row / 8 < 0x8000;
  }

  /** Byte py * hres + px / 8 is in the column of row exactly for the pixels of that
      byte column in rows lo..hi. */
  lemma ColumnHitPixel(g: Geom, lo: int, hi: int, row: int, px: int, py: int)
    requires 0 <= row < g.Width() && InFrame(g, px, py) && lo <= hi
    ensures ColumnHit(lo * g.hres + row / 8, g.hres, hi - lo + 1, Index(g, px, py))
            <==> px / 8 == row / 8 && lo <= py <= hi
  {
    var h := g.hres;
    var b := lo * h + row / 8;
    var k := Index(g, px, py);
    if px / 8 == row / 8 && lo <= py <= hi {
      assert k == b + (py - lo) * h;
      ColumnHitAt(b, h, hi - lo + 1, py - lo);
    } else if ColumnHit(b, h, hi - lo + 1, k) {
      var i := (k - b) / h;
      DivModUnique(k - b, h, i, 0);
      assert py * h + px / 8 == (lo + i) * h + row / 8;
      RowMajor(h, py, px / 8, lo + i, row / 8);
    }
  }

  /** A column whose last byte is below e does not reach e. */
  lemma ColumnMissesGuard(b: int, h: int, n: int, e: int)
    requires h > 0 && 0 <= n && b + n * h < e
    ensures !ColumnHit(b, h, n + 1, e)
  {
    if ColumnHit(b, h, n + 1, e) {
      var i := (e - b) / h;
      DivModUnique(e - b, h, i, 0);
      MulMono(i, n, h);
    }
  }

  /** draw_column with distinct ends paints exactly rows lo..hi of column row, both
      ends included; no other pixel and not the byte past the frame changes. */
  lemma DrawColumnPixels(g: Geom, s: seq<bv8>, row: I16, y0: I16, y1: I16, c: int, px: int, py: int)
    requires Shaped(g, s) && y0 != y1
    requires var (lo, hi) := SpanEnds(y0, y1); 0 <= lo <= hi < g.vres
    requires 0 <= row < g.Width() && InFrame(g, px, py)
    ensures ColumnFits(g, row, y0, y1, c)
    ensures var (lo, hi) := SpanEnds(y0, y1);
            Pixel(g, DrawColumn(g, s, row, y0, y1, c), px, py)
            == if px == row && lo <= py <= hi then PaintBit(Pixel(g, s, px, py), c) else Pixel(g, s, px, py)
    ensures DrawColumn(g, s, row, y0, y1, c)[g.Size()] == s[g.Size()]
  {
    var (lo, hi) := SpanEnds(y0, y1);
    ColumnStartShape(g, row, y0, y1);
    IndexBound(g, px, py);
    var b := ColumnStart(g, row, y0, y1);
    if IsColour(c) {
      var k := Index(g, px, py);
      ColumnHitPixel(g, lo, hi, row, px, py);
      PaintLit(s[k], Bit(row % 8), c, px % 8);
      BitLit(row % 8, px % 8);
      ColumnMissesGuard(b, g.hres, hi - lo, g.Size());
    }
  }

  /** An end past the width reaches the byte past the frame: on an 8x1 frame
      draw_row(0, 0, 11) sets columns 0..2 of that byte. */
  lemma RowPastWidthReachesGuard()
    ensures RowFits(Geom(1, 1), 0, 0, 11, WHITE)
    ensures DrawRow(Geom(1, 1), [0, 0], 0, 0, 11, WHITE) == [0xff, 0xe0]
  {
    assert Ones(0) == 0xff && Ones(3) == 0x1f;
    var p := RowPlanOf(Geom(1, 1), 0, 0, 11);
    assert p == RowPlan(0, 0xff, 1, 0xe0);
    var s1: seq<bv8> := [0xff, 0];
    assert [0, 0][0 := Paint(0, 0xff, WHITE)] == s1;
    assert PaintRange(s1, 1, 1, 0xff, WHITE) == s1;
    assert s1[1 := Paint(s1[1], 0xe0, WHITE)] == [0xff, 0xe0];
    assert RowBytes([0, 0], p, WHITE) == [0xff, 0xe0];
  }

  /** A column past the width reaches it too: on an 8x2 frame draw_column(8, 0, 1) sets
      column 0 of that byte. */
  lemma ColumnPastWidthReachesGuard()
    ensures ColumnFits(Geom(1, 2), 8, 0, 1, WHITE)
    ensures DrawColumn(Geom(1, 2), [0, 0, 0], 8, 0, 1, WHITE) == [0, 0x80, 0x80]
  {
    assert SpanEnds(0, 1) == (0, 1);
    assert ColumnStart(Geom(1, 2), 8, 0, 1) == 1;
  }
}

/** bitmap(x, y, bmp, i, width, lines) (TTVout.cpp:343-392): copies an image of rows of
    whole bytes, MSB first, into the frame at pixel (x, y), shifting each row right by
    x & 7 bits. A width or line count of 0 is read from the image itself. */
module Blit {
  import opened Bits
  import opened Frame

  /** Where the pixel rows start in bmp, and the width and line count in effect. */
  datatype Header = Header(start: int, width: int, lines: int)

  /** The header bytes the source reads must exist; the image is indexed by a uint16_t. */
  predicate HeaderFits(bmp: seq<bv8>, i: U16, width: U16, lines: U16) {
    |bmp| < 0x1_0000 &&
    (width == 0 ==> i < |bmp|) &&
    (lines == 0 ==> i + (if width == 0 then 1 else 0) < |bmp|)
  }

  /** A width of 0 is taken from bmp[i], then a line count of 0 from the next byte. */
  function ReadHeader(bmp: seq<bv8>, i: U16, width: U16, lines: U16): (h: Header)
    requires HeaderFits(bmp, i, width, lines)
    ensures i <= h.start <= i + 2
    ensures h.width == (if width == 0 then bmp[i] as int else width)
    ensures h.lines == (if lines != 0 then lines as int
                        else if width == 0 then bmp[i + 1] as int else bmp[i] as int)
    ensures h.start == i + (if width == 0 then 1 else 0) + (if lines == 0 then 1 else 0)
  {
    var (w, i1) := if width == 0 then (bmp[i] as int, i + 1) else (width as int, i as int);
    var (n, i2) := if lines == 0 then (bmp[i1] as int, i1 + 1) else (lines as int, i1);
    Header(i2, w, n)
  }

  /** Width in bytes, rounded up, and xtra, the columns used in the row's last byte. */
  function Layout(width: int): (int, int)
    requires width >= 0
  {
    if width % 8 != 0 then (width / 8 + 1, width % 8) else (width / 8, 8)
  }

  /** The bytes of bmp one row consumes: the loops read max(W, 1) of them. */
  function RowLen(w: int): nat {
    if w < 1 then 1 else w
  }

  /** Pixels per row drawn. A width of 0 still draws 8 columns from one byte. */
  function Columns(width: int): int
    requires width >= 0
  {
    var (w, xtra) := Layout(width);
    8 * (RowLen(w) - 1) + xtra
  }

  /** Layout covers the width exactly: W bytes with xtra columns in the last one. */
  lemma LayoutCovers(width: int)
    requires width >= 0
    ensures var (w, xtra) := Layout(width);
            1 <= xtra <= 8 && w >= 0 && (w == 0 <==> width == 0) &&
            Columns(width) == (if width == 0 then 8 else width)
  {
  }

  /** Row l of the image: the max(W, 1) bytes from start + l * max(W, 1) on. */
  function ImageRow(bmp: seq<bv8>, start: int, n: nat, l: int): (t: seq<bv8>)
    requires 0 <= start && 0 <= l && start + (l + 1) * n <= |bmp|
    ensures |t| == n
  {
    assert l * n <= (l + 1) * n by { MulMono(l, l + 1, n); }
    bmp[start + l * n .. start + (l + 1) * n]
  }

  /** Column k of an image row. */
  predicate ImageBit(t: seq<bv8>, k: int)
    requires 0 <= k < 8 * |t|
  {
    Lit(t[k / 8], k % 8)
  }

  /** The columns of the row's last byte beyond xtra are 0. */
  predicate Padded(t: seq<bv8>, xtra: int)
    requires |t| >= 1
  {
    PaddedByte(t[|t| - 1], xtra)
  }

  predicate PaddedByte(b: bv8, xtra: int) {
    forall j :: 0 <= j < 8 && xtra <= j ==> !Lit(b, j)
  }

  // ---------------------------------------------------------------- one row

  /** The first byte: columns before x & 7 kept (and, for a one-byte row, those after
      the image too), the row's first image byte shifted right by x & 7 ored in. */
  function RowFirst(b: bv8, t0: bv8, w: int, r: int, xtra: int): bv8
    requires 0 <= r < 8 && 1 <= xtra <= 8
  {
    (b & KeepMask(w, r, xtra)) | Shr(t0, r)
  }

  /** Byte p of the row (0 < p < max(W, 1)): the end of image byte p - 1 and the start
      of image byte p. */
  function RowMid(a: bv8, c: bv8, r: int): bv8
    requires 0 <= r < 8
  {
    Shl(a, 8 - r) | Shr(c, r)
  }

  /** The row's bytes si0 .. si0 + p - 1 written, the rest as before. */
  function RowFront(m: seq<bv8>, si0: int, t: seq<bv8>, w: int, r: int, xtra: int, p: int): (f: seq<bv8>)
    requires 0 <= r < 8 && 1 <= xtra <= 8 && 1 <= p <= |t| && 0 <= si0 && si0 + |t| < |m|
    ensures |f| == |m|
  {
    seq(|m|, k requires 0 <= k < |m| =>
      if k == si0 then RowFirst(m[si0], t[0], w, r, xtra)
      else if si0 < k < si0 + p then RowMid(t[k - si0 - 1], t[k - si0], r)
      else m[k])
  }

  /** The first byte written: RowFront with p = 1. */
  lemma RowFrontStart(m: seq<bv8>, si0: int, t: seq<bv8>, w: int, r: int, xtra: int)
    requires 0 <= r < 8 && 1 <= xtra <= 8 && 1 <= |t| && 0 <= si0 && si0 + |t| < |m|
    ensures RowFront(m, si0, t, w, r, xtra, 1) == m[si0 := RowFirst(m[si0], t[0], w, r, xtra)]
  {
  }

  /** Byte si0 + p is read as it was, then rebuilt from image bytes p - 1 and p. */
  lemma RowFrontStep(m: seq<bv8>, si0: int, t: seq<bv8>, w: int, r: int, xtra: int, p: int)
    requires 0 <= r < 8 && 1 <= xtra <= 8 && 1 <= p < |t| && 0 <= si0 && si0 + |t| < |m|
    ensures RowFront(m, si0, t, w, r, xtra, p)[si0 + p] == m[si0 + p]
    ensures RowFront(m, si0, t, w, r, xtra, p + 1) ==
            RowFront(m, si0, t, w, r, xtra, p)[si0 + p := RowMid(t[p - 1], t[p], r)]
  {
  }

  /** The last byte of the row, v as built, with the columns after the image taken back
      from save, the byte's value before the row, when the image ends inside it. */
  function RowLast(v: bv8, save: bv8, r: int, xtra: int): bv8
    requires 0 <= r < 8 && 1 <= xtra <= 8
  {
    if r + xtra < 8 then v | (save & Ones(r + xtra)) else v
  }

  /** The spill byte after the row: its first r + xtra - 8 columns cleared when the image
      reaches into it, then the last image byte shifted left ored in. */
  function RowSpill(b: bv8, tl: bv8, r: int, xtra: int): bv8
    requires 0 <= r < 8 && 1 <= xtra <= 8
  {
    Spilled(b, r + xtra - 8) | Shl(tl, 8 - r)
  }

  /** b with its first n columns cleared (none when n <= 0). */
  function Spilled(b: bv8, n: int): bv8 {
    if n > 0 then b & Ones(n) else b
  }

  /** One pass of the row loop (TTVout.cpp:371-390): byte si0 + p for p < max(W, 1)
      from the front, the last of them finished by RowLast, and the spill byte
      si0 + max(W, 1) by RowSpill. */
  function BlitRow(m: seq<bv8>, si0: int, t: seq<bv8>, w: int, r: int, xtra: int): (res: seq<bv8>)
    requires 0 <= r < 8 && 1 <= xtra <= 8 && |t| == RowLen(w) && 0 <= si0 && si0 + |t| < |m|
    ensures |res| == |m|
    ensures forall k :: 0 <= k < |m| && !(si0 <= k <= si0 + |t|) ==> res[k] == m[k]
  {
    var n := |t|;
    var front := RowFront(m, si0, t, w, r, xtra, n);
    seq(|m|, k requires 0 <= k < |m| =>
      if k == si0 + n then RowSpill(m[k], t[n - 1], r, xtra)
      else if k == si0 + n - 1 then RowLast(front[k], m[k], r, xtra)
      else front[k])
  }

  /** The order of the source's steps: the front bytes, then the last one finished, then
      the spill byte. */
  lemma BlitRowSteps(m: seq<bv8>, si0: int, t: seq<bv8>, w: int, r: int, xtra: int)
    requires 0 <= r < 8 && 1 <= xtra <= 8 && |t| == RowLen(w) && 0 <= si0 && si0 + |t| < |m|
    ensures var n := |t|;
            var front := RowFront(m, si0, t, w, r, xtra, n);
            front[si0 + n] == m[si0 + n] &&
            BlitRow(m, si0, t, w, r, xtra) ==
              front[si0 + n - 1 := RowLast(front[si0 + n - 1], m[si0 + n - 1], r, xtra)]
                   [si0 + n := RowSpill(m[si0 + n], t[n - 1], r, xtra)]
  {
  }

  /** Column j of byte si0 + p after the row, for a padded row: image column 8 * p + j - r
      where that is inside the image, the old column otherwise. */
  predicate RowEffect(m: seq<bv8>, res: seq<bv8>, si0: int, t: seq<bv8>, r: int, xtra: int, p: int, j: int)
    requires 0 <= r < 8 && 1 <= xtra <= 8 && |t| >= 1 && 0 <= si0 && 0 <= p <= |t| && si0 + |t| < |m| == |res|
    requires 0 <= j < 8
  {
    var k := 8 * p + j - r;
    Lit(res[si0 + p], j) <==>
      if 0 <= k < 8 * (|t| - 1) + xtra then Lit(t[k / 8], k % 8) else Lit(m[si0 + p], j)
  }

  /** The mask the first byte is and-ed with keeps the columns before r and, in a
      one-byte row, those from r + xtra on. */
  function KeepMask(w: int, r: int, xtra: int): bv8
    requires 0 <= r < 8 && 1 <= xtra <= 8
  {
    if w == 1 then Shl(0xff, 8 - r) | Ones(r + xtra) else Shl(0xff, 8 - r)
  }

  lemma KeepMaskLit(w: int, r: int, xtra: int, j: int)
    requires 0 <= r < 8 && 1 <= xtra <= 8 && 0 <= j < 8
    ensures Lit(KeepMask(w, r, xtra), j) <==> j < r || (w == 1 && r + xtra <= j)
  {
    OrLit(Shl(0xff, 8 - r), if w == 1 then Ones(r + xtra) else 0, j);
    ShlLit(0xff, 8 - r, j);
    if j < r {
      ZeroLit(j + 8 - r);
    }
    OnesLit(r + xtra, j);
    ZeroLit(j);
  }

  /** The columns of the first byte: kept before column r (and, in a one-byte row, from
      column r + xtra on), ored with the image's first byte from column r on. */
  lemma RowFirstLit(b: bv8, t0: bv8, w: int, r: int, xtra: int, j: int)
    requires 0 <= r < 8 && 1 <= xtra <= 8 && 0 <= j < 8
    ensures Lit(RowFirst(b, t0, w, r, xtra), j) <==>
            if j < r then Lit(b, j)
            else if w == 1 && r + xtra <= j then Lit(b, j) || Lit(t0, j - r)
            else Lit(t0, j - r)
  {
    AndOrLit(b, KeepMask(w, r, xtra), Shr(t0, r), j);
    KeepMaskLit(w, r, xtra, j);
    ShrLit(t0, r, j);
  }

  lemma RowMidLit(a: bv8, c: bv8, r: int, j: int)
    requires 0 <= r < 8 && 0 <= j < 8
    ensures Lit(RowMid(a, c, r), j) <==> if j < r then Lit(a, j + 8 - r) else Lit(c, j - r)
  {
    ShlOrShrLit(a, c, 8 - r, r, j);
  }

  lemma RowLastLit(v: bv8, save: bv8, r: int, xtra: int, j: int)
    requires 0 <= r < 8 && 1 <= xtra <= 8 && 0 <= j < 8
    ensures Lit(RowLast(v, save, r, xtra), j) <==> Lit(v, j) || (r + xtra <= j && Lit(save, j))
  {
    if r + xtra < 8 {
      OrAndLit(v, save, Ones(r + xtra), j);
      OnesLit(r + xtra, j);
    } else {
      assert RowLast(v, save, r, xtra) == v;
    }
  }

  lemma SpilledLit(b: bv8, n: int, j: int)
    requires 0 <= j < 8
    ensures Lit(Spilled(b, n), j) <==> n <= j && Lit(b, j)
  {
    if n > 0 {
      AndLit(b, Ones(n), j);
      OnesLit(n, j);
    }
  }

  lemma RowSpillLit(b: bv8, tl: bv8, r: int, xtra: int, j: int)
    requires 0 <= r < 8 && 1 <= xtra <= 8 && 0 <= j < 8
    ensures Lit(RowSpill(b, tl, r, xtra), j) <==>
            (r + xtra - 8 <= j && Lit(b, j)) || (j < r && Lit(tl, j + 8 - r))
  {
    SpilledOrLit(b, tl, r + xtra - 8, 8 - r, j);
  }

  lemma SpilledOrLit(b: bv8, tl: bv8, n: int, s: nat, j: int)
    requires 0 <= j < 8
    ensures Lit(Spilled(b, n) | Shl(tl, s), j) <==> (n <= j && Lit(b, j)) || (j + s < 8 && Lit(tl, j + s))
  {
    OrLit(Spilled(b, n), Shl(tl, s), j);
    SpilledLit(b, n, j);
    ShlLit(tl, s, j);
  }

  /** The first byte of a row of one byte. */
  lemma RowFirstOnly(m: seq<bv8>, si0: int, t: seq<bv8>, w: int, r: int, xtra: int, j: int)
    requires 0 <= r < 8 && 1 <= xtra <= 8 && |t| == RowLen(w) == 1 && 0 <= si0 && si0 + 1 < |m|
    requires w == 0 ==> xtra == 8
    requires Padded(t, xtra) && 0 <= j < 8
    ensures RowEffect(m, BlitRow(m, si0, t, w, r, xtra), si0, t, r, xtra, 0, j)
  {
    var b := m[si0];
    var first := RowFirst(b, t[0], w, r, xtra);
    assert BlitRow(m, si0, t, w, r, xtra)[si0] == RowLast(first, b, r, xtra);
    RowLastLit(first, b, r, xtra, j);
    RowFirstLit(b, t[0], w, r, xtra, j);
    if j >= r {
      DivModUnique(j - r, 8, 0, j - r);
    }
  }

  /** The first byte of a longer row. */
  lemma RowFirstOfMany(m: seq<bv8>, si0: int, t: seq<bv8>, w: int, r: int, xtra: int, j: int)
    requires 0 <= r < 8 && 1 <= xtra <= 8 && |t| == RowLen(w) >= 2 && 0 <= si0 && si0 + |t| < |m|
    requires 0 <= j < 8
    ensures RowEffect(m, BlitRow(m, si0, t, w, r, xtra), si0, t, r, xtra, 0, j)
  {
    assert BlitRow(m, si0, t, w, r, xtra)[si0] == RowFirst(m[si0], t[0], w, r, xtra);
    RowFirstLit(m[si0], t[0], w, r, xtra, j);
    if j >= r {
      DivModUnique(j - r, 8, 0, j - r);
    }
  }

  /** The value the row leaves in byte si0 + p, 0 < p < max(W, 1). */
  lemma MidByte(m: seq<bv8>, si0: int, t: seq<bv8>, w: int, r: int, xtra: int, p: int)
    requires 0 <= r < 8 && 1 <= xtra <= 8 && |t| == RowLen(w) && 0 <= si0 && si0 + |t| < |m|
    requires 0 < p < |t|
    ensures BlitRow(m, si0, t, w, r, xtra)[si0 + p] ==
            if p == |t| - 1 then RowLast(RowMid(t[p - 1], t[p], r), m[si0 + p], r, xtra) else RowMid(t[p - 1], t[p], r)
  {
  }

  lemma LastOfLit(t: seq<bv8>, save: bv8, r: int, xtra: int, p: int, j: int)
    requires 0 <= r < 8 && 1 <= xtra <= 8 && 0 < p < |t| && 0 <= j < 8
    ensures Lit(RowLast(RowMid(t[p - 1], t[p], r), save, r, xtra), j) <==>
            (if j < r then Lit(t[p - 1], j + 8 - r) else Lit(t[p], j - r)) || (r + xtra <= j && Lit(save, j))
  {
    var v := RowMid(t[p - 1], t[p], r);
    assert Lit(v, j) <==> if j < r then Lit(t[p - 1], j + 8 - r) else Lit(t[p], j - r) by {
      RowMidLit(t[p - 1], t[p], r, j);
    }
    RowLastLit(v, save, r, xtra, j);
  }

  /** The columns of byte si0 + p, 0 < p < max(W, 1), after the row. */
  lemma MidByteLit(m: seq<bv8>, si0: int, t: seq<bv8>, w: int, r: int, xtra: int, p: int, j: int)
    requires 0 <= r < 8 && 1 <= xtra <= 8 && |t| == RowLen(w) && 0 <= si0 && si0 + |t| < |m|
    requires 0 < p < |t| && 0 <= j < 8
    ensures Lit(BlitRow(m, si0, t, w, r, xtra)[si0 + p], j) <==>
            (if j < r then Lit(t[p - 1], j + 8 - r) else Lit(t[p], j - r)) ||
            (p == |t| - 1 && r + xtra <= j && Lit(m[si0 + p], j))
  {
    MidByte(m, si0, t, w, r, xtra, p);
    if p == |t| - 1 {
      LastOfLit(t, m[si0 + p], r, xtra, p, j);
    } else {
      RowMidLit(t[p - 1], t[p], r, j);
    }
  }

  /** A middle byte, and the last one of a longer row. */
  lemma RowMidEffect(m: seq<bv8>, si0: int, t: seq<bv8>, w: int, r: int, xtra: int, p: int, j: int)
    requires 0 <= r < 8 && 1 <= xtra <= 8 && |t| == RowLen(w) && 0 <= si0 && si0 + |t| < |m|
    requires 0 < p < |t| && Padded(t, xtra) && 0 <= j < 8
    ensures RowEffect(m, BlitRow(m, si0, t, w, r, xtra), si0, t, r, xtra, p, j)
  {
    var n := |t|;
    var last := p == n - 1;
    var res := BlitRow(m, si0, t, w, r, xtra);
    var save := m[si0 + p];
    var a, c := t[p - 1], t[p];
    assert Lit(res[si0 + p], j) <==>
           (if j < r then Lit(a, j + 8 - r) else Lit(c, j - r)) || (last && r + xtra <= j && Lit(save, j)) by {
      MidByteLit(m, si0, t, w, r, xtra, p, j);
    }
    var k := 8 * p + j - r;
    if j < r {
      assert k / 8 == p - 1 && k % 8 == j + 8 - r by { DivModUnique(k, 8, p - 1, j + 8 - r); }
      assert 0 <= k < 8 * (n - 1) + xtra;
    } else {
      assert k / 8 == p && k % 8 == j - r by { DivModUnique(k, 8, p, j - r); }
      if last && r + xtra <= j {
        assert !Lit(c, j - r);
      }
    }
  }

  /** The spill byte si0 + max(W, 1). */
  lemma RowSpillEffect(m: seq<bv8>, si0: int, t: seq<bv8>, w: int, r: int, xtra: int, j: int)
    requires 0 <= r < 8 && 1 <= xtra <= 8 && |t| == RowLen(w) && 0 <= si0 && si0 + |t| < |m|
    requires Padded(t, xtra) && 0 <= j < 8
    ensures RowEffect(m, BlitRow(m, si0, t, w, r, xtra), si0, t, r, xtra, |t|, j)
  {
    var n := |t|;
    assert BlitRow(m, si0, t, w, r, xtra)[si0 + n] == RowSpill(m[si0 + n], t[n - 1], r, xtra);
    RowSpillLit(m[si0 + n], t[n - 1], r, xtra, j);
    var k := 8 * n + j - r;
    if j < r {
      DivModUnique(k, 8, n - 1, j + 8 - r);
    }
  }

  /** Every byte of the row, for a padded row. */
  lemma BlitRowEffect(m: seq<bv8>, si0: int, t: seq<bv8>, w: int, r: int, xtra: int, p: int, j: int)
    requires 0 <= r < 8 && 1 <= xtra <= 8 && |t| == RowLen(w) && 0 <= si0 && si0 + |t| < |m|
    requires w == 0 ==> xtra == 8
    requires Padded(t, xtra) && 0 <= p <= |t| && 0 <= j < 8
    ensures RowEffect(m, BlitRow(m, si0, t, w, r, xtra), si0, t, r, xtra, p, j)
  {
    if p == |t| {
      RowSpillEffect(m, si0, t, w, r, xtra, j);
    } else if p > 0 {
      RowMidEffect(m, si0, t, w, r, xtra, p, j);
    } else if |t| == 1 {
      RowFirstOnly(m, si0, t, w, r, xtra, j);
    } else {
      RowFirstOfMany(m, si0, t, w, r, xtra, j);
    }
  }

  // ------------------------------------------------------- one row, in pixels

  /** Which bytes of the frame lie between byte a of row yl and byte a + n of it, when
      the row's bytes a .. a + n - 1 are inside the row: the row's own, and the first of
      the next row when the image ends at the row's end. */
  lemma RowReach(h: int, yl: int, a: int, n: int, y': int, b: int)
    requires h > 0 && 0 <= a && 1 <= n && a + n <= h && 0 <= b < h && 0 <= yl && 0 <= y'
    ensures yl * h + a <= y' * h + b <= yl * h + a + n <==>
            (y' == yl && a <= b <= a + n) || (y' == yl + 1 && b == 0 && a + n == h)
  {
    if y' < yl {
      MulMono(y' + 1, yl, h);
      assert (y' + 1) * h == y' * h + h;
    } else if y' == yl + 1 {
      assert y' * h == yl * h + h;
    } else if y' > yl + 1 {
      MulMono(yl + 2, y', h);
      assert (yl + 2) * h == yl * h + 2 * h;
    }
  }

  /** A row that fits the frame's width ends inside its line. */
  lemma RowRoom(g: Geom, x: int, yl: int, n: int, xtra: int)
    requires 0 <= x && 0 <= yl < g.vres && n >= 1 && 1 <= xtra <= 8
    requires x + 8 * (n - 1) + xtra <= g.Width()
    ensures x / 8 + n <= g.hres
    ensures x % 8 + xtra <= 8 * (g.hres - x / 8 - n + 1)
    ensures 0 <= yl * g.hres && yl * g.hres + x / 8 + n <= g.Size()
  {
    MulMono(yl + 1, g.vres, g.hres);
    assert (yl + 1) * g.hres == yl * g.hres + g.hres;
  }

  /** Where a pixel of the bytes a row writes falls in the row: p bytes after the first,
      at image column 8 * p + (px & 7) - r, which is px - x on the row's own line and past
      the image on the next line. */
  lemma InRowColumn(g: Geom, x: int, yl: int, n: int, xtra: int, px: int, py: int)
    requires 0 <= x && 0 <= yl < g.vres && 1 <= xtra <= 8 && n >= 1
    requires x + 8 * (n - 1) + xtra <= g.Width() && InFrame(g, px, py)
    requires yl * g.hres + x / 8 <= Index(g, px, py) <= yl * g.hres + x / 8 + n
    ensures var p := Index(g, px, py) - (yl * g.hres + x / 8);
            var k := 8 * p + px % 8 - x % 8;
            0 <= p <= n &&
            (0 <= k < 8 * (n - 1) + xtra <==> py == yl && x <= px < x + 8 * (n - 1) + xtra) &&
            (py == yl ==> k == px - x)
  {
    var h, r := g.hres, x % 8;
    RowRoom(g, x, yl, n, xtra);
    RowReach(h, yl, x / 8, n, py, px / 8);
    var p := Index(g, px, py) - (yl * h + x / 8);
    if py != yl {
      assert py * h == yl * h + h;
      assert p == n;
    } else {
      assert p == px / 8 - x / 8;
    }
  }

  /** A pixel in one of the bytes the row writes. */
  lemma InRowPixel(g: Geom, m: seq<bv8>, res: seq<bv8>, x: int, yl: int, t: seq<bv8>, xtra: int, px: int, py: int)
    requires Shaped(g, m) && |res| == |m| && 0 <= x && 0 <= yl < g.vres && 1 <= xtra <= 8 && |t| >= 1
    requires x + 8 * (|t| - 1) + xtra <= g.Width() && InFrame(g, px, py)
    requires yl * g.hres + x / 8 + |t| < |m|
    requires yl * g.hres + x / 8 <= Index(g, px, py) <= yl * g.hres + x / 8 + |t|
    requires RowEffect(m, res, yl * g.hres + x / 8, t, x % 8, xtra, Index(g, px, py) - (yl * g.hres + x / 8), px % 8)
    ensures 0 <= Index(g, px, py) < |m|
    ensures Lit(res[Index(g, px, py)], px % 8) <==>
            if py == yl && x <= px < x + 8 * (|t| - 1) + xtra then ImageBit(t, px - x)
            else Lit(m[Index(g, px, py)], px % 8)
  {
    var si0 := yl * g.hres + x / 8;
    var idx := Index(g, px, py);
    var p := idx - si0;
    InRowColumn(g, x, yl, |t|, xtra, px, py);
    assert si0 + p == idx;
  }

  /** A pixel outside the bytes the row writes is not one of the image's. */
  lemma OutRowPixel(g: Geom, x: int, yl: int, n: int, xtra: int, px: int, py: int)
    requires 0 <= x && 0 <= yl < g.vres && 1 <= xtra <= 8 && n >= 1
    requires x + 8 * (n - 1) + xtra <= g.Width() && InFrame(g, px, py)
    requires !(yl * g.hres + x / 8 <= Index(g, px, py) <= yl * g.hres + x / 8 + n)
    ensures !(py == yl && x <= px < x + 8 * (n - 1) + xtra)
  {
    RowRoom(g, x, yl, n, xtra);
    RowReach(g.hres, yl, x / 8, n, py, px / 8);
  }

  /** The pixels one row of a padded image leaves: image column X - x on line yl for
      x <= X < x + 8 * (max(W, 1) - 1) + xtra, every other pixel as before. */
  lemma BlitRowPixels(g: Geom, m: seq<bv8>, x: int, yl: int, t: seq<bv8>, w: int, xtra: int, px: int, py: int)
    requires Shaped(g, m) && 0 <= x && 0 <= yl < g.vres
    requires 1 <= xtra <= 8 && |t| == RowLen(w) && (w == 0 ==> xtra == 8) && Padded(t, xtra)
    requires x + 8 * (|t| - 1) + xtra <= g.Width() && InFrame(g, px, py)
    ensures yl * g.hres + x / 8 + |t| < |m|
    ensures var res := BlitRow(m, yl * g.hres + x / 8, t, w, x % 8, xtra);
            Shaped(g, res) &&
            (Pixel(g, res, px, py) <==>
              if py == yl && x <= px < x + 8 * (|t| - 1) + xtra then ImageBit(t, px - x)
              else Pixel(g, m, px, py))
  {
    var n, r := |t|, x % 8;
    RowRoom(g, x, yl, n, xtra);
    var si0 := yl * g.hres + x / 8;
    var res := BlitRow(m, si0, t, w, r, xtra);
    IndexBound(g, px, py);
    var idx := Index(g, px, py);
    if si0 <= idx <= si0 + n {
      BlitRowEffect(m, si0, t, w, r, xtra, idx - si0, px % 8);
      InRowPixel(g, m, res, x, yl, t, xtra, px, py);
    } else {
      OutRowPixel(g, x, yl, n, xtra, px, py);
      assert res[idx] == m[idx];
    }
  }

  /** The spill byte keeps its columns when the image ends inside the row's last byte. */
  lemma SpillKept(m: seq<bv8>, res: seq<bv8>, si0: int, t: seq<bv8>, r: int, xtra: int, j: int)
    requires 0 <= r < 8 && 1 <= xtra <= 8 && |t| >= 1 && 0 <= si0 && si0 + |t| < |m| == |res|
    requires r + xtra <= 8 && 0 <= j < 8
    requires RowEffect(m, res, si0, t, r, xtra, |t|, j)
    ensures Lit(res[si0 + |t|], j) <==> Lit(m[si0 + |t|], j)
  {
  }

  /** A row whose spill byte is the byte past the frame ends at the frame's last column. */
  lemma SpillAtGuard(g: Geom, x: int, yl: int, n: int, xtra: int)
    requires 0 <= x && 0 <= yl < g.vres && n >= 1 && 1 <= xtra <= 8
    requires x + 8 * (n - 1) + xtra <= g.Width()
    requires yl * g.hres + x / 8 + n == g.Size()
    ensures x % 8 + xtra <= 8
  {
    RowRoom(g, x, yl, n, xtra);
    MulMono(yl + 1, g.vres, g.hres);
    assert (yl + 1) * g.hres == yl * g.hres + g.hres;
  }

  /** The byte past the frame keeps its value under a row of a padded image that fits. */
  lemma BlitRowGuard(g: Geom, m: seq<bv8>, x: int, yl: int, t: seq<bv8>, w: int, xtra: int)
    requires Shaped(g, m) && 0 <= x && 0 <= yl < g.vres
    requires 1 <= xtra <= 8 && |t| == RowLen(w) && (w == 0 ==> xtra == 8) && Padded(t, xtra)
    requires x + 8 * (|t| - 1) + xtra <= g.Width()
    ensures yl * g.hres + x / 8 + |t| < |m|
    ensures BlitRow(m, yl * g.hres + x / 8, t, w, x % 8, xtra)[g.Size()] == m[g.Size()]
  {
    var h, n, r := g.hres, |t|, x % 8;
    RowRoom(g, x, yl, n, xtra);
    var si0 := yl * h + x / 8;
    var res := BlitRow(m, si0, t, w, r, xtra);
    if si0 + n == g.Size() {
      SpillAtGuard(g, x, yl, n, xtra);
      var after, before := res[si0 + n], m[si0 + n];
      forall j | 0 <= j < 8 ensures Lit(after, j) <==> Lit(before, j) {
        BlitRowEffect(m, si0, t, w, r, xtra, n, j);
        SpillKept(m, res, si0, t, r, xtra, j);
      }
      ByteExt(after, before);
    }
  }

  // ---------------------------------------------------------------- the image

  /** The geometry of one call once the header is read: the image's rows start at
      start, each n = max(W, 1) bytes long, with xtra columns used in the last byte. */
  datatype Plan = Plan(start: int, lines: int, w: int, n: nat, xtra: int)

  function PlanOf(bmp: seq<bv8>, i: U16, width: U16, lines: U16): (p: Plan)
    requires HeaderFits(bmp, i, width, lines)
    ensures 1 <= p.xtra <= 8 && p.n == RowLen(p.w) && 0 <= p.lines < 0x1_0000 && i <= p.start
  {
    var h := ReadHeader(bmp, i, width, lines);
    var (w, xtra) := Layout(h.width);
    LayoutCovers(h.width);
    Plan(h.start, h.lines, w, RowLen(w), xtra)
  }

  /** Row l's first frame byte: (y + l) * _hres + x / 8. */
  function RowAt(g: Geom, x: int, y: int, l: int): int {
    (y + l) * g.hres + x / 8
  }

  /** The bytes each row reads and writes lie in the image and in the memory: bitmap does
      no bounds check. Its row counter is a uint8_t, so more than 255 lines never ends. */
  predicate BitmapFits(g: Geom, s: seq<bv8>, x: U16, y: U16, bmp: seq<bv8>, i: U16, width: U16, lines: U16) {
    HeaderFits(bmp, i, width, lines) &&
    var p := PlanOf(bmp, i, width, lines);
    p.lines <= 0xff && p.start + p.lines * p.n <= |bmp| &&
    (p.lines > 0 ==> RowAt(g, x, y, p.lines - 1) + p.n < |s|)
  }

  /** Rows l .. lines - 1 blitted in order; the uint8_t row counter ends only for at most
      255 lines. */
  function BlitRows(g: Geom, s: seq<bv8>, x: int, y: int, bmp: seq<bv8>, p: Plan, l: int): (r: seq<bv8>)
    requires 0 <= x && 0 <= y && 0 <= l && 1 <= p.xtra <= 8 && p.n == RowLen(p.w) && 0 <= p.start
    requires p.lines <= 0xff
    requires p.start + p.lines * p.n <= |bmp|
    requires p.lines > l ==> RowAt(g, x, y, p.lines - 1) + p.n < |s|
    ensures |r| == |s|
    decreases p.lines - l
  {
    if l >= p.lines then s
    else
      RowsBelow(g, x, y, l, p.lines - 1);
      MulMono(l + 1, p.lines, p.n);
      var t := ImageRow(bmp, p.start, p.n, l);
      BlitRows(g, BlitRow(s, RowAt(g, x, y, l), t, p.w, x % 8, p.xtra), x, y, bmp, p, l + 1)
  }

  /** One row of BlitRows: row l, the p.n image bytes from k = p.start + l * p.n, blitted
      at si = RowAt(l), then the rows after it. */
  lemma BlitRowsNext(g: Geom, s: seq<bv8>, x: int, y: int, bmp: seq<bv8>, p: Plan, l: int, si: int, k: int)
    requires 0 <= x && 0 <= y && 0 <= l < p.lines && 1 <= p.xtra <= 8 && p.n == RowLen(p.w) && 0 <= p.start
    requires p.lines <= 0xff && p.start + p.lines * p.n <= |bmp|
    requires RowAt(g, x, y, p.lines - 1) + p.n < |s|
    requires si == RowAt(g, x, y, l) && k == p.start + l * p.n
    ensures 0 <= si && si + p.n < |s|
    ensures 0 <= k && k + p.n <= |bmp| && k + p.n == p.start + (l + 1) * p.n
    ensures BlitRows(g, s, x, y, bmp, p, l) ==
            BlitRows(g, BlitRow(s, si, bmp[k .. k + p.n], p.w, x % 8, p.xtra), x, y, bmp, p, l + 1)
  {
    RowsBelow(g, x, y, l, p.lines - 1);
    MulMono(l + 1, p.lines, p.n);
    MulMono(0, y + l, g.hres);
    assert (l + 1) * p.n == l * p.n + p.n;
  }

  /** Later rows start further on. */
  lemma RowsBelow(g: Geom, x: int, y: int, l: int, l': int)
    requires 0 <= y && l <= l'
    ensures RowAt(g, x, y, l) <= RowAt(g, x, y, l')
  {
    MulMono(y + l, y + l', g.hres);
  }

  /** bitmap(x, y, bmp, i, width, lines) (TTVout.cpp:343-392). */
  function Bitmap(g: Geom, s: seq<bv8>, x: U16, y: U16, bmp: seq<bv8>, i: U16, width: U16, lines: U16): (r: seq<bv8>)
    requires BitmapFits(g, s, x, y, bmp, i, width, lines)
    ensures |r| == |s|
  {
    BlitRows(g, s, x, y, bmp, PlanOf(bmp, i, width, lines), 0)
  }

  /** The padding columns of every row's last byte are 0. */
  predicate ImagePadded(bmp: seq<bv8>, p: Plan) {
    forall l :: 0 <= l < p.lines && 0 <= p.start + l * p.n + p.n - 1 < |bmp| ==>
      PaddedByte(bmp[p.start + l * p.n + p.n - 1], p.xtra)
  }

  /** Column k of image row l. */
  predicate ImagePixel(bmp: seq<bv8>, p: Plan, l: int, k: int)
    requires 0 <= p.start && p.start + p.lines * p.n <= |bmp| && 0 <= l < p.lines && 0 <= k < 8 * p.n
  {
    MulMono(l + 1, p.lines, p.n);
    ImageBit(ImageRow(bmp, p.start, p.n, l), k)
  }

  /** The assumptions under which a padded image's rows fit the frame. */
  predicate RowsInFrame(g: Geom, s: seq<bv8>, x: int, y: int, bmp: seq<bv8>, p: Plan) {
    Shaped(g, s) && 0 <= x && 0 <= y && 1 <= p.xtra <= 8 && p.n == RowLen(p.w) && 0 <= p.start &&
    p.lines <= 0xff &&
    p.start + p.lines * p.n <= |bmp| && (p.w == 0 ==> p.xtra == 8) && ImagePadded(bmp, p) &&
    x + 8 * (p.n - 1) + p.xtra <= g.Width() && y + p.lines <= g.vres
  }

  /** One row of BlitRows: row l painted onto s gives s1, which still meets the
      assumptions and keeps the byte past the frame, and the rest of the rows start
      from s1. */
  lemma BlitRowsStepFrame(g: Geom, s: seq<bv8>, x: int, y: int, bmp: seq<bv8>, p: Plan, l: int)
    requires RowsInFrame(g, s, x, y, bmp, p) && 0 <= l < p.lines
    ensures RowAt(g, x, y, p.lines - 1) + p.n < |s|
    ensures 0 <= RowAt(g, x, y, l) && RowAt(g, x, y, l) + p.n < |s| && p.start + (l + 1) * p.n <= |bmp|
    ensures Padded(ImageRow(bmp, p.start, p.n, l), p.xtra)
    ensures var s1 := BlitRow(s, RowAt(g, x, y, l), ImageRow(bmp, p.start, p.n, l), p.w, x % 8, p.xtra);
            RowsInFrame(g, s1, x, y, bmp, p) && s1[g.Size()] == s[g.Size()] &&
            BlitRows(g, s, x, y, bmp, p, l) == BlitRows(g, s1, x, y, bmp, p, l + 1)
  {
    RowsRoom(g, x, y, l, p.lines, p.n, p.xtra);
    MulMono(l + 1, p.lines, p.n);
    ImageRowPadded(bmp, p, l);
    BlitRowGuard(g, s, x, y + l, ImageRow(bmp, p.start, p.n, l), p.w, p.xtra);
  }

  /** Row l of a padded image is padded. */
  lemma ImageRowPadded(bmp: seq<bv8>, p: Plan, l: int)
    requires ImagePadded(bmp, p) && 0 <= p.start && 0 <= l < p.lines && p.n >= 1
    requires p.start + (l + 1) * p.n <= |bmp|
    ensures Padded(ImageRow(bmp, p.start, p.n, l), p.xtra)
  {
    assert p.start + l * p.n + p.n - 1 < |bmp|;
  }

  /** One row of BlitRows: row l painted onto s gives s1, with the pixels of line y + l
      from the image, and the rest of the rows start from s1. */
  lemma BlitRowsStep(g: Geom, s: seq<bv8>, x: int, y: int, bmp: seq<bv8>, p: Plan, l: int, px: int, py: int)
    requires RowsInFrame(g, s, x, y, bmp, p) && 0 <= l < p.lines && InFrame(g, px, py)
    ensures RowAt(g, x, y, p.lines - 1) + p.n < |s|
    ensures 0 <= RowAt(g, x, y, l) && RowAt(g, x, y, l) + p.n < |s| && p.start + (l + 1) * p.n <= |bmp|
    ensures var s1 := BlitRow(s, RowAt(g, x, y, l), ImageRow(bmp, p.start, p.n, l), p.w, x % 8, p.xtra);
            RowsInFrame(g, s1, x, y, bmp, p) && s1[g.Size()] == s[g.Size()] &&
            BlitRows(g, s, x, y, bmp, p, l) == BlitRows(g, s1, x, y, bmp, p, l + 1) &&
            (Pixel(g, s1, px, py) <==>
              if py == y + l && x <= px < x + 8 * (p.n - 1) + p.xtra then ImagePixel(bmp, p, l, px - x)
              else Pixel(g, s, px, py))
  {
    BlitRowsStepFrame(g, s, x, y, bmp, p, l);
    var t := ImageRow(bmp, p.start, p.n, l);
    assert RowAt(g, x, y, l) == (y + l) * g.hres + x / 8;
    BlitRowPixels(g, s, x, y + l, t, p.w, p.xtra, px, py);
    if py == y + l && x <= px < x + 8 * (p.n - 1) + p.xtra {
      assert ImagePixel(bmp, p, l, px - x) == ImageBit(t, px - x);
    }
  }

  /** Row l's bytes, the spill byte included, lie in the memory, as do the last row's. */
  lemma RowsRoom(g: Geom, x: int, y: int, l: int, lines: int, n: int, xtra: int)
    requires 0 <= x && 0 <= y && 0 <= l < lines && n >= 1 && 1 <= xtra <= 8
    requires x + 8 * (n - 1) + xtra <= g.Width() && y + lines <= g.vres
    ensures 0 <= RowAt(g, x, y, l) && RowAt(g, x, y, l) + n <= RowAt(g, x, y, lines - 1) + n <= g.Size()
  {
    RowRoom(g, x, y + (lines - 1), n, xtra);
    RowsBelow(g, x, y, l, lines - 1);
    MulMono(0, y + l, g.hres);
  }

  /** The rows of a padded image that fit the frame set pixel (x + k, y + l) to column k of
      image row l, keep every other pixel and the byte past the frame. */
  lemma {:induction false} BlitRowsPixels(g: Geom, s: seq<bv8>, x: int, y: int, bmp: seq<bv8>, p: Plan, l: int, px: int, py: int)
    requires RowsInFrame(g, s, x, y, bmp, p) && 0 <= l && InFrame(g, px, py)
    decreases p.lines - l
    ensures p.lines > l ==> RowAt(g, x, y, p.lines - 1) + p.n < |s|
    ensures var r := BlitRows(g, s, x, y, bmp, p, l);
            Shaped(g, r) && r[g.Size()] == s[g.Size()] &&
            (Pixel(g, r, px, py) <==>
              if y + l <= py < y + p.lines && x <= px < x + 8 * (p.n - 1) + p.xtra then
                ImagePixel(bmp, p, py - y, px - x)
              else Pixel(g, s, px, py))
  {
    if l < p.lines {
      BlitRowsStep(g, s, x, y, bmp, p, l, px, py);
      var s1 := BlitRow(s, RowAt(g, x, y, l), ImageRow(bmp, p.start, p.n, l), p.w, x % 8, p.xtra);
      BlitRowsPixels(g, s1, x, y, bmp, p, l + 1, px, py);
    }
  }

  /** bitmap with a padded image that fits the frame: pixel (x + k, y + l) becomes column k
      of image row l for k below the width (8 when the width is 0), and nothing else changes,
      not even the byte past the frame. */
  lemma BitmapPixels(g: Geom, s: seq<bv8>, x: U16, y: U16, bmp: seq<bv8>, i: U16, width: U16, lines: U16, px: int, py: int)
    requires Shaped(g, s) && BitmapFits(g, s, x, y, bmp, i, width, lines) && InFrame(g, px, py)
    requires var p := PlanOf(bmp, i, width, lines);
             ImagePadded(bmp, p) && x + Columns(ReadHeader(bmp, i, width, lines).width) <= g.Width() &&
             y + p.lines <= g.vres
    ensures var p := PlanOf(bmp, i, width, lines);
            var cols := Columns(ReadHeader(bmp, i, width, lines).width);
            var r := Bitmap(g, s, x, y, bmp, i, width, lines);
            Shaped(g, r) && r[g.Size()] == s[g.Size()] &&
            (Pixel(g, r, px, py) <==>
              if y <= py < y + p.lines && x <= px < x + cols then ImagePixel(bmp, p, py - y, px - x)
              else Pixel(g, s, px, py))
  {
    var p := PlanOf(bmp, i, width, lines);
    LayoutCovers(ReadHeader(bmp, i, width, lines).width);
    BlitRowsPixels(g, s, x, y, bmp, p, 0, px, py);
  }
}

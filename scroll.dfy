/** shift(distance, direction) (TTVout.cpp:395-470): UP and DOWN move whole bytes by
    distance * hres through the frame, LEFT and RIGHT move each row's bit stream by
    distance columns, carrying bits across byte boundaries. Each direction is given
    as the memory after the source's walk of `src` and `dst` (the state after t passes of its
    loop, and the final state), next to the move the code evidently intends. */
module Scroll {
  import opened Bits
  import opened Frame

  /** Directions. TTVout.h is not part of this model; the values are TVout's. */
  const UP: U8 := 0
  const DOWN: U8 := 1
  const LEFT: U8 := 2
  const RIGHT: U8 := 3

  /** Row arithmetic: the first byte of the row holding byte k, and its row below vres. */
  lemma RowOf(g: Geom, k: int)
    requires g.hres > 0 && 0 <= k < g.Size()
    ensures 0 <= k - k % g.hres && k - k % g.hres + g.hres <= g.Size()
  {
    var h := g.hres;
    var y := k / h;
    assert k == y * h + k % h;
    if y >= g.vres {
      MulMono(g.vres, y, h);
    }
    MulMono(y + 1, g.vres, h);
    assert (y + 1) * h == y * h + h;
  }

  /** Byte Index(x, y) lies at offset x / 8 of the row starting at y * hres. */
  lemma IndexRow(g: Geom, x: int, y: int)
    requires InFrame(g, x, y)
    ensures g.hres > 0
    ensures Index(g, x, y) % g.hres == x / 8 && Index(g, x, y) - x / 8 == y * g.hres
  {
    DivModUnique(Index(g, x, y), g.hres, y, x / 8);
  }

  /** Row y starts at byte y * hres and fits in the frame; byte m of it is byte y * hres + m. */
  lemma RowStart(g: Geom, y: int, m: int)
    requires 0 <= y < g.vres && 0 <= m < g.hres
    ensures 0 <= y * g.hres && y * g.hres + g.hres <= g.Size()
    ensures (y * g.hres + m) % g.hres == m && (y * g.hres + m) - (y * g.hres + m) % g.hres == y * g.hres
  {
    DivModUnique(y * g.hres + m, g.hres, y, m);
    MulMono(y + 1, g.vres, g.hres);
    assert (y + 1) * g.hres == y * g.hres + g.hres;
  }

  /** Moving a pixel d rows down adds d * hres to its byte; it stays in the frame exactly
      when y + d < vres. */
  lemma RowsApart(g: Geom, x: int, y: int, d: int)
    requires InFrame(g, x, y) && d >= 0
    ensures Index(g, x, y) + d * g.hres == Index(g, x, y + d)
    ensures Index(g, x, y) + d * g.hres < g.Size() <==> y + d < g.vres
  {
    assert (y + d) * g.hres == y * g.hres + d * g.hres;
    RowMajor(g.hres, y + d, x / 8, g.vres, 0);
  }

  // ---------------------------------------------------------------- UP

  /** The memory after t passes of shift(UP)'s loop with stride dd = distance * hres:
      pass t copies byte t + dd to byte t, then zeroes byte t + dd. */
  function UpPartial(s: seq<bv8>, dd: nat, t: nat): (r: seq<bv8>)
    requires t + dd <= |s|
    ensures |r| == |s|
  {
    seq(|s|, k requires 0 <= k < |s| =>
      if k < t && dd > 0 then s[k + dd] else if dd <= k < t + dd then 0 else s[k])
  }

  /** A pass reads byte t + dd before the loop has touched it. */
  lemma UpStep(s: seq<bv8>, dd: nat, t: nat)
    requires t + dd < |s|
    ensures UpPartial(s, dd, t)[t + dd] == s[t + dd]
    ensures UpPartial(s, dd, t + 1) == UpPartial(s, dd, t)[t := s[t + dd]][t + dd := 0]
  {
  }

  /** shift(distance, UP): the loop runs while `src` is inside the frame. */
  function ShiftUp(g: Geom, s: seq<bv8>, d: U8): (r: seq<bv8>)
    requires Shaped(g, s)
    ensures Shaped(g, r)
  {
    var dd := d * g.hres;
    if dd >= g.Size() then s else UpPartial(s, dd, g.Size() - dd)
  }

  /** The evident intent of shift(UP): every byte moves up by distance rows, the rows
      vacated at the bottom are cleared, the byte past the frame is kept. */
  function ShiftUpIntended(g: Geom, s: seq<bv8>, d: U8): (r: seq<bv8>)
    requires Shaped(g, s)
    ensures Shaped(g, r)
  {
    var dd := d * g.hres;
    seq(|s|, k requires 0 <= k < |s| =>
      if k + dd < g.Size() then s[k + dd] else if k < g.Size() then 0 else s[k])
  }

  /** Intended: pixel (x, y) afterwards is pixel (x, y + distance) before, or dark when
      that row is below the frame. */
  lemma ShiftUpIntendedPixels(g: Geom, s: seq<bv8>, d: U8, x: int, y: int)
    requires Shaped(g, s) && InFrame(g, x, y)
    ensures Pixel(g, ShiftUpIntended(g, s, d), x, y) <==> y + d < g.vres && Pixel(g, s, x, y + d)
  {
    var k := Index(g, x, y);
    IndexBound(g, x, y);
    RowsApart(g, x, y, d);
    if y + d >= g.vres {
      ZeroLit(x % 8);
    }
  }

  /** For 0 < distance and 2 * distance <= vres the code does what is intended. */
  lemma ShiftUpAsIntended(g: Geom, s: seq<bv8>, d: U8)
    requires Shaped(g, s) && 0 < d && 2 * d <= g.vres
    ensures ShiftUp(g, s, d) == ShiftUpIntended(g, s, d)
  {
    var dd := d * g.hres;
    assert 2 * dd <= g.Size() by {
      MulMono(2 * d, g.vres, g.hres);
    }
    if g.hres == 0 {
      assert dd == 0 && g.Size() == 0;
    }
  }

  /** A distance of at least vres leaves the memory unchanged. */
  lemma ShiftUpFar(g: Geom, s: seq<bv8>, d: U8)
    requires Shaped(g, s) && d >= g.vres
    ensures ShiftUp(g, s, d) == s
  {
    MulMono(g.vres, d, g.hres);
  }

  /** Distance 0 clears the frame: each pass copies a byte onto itself, then zeroes it. */
  lemma ShiftUpZero(g: Geom, s: seq<bv8>)
    requires Shaped(g, s)
    ensures forall k :: 0 <= k < g.Size() ==> ShiftUp(g, s, 0)[k] == 0
    ensures ShiftUp(g, s, 0)[g.Size()] == s[g.Size()]
    ensures ShiftUpIntended(g, s, 0) == s
  {
  }

  /** Past that limit, with distance * hres below the frame size, byte size - distance * hres
      is neither copied to nor cleared: it keeps its old value where the intended shift
      clears it. */
  lemma ShiftUpLeavesStale(g: Geom, s: seq<bv8>, d: U8)
    requires Shaped(g, s) && d * g.hres < g.Size() && 2 * (d * g.hres) > g.Size()
    ensures 0 <= g.Size() - d * g.hres < g.Size()
    ensures ShiftUp(g, s, d)[g.Size() - d * g.hres] == s[g.Size() - d * g.hres]
    ensures ShiftUpIntended(g, s, d)[g.Size() - d * g.hres] == 0
  {
  }

  /** With vres < 2 * distance rows between the two stay as they were: vres = 3, hres = 1,
      distance 2 turns rows a, b, c into c, b, 0 instead of c, 0, 0. */
  lemma ShiftUpStale()
    ensures var s: seq<bv8> := [0x0a, 0x0b, 0x0c, 0];
            ShiftUp(Geom(1, 3), s, 2) == [0x0c, 0x0b, 0, 0] &&
            ShiftUpIntended(Geom(1, 3), s, 2) == [0x0c, 0, 0, 0]
  {
    var s: seq<bv8> := [0x0a, 0x0b, 0x0c, 0];
    assert ShiftUp(Geom(1, 3), s, 2) == UpPartial(s, 2, 1);
    assert UpPartial(s, 2, 1) == [0x0c, 0x0b, 0, 0];
    assert ShiftUpIntended(Geom(1, 3), s, 2) == [0x0c, 0, 0, 0];
  }

  // ---------------------------------------------------------------- DOWN

  /** The memory after t passes of shift(DOWN)'s loop over a frame of n bytes: pass t
      copies byte n - dd - t to byte n - t, then zeroes byte n - dd - t. The first pass
      writes byte n, the one past the frame. */
  function DownPartial(s: seq<bv8>, n: nat, dd: nat, t: nat): (r: seq<bv8>)
    requires n < |s| && dd <= n && t <= n - dd + 1
    ensures |r| == |s|
  {
    seq(|s|, k requires 0 <= k < |s| =>
      if n - t < k <= n && dd > 0 then s[k - dd]
      else if n - dd - t < k <= n - dd then 0 else s[k])
  }

  /** A pass reads byte n - dd - t before the loop has touched it. */
  lemma DownStep(s: seq<bv8>, n: nat, dd: nat, t: nat)
    requires n < |s| && dd <= n && t <= n - dd
    ensures DownPartial(s, n, dd, t)[n - dd - t] == s[n - dd - t]
    ensures DownPartial(s, n, dd, t + 1) ==
            DownPartial(s, n, dd, t)[n - t := s[n - dd - t]][n - dd - t := 0]
  {
  }

  /** shift(distance, DOWN): the loop runs while `src` is not below the frame. */
  function ShiftDown(g: Geom, s: seq<bv8>, d: U8): (r: seq<bv8>)
    requires Shaped(g, s)
    ensures Shaped(g, r)
  {
    var dd := d * g.hres;
    if dd > g.Size() then s else DownPartial(s, g.Size(), dd, g.Size() - dd + 1)
  }

  /** The evident intent of shift(DOWN): every byte moves down by distance rows, the rows
      vacated at the top are cleared, the byte past the frame is kept. */
  function ShiftDownIntended(g: Geom, s: seq<bv8>, d: U8): (r: seq<bv8>)
    requires Shaped(g, s)
    ensures Shaped(g, r)
  {
    var dd := d * g.hres;
    seq(|s|, k requires 0 <= k < |s| =>
      if k >= g.Size() then s[k] else if k >= dd then s[k - dd] else 0)
  }

  /** Intended: the byte of pixel (x, y) afterwards is the byte of pixel (x, y - distance)
      before, or 0 when that row is above the frame. */
  lemma ShiftDownIntendedByte(g: Geom, s: seq<bv8>, d: U8, x: int, y: int)
    requires Shaped(g, s) && InFrame(g, x, y)
    ensures 0 <= Index(g, x, y) < g.Size()
    ensures y >= d ==> 0 <= Index(g, x, y - d) < g.Size() &&
                       ShiftDownIntended(g, s, d)[Index(g, x, y)] == s[Index(g, x, y - d)]
    ensures y < d ==> ShiftDownIntended(g, s, d)[Index(g, x, y)] == 0
  {
    IndexBound(g, x, y);
    if y >= d {
      IndexBound(g, x, y - d);
      RowsApart(g, x, y - d, d);
    } else {
      MulMono(y + 1, d, g.hres);
      assert (y + 1) * g.hres == y * g.hres + g.hres;
    }
  }

  /** Intended: pixel (x, y) afterwards is pixel (x, y - distance) before, or dark when
      that row is above the frame. */
  lemma ShiftDownIntendedPixels(g: Geom, s: seq<bv8>, d: U8, x: int, y: int)
    requires Shaped(g, s) && InFrame(g, x, y)
    ensures Pixel(g, ShiftDownIntended(g, s, d), x, y) <==> y >= d && Pixel(g, s, x, y - d)
  {
    ShiftDownIntendedByte(g, s, d, x, y);
    if y < d {
      ZeroLit(x % 8);
    }
  }

  /** While 2 * distance * hres <= size + 1 the frame gets what is intended, and the byte
      past the frame receives the first byte of the row pushed out. */
  lemma ShiftDownAsIntended(g: Geom, s: seq<bv8>, d: U8)
    requires Shaped(g, s) && 0 < d && g.hres > 0 && 2 * (d * g.hres) <= g.Size() + 1
    ensures d * g.hres <= g.Size()
    ensures ShiftDown(g, s, d) == ShiftDownIntended(g, s, d)[g.Size() := s[g.Size() - d * g.hres]]
  {
    MulMono(1, d, g.hres);
  }

  /** Past that limit byte distance * hres - 1 is neither copied to nor cleared: it keeps
      its old value where the intended shift clears it. */
  lemma ShiftDownLeavesStale(g: Geom, s: seq<bv8>, d: U8)
    requires Shaped(g, s) && d * g.hres <= g.Size() && 2 * (d * g.hres) > g.Size() + 1
    ensures 0 <= d * g.hres - 1 < g.Size()
    ensures ShiftDown(g, s, d)[d * g.hres - 1] == s[d * g.hres - 1]
    ensures ShiftDownIntended(g, s, d)[d * g.hres - 1] == 0
  {
  }

  /** A distance beyond vres leaves the memory unchanged. */
  lemma ShiftDownFar(g: Geom, s: seq<bv8>, d: U8)
    requires Shaped(g, s) && d > g.vres && g.hres > 0
    ensures ShiftDown(g, s, d) == s
  {
    MulMono(g.vres + 1, d, g.hres);
    assert (g.vres + 1) * g.hres == g.Size() + g.hres;
  }

  /** Distance 0 clears the frame and the byte past it. */
  lemma ShiftDownZero(g: Geom, s: seq<bv8>)
    requires Shaped(g, s)
    ensures forall k :: 0 <= k < |s| ==> ShiftDown(g, s, 0)[k] == 0
    ensures ShiftDownIntended(g, s, 0) == s
  {
  }

  /** shift(DOWN) writes the byte past the frame: hres = 1, vres = 1, distance 1. */
  lemma ShiftDownOverruns()
    ensures var s: seq<bv8> := [0x0a, 0];
            ShiftDown(Geom(1, 1), s, 1) == [0, 0x0a] &&
            ShiftDownIntended(Geom(1, 1), s, 1) == [0, 0]
  {
    var s: seq<bv8> := [0x0a, 0];
    assert ShiftDown(Geom(1, 1), s, 1) == DownPartial(s, 1, 1, 1);
    assert DownPartial(s, 1, 1, 1) == [0, 0x0a];
    assert ShiftDownIntended(Geom(1, 1), s, 1) == [0, 0];
  }

  /** With 2 * distance * hres > frame size + 1 bytes between the two stay as they were:
      hres = 2, vres = 3, distance 2 leaves byte 3 (row 1) unchanged instead of clearing it. */
  lemma ShiftDownStale()
    ensures var s: seq<bv8> := [1, 2, 3, 4, 5, 6, 0];
            ShiftDown(Geom(2, 3), s, 2) == [0, 0, 0, 4, 1, 2, 3] &&
            ShiftDownIntended(Geom(2, 3), s, 2) == [0, 0, 0, 0, 1, 2, 0]
  {
    var s: seq<bv8> := [1, 2, 3, 4, 5, 6, 0];
    assert ShiftDown(Geom(2, 3), s, 2) == DownPartial(s, 6, 4, 3);
    assert DownPartial(s, 6, 4, 3) == [0, 0, 0, 4, 1, 2, 3];
    assert ShiftDownIntended(Geom(2, 3), s, 2) == [0, 0, 0, 0, 1, 2, 0];
  }

  // ---------------------------------------------------------------- LEFT

  /** The parameters of a horizontal shift: q = distance / 8 whole bytes, sh = distance & 7
      bits, within a row of h bytes starting at base. */
  predicate RowShift(s: seq<bv8>, base: int, h: int, q: int, sh: int) {
    0 <= q < h && 0 <= sh < 8 && 0 <= base && base + h <= |s|
  }

  /** Row byte m after t passes of shift(LEFT)'s inner loop: pass t builds byte t from bytes
      q + t and q + t + 1, zeroing byte q + t first. */
  function LeftPartial(s: seq<bv8>, base: int, h: int, q: int, sh: int, t: int, m: int): bv8
    requires RowShift(s, base, h, q, sh) && 0 <= t <= h - 1 - q && 0 <= m < h
  {
    if m < t then Shl(s[base + m + q], sh) | Shr(s[base + m + q + 1], 8 - sh)
    else if q <= m < q + t then 0
    else s[base + m]
  }

  /** Row byte m after the whole row: the h - 1 - q passes, then byte h - 1 - q takes the
      last byte shifted and the last byte is zeroed. */
  function LeftByte(s: seq<bv8>, base: int, h: int, q: int, sh: int, m: int): bv8
    requires RowShift(s, base, h, q, sh) && 0 <= m < h
  {
    var last := h - 1 - q;
    if m < last then Shl(s[base + m + q], sh) | Shr(s[base + m + q + 1], 8 - sh)
    else if m == last then Shl(s[base + h - 1], sh)
    else if m >= q then 0
    else s[base + m]
  }

  /** The passes read bytes the loop has not touched yet, and build the row step by step. */
  lemma LeftStep(s: seq<bv8>, base: int, h: int, q: int, sh: int, t: int, m: int)
    requires RowShift(s, base, h, q, sh) && 0 <= t < h - 1 - q && 0 <= m < h
    ensures LeftPartial(s, base, h, q, sh, t, q + t) == s[base + q + t]
    ensures LeftPartial(s, base, h, q, sh, t, q + t + 1) == s[base + q + t + 1]
    ensures LeftPartial(s, base, h, q, sh, t + 1, m) ==
            if m == t then Shl(s[base + q + t], sh) | Shr(s[base + q + t + 1], 8 - sh)
            else if m == q + t then 0
            else LeftPartial(s, base, h, q, sh, t, m)
  {
  }

  /** The tail of the row: after the passes, the last byte is read, zeroed, and its
      shifted value written to byte h - 1 - q. */
  lemma LeftTail(s: seq<bv8>, base: int, h: int, q: int, sh: int, m: int)
    requires RowShift(s, base, h, q, sh) && 0 <= m < h
    ensures LeftPartial(s, base, h, q, sh, h - 1 - q, h - 1) == s[base + h - 1]
    ensures LeftByte(s, base, h, q, sh, m) ==
            if m == h - 1 - q then Shl(s[base + h - 1], sh)
            else if m == h - 1 then 0
            else LeftPartial(s, base, h, q, sh, h - 1 - q, m)
  {
  }

  /** shift(distance, LEFT) for distance / 8 < hres; the byte past the frame is kept. */
  function ShiftLeft(g: Geom, s: seq<bv8>, d: U8): (r: seq<bv8>)
    requires Shaped(g, s) && d / 8 < g.hres && g.vres <= 0xff
    ensures Shaped(g, r)
  {
    seq(|s|, k requires 0 <= k < |s| =>
      if k < g.Size() then
        RowOf(g, k);
        LeftByte(s, k - k % g.hres, g.hres, d / 8, d % 8, k % g.hres)
      else s[k])
  }

  /** The memory after t passes of the inner loop on the row at base: the row's bytes as
      LeftPartial gives them, every other byte as before. */
  function LeftRowPartial(s: seq<bv8>, base: int, h: int, q: int, sh: int, t: int): (r: seq<bv8>)
    requires RowShift(s, base, h, q, sh) && 0 <= t <= h - 1 - q
    ensures |r| == |s|
  {
    seq(|s|, k requires 0 <= k < |s| =>
      if base <= k < base + h then LeftPartial(s, base, h, q, sh, t, k - base) else s[k])
  }

  /** The memory after the whole row at base. */
  function LeftRow(s: seq<bv8>, base: int, h: int, q: int, sh: int): (r: seq<bv8>)
    requires RowShift(s, base, h, q, sh)
    ensures |r| == |s|
  {
    seq(|s|, k requires 0 <= k < |s| =>
      if base <= k < base + h then LeftByte(s, base, h, q, sh, k - base) else s[k])
  }

  /** Before the first pass the memory is as it was. */
  lemma LeftRowStart(s: seq<bv8>, base: int, h: int, q: int, sh: int)
    requires RowShift(s, base, h, q, sh)
    ensures LeftRowPartial(s, base, h, q, sh, 0) == s
  {
    var p := LeftRowPartial(s, base, h, q, sh, 0);
    forall k | 0 <= k < |s| ensures p[k] == s[k] {
      if base <= k < base + h {
        assert p[k] == LeftPartial(s, base, h, q, sh, 0, k - base);
      }
    }
  }

  /** Pass t reads bytes q + t and q + t + 1 of the row as they were, zeroes byte q + t
      and then writes byte t. */
  lemma LeftRowStep(s: seq<bv8>, base: int, h: int, q: int, sh: int, t: int)
    requires RowShift(s, base, h, q, sh) && 0 <= t < h - 1 - q
    ensures var p := LeftRowPartial(s, base, h, q, sh, t);
            p[base + q + t] == s[base + q + t] && p[base + q + t + 1] == s[base + q + t + 1] &&
            LeftRowPartial(s, base, h, q, sh, t + 1) ==
              p[base + q + t := 0][base + t := Shl(s[base + q + t], sh) | Shr(s[base + q + t + 1], 8 - sh)]
  {
    LeftStep(s, base, h, q, sh, t, 0);
    var p := LeftRowPartial(s, base, h, q, sh, t);
    var a := LeftRowPartial(s, base, h, q, sh, t + 1);
    var b := p[base + q + t := 0][base + t := Shl(s[base + q + t], sh) | Shr(s[base + q + t + 1], 8 - sh)];
    forall k | 0 <= k < |s| ensures a[k] == b[k] {
      LeftRowStepAt(s, base, h, q, sh, t, k);
    }
  }

  lemma LeftRowStepAt(s: seq<bv8>, base: int, h: int, q: int, sh: int, t: int, k: int)
    requires RowShift(s, base, h, q, sh) && 0 <= t < h - 1 - q && 0 <= k < |s|
    ensures var p := LeftRowPartial(s, base, h, q, sh, t);
            LeftRowPartial(s, base, h, q, sh, t + 1)[k] ==
              p[base + q + t := 0][base + t := Shl(s[base + q + t], sh) | Shr(s[base + q + t + 1], 8 - sh)][k]
  {
    if base <= k < base + h {
      LeftStep(s, base, h, q, sh, t, k - base);
    }
  }

  /** After the passes the row's last byte is read as it was, zeroed, and its shifted value
      written to byte h - 1 - q. */
  lemma LeftRowEnd(s: seq<bv8>, base: int, h: int, q: int, sh: int)
    requires RowShift(s, base, h, q, sh)
    ensures var p := LeftRowPartial(s, base, h, q, sh, h - 1 - q);
            p[base + h - 1] == s[base + h - 1] &&
            LeftRow(s, base, h, q, sh) == p[base + h - 1 := 0][base + h - 1 - q := Shl(s[base + h - 1], sh)]
  {
    var p := LeftRowPartial(s, base, h, q, sh, h - 1 - q);
    var a := LeftRow(s, base, h, q, sh);
    var b := p[base + h - 1 := 0][base + h - 1 - q := Shl(s[base + h - 1], sh)];
    LeftTail(s, base, h, q, sh, 0);
    forall k | 0 <= k < |s| ensures a[k] == b[k] {
      if base <= k < base + h {
        LeftTail(s, base, h, q, sh, k - base);
      }
    }
  }

  /** The memory after the first n rows of shift(LEFT). */
  function LeftRows(g: Geom, s: seq<bv8>, d: U8, n: int): (r: seq<bv8>)
    requires Shaped(g, s) && d / 8 < g.hres && g.vres <= 0xff && 0 <= n
    ensures |r| == |s|
  {
    var r := ShiftLeft(g, s, d);
    seq(|s|, k requires 0 <= k < |s| => if k < n * g.hres then r[k] else s[k])
  }

  /** No rows done is the memory as it was; all vres rows is shift(LEFT). */
  lemma LeftRowsEnds(g: Geom, s: seq<bv8>, d: U8)
    requires Shaped(g, s) && d / 8 < g.hres && g.vres <= 0xff
    ensures LeftRows(g, s, d, 0) == s && LeftRows(g, s, d, g.vres) == ShiftLeft(g, s, d)
  {
  }

  /** Row n of the loop works on bytes no earlier row has touched. */
  lemma LeftRowsStep(g: Geom, s: seq<bv8>, d: U8, n: int)
    requires Shaped(g, s) && d / 8 < g.hres && g.vres <= 0xff && 0 <= n < g.vres
    ensures RowShift(LeftRows(g, s, d, n), n * g.hres, g.hres, d / 8, d % 8)
    ensures LeftRows(g, s, d, n + 1) == LeftRow(LeftRows(g, s, d, n), n * g.hres, g.hres, d / 8, d % 8)
  {
    RowStart(g, n, 0);
    forall k | 0 <= k < |s| {
      LeftRowsAt(g, s, d, n, k);
    }
  }

  lemma LeftRowsAt(g: Geom, s: seq<bv8>, d: U8, n: int, k: int)
    requires Shaped(g, s) && d / 8 < g.hres && g.vres <= 0xff && 0 <= n < g.vres && 0 <= k < |s|
    ensures RowShift(LeftRows(g, s, d, n), n * g.hres, g.hres, d / 8, d % 8)
    ensures LeftRows(g, s, d, n + 1)[k] == LeftRow(LeftRows(g, s, d, n), n * g.hres, g.hres, d / 8, d % 8)[k]
  {
    var h, q, sh := g.hres, d / 8, d % 8;
    var base := n * h;
    RowStart(g, n, 0);
    assert (n + 1) * h == base + h;
    if base <= k < base + h {
      LeftRowByte(g, s, d, n, k - base);
      var p := LeftRows(g, s, d, n);
      LeftByteFrame(p, s, base, h, q, sh, k - base);
    }
  }

  /** LeftByte reads only the row. */
  lemma LeftByteFrame(p: seq<bv8>, s: seq<bv8>, base: int, h: int, q: int, sh: int, m: int)
    requires RowShift(s, base, h, q, sh) && |p| == |s| && 0 <= m < h
    requires forall k :: base <= k < base + h ==> p[k] == s[k]
    ensures LeftByte(p, base, h, q, sh, m) == LeftByte(s, base, h, q, sh, m)
  {
    var last := h - 1 - q;
    if m < last {
      assert p[base + m + q] == s[base + m + q] && p[base + m + q + 1] == s[base + m + q + 1];
    } else if m == last {
      assert p[base + h - 1] == s[base + h - 1];
    } else if m < q {
      assert p[base + m] == s[base + m];
    }
  }

  /** Byte m of row n after shift(LEFT) is LeftByte of that row. */
  lemma LeftRowByte(g: Geom, s: seq<bv8>, d: U8, n: int, m: int)
    requires Shaped(g, s) && d / 8 < g.hres && g.vres <= 0xff && 0 <= n < g.vres && 0 <= m < g.hres
    ensures 0 <= n * g.hres && n * g.hres + g.hres <= g.Size()
    ensures ShiftLeft(g, s, d)[n * g.hres + m] == LeftByte(s, n * g.hres, g.hres, d / 8, d % 8, m)
  {
    RowStart(g, n, m);
  }

  /** The evident intent of a row byte: the bits distance columns to the right, or dark
      past the end of the row. */
  function LeftByteIntended(s: seq<bv8>, base: int, h: int, q: int, sh: int, m: int): bv8
    requires RowShift(s, base, h, q, sh) && 0 <= m < h
  {
    var last := h - 1 - q;
    if m < last then Shl(s[base + m + q], sh) | Shr(s[base + m + q + 1], 8 - sh)
    else if m == last then Shl(s[base + h - 1], sh)
    else 0
  }

  function ShiftLeftIntended(g: Geom, s: seq<bv8>, d: U8): (r: seq<bv8>)
    requires Shaped(g, s) && d / 8 < g.hres
    ensures Shaped(g, r)
  {
    seq(|s|, k requires 0 <= k < |s| =>
      if k < g.Size() then
        RowOf(g, k);
        LeftByteIntended(s, k - k % g.hres, g.hres, d / 8, d % 8, k % g.hres)
      else s[k])
  }

  /** Column j of row byte m, intended: column j + sh of byte m + q, or column
      j + sh - 8 of byte m + q + 1, dark when that byte is past the row. */
  lemma LeftByteIntendedLit(s: seq<bv8>, base: int, h: int, q: int, sh: int, m: int, j: int)
    requires RowShift(s, base, h, q, sh) && 0 <= m < h && 0 <= j < 8
    ensures j + sh < 8 ==>
            (Lit(LeftByteIntended(s, base, h, q, sh, m), j) <==> m + q < h && Lit(s[base + m + q], j + sh))
    ensures j + sh >= 8 ==>
            (Lit(LeftByteIntended(s, base, h, q, sh, m), j) <==>
             m + q + 1 < h && Lit(s[base + m + q + 1], j + sh - 8))
  {
    var b := LeftByteIntended(s, base, h, q, sh, m);
    if m < h - 1 - q {
      var u, w := s[base + m + q], s[base + m + q + 1];
      assert b == Shl(u, sh) | Shr(w, 8 - sh);
      CarryLeftLit(u, w, sh, j);
    } else if m == h - 1 - q {
      ShlLit(s[base + h - 1], sh, j);
    } else {
      ZeroLit(j);
    }
  }

  /** Pixel (x + distance, y) sits at column j + sh of row byte m + q, or at column
      j + sh - 8 of row byte m + q + 1, where x = 8 * m + j and distance = 8 * q + sh. */
  lemma LeftSource(g: Geom, s: seq<bv8>, d: U8, x: int, y: int)
    requires Shaped(g, s) && d / 8 < g.hres && InFrame(g, x, y)
    ensures var q, sh, m, j := d / 8, d % 8, x / 8, x % 8; var base := y * g.hres;
            RowShift(s, base, g.hres, q, sh) && 0 <= m < g.hres &&
            (j + sh < 8 ==> (x + d < g.Width() && Pixel(g, s, x + d, y) <==>
                             m + q < g.hres && Lit(s[base + m + q], j + sh))) &&
            (j + sh >= 8 ==> (x + d < g.Width() && Pixel(g, s, x + d, y) <==>
                              m + q + 1 < g.hres && Lit(s[base + m + q + 1], j + sh - 8)))
  {
    var q, sh, m, j := d / 8, d % 8, x / 8, x % 8;
    IndexBound(g, x, y);
    RowStart(g, y, m);
    assert x + d == 8 * (m + q) + j + sh;
    if j + sh < 8 {
      DivModUnique(x + d, 8, m + q, j + sh);
    } else {
      DivModUnique(x + d, 8, m + q + 1, j + sh - 8);
    }
    if x + d < g.Width() {
      IndexBound(g, x + d, y);
    }
  }

  /** Pixel (x, y) afterwards is column x % 8 of the row byte x / 8 that LeftByteIntended gives. */
  lemma ShiftLeftIntendedAt(g: Geom, s: seq<bv8>, d: U8, x: int, y: int)
    requires Shaped(g, s) && d / 8 < g.hres && InFrame(g, x, y)
    ensures RowShift(s, y * g.hres, g.hres, d / 8, d % 8) && 0 <= x / 8 < g.hres
    ensures Pixel(g, ShiftLeftIntended(g, s, d), x, y) <==>
            Lit(LeftByteIntended(s, y * g.hres, g.hres, d / 8, d % 8, x / 8), x % 8)
  {
    IndexBound(g, x, y);
    RowStart(g, y, x / 8);
    assert ShiftLeftIntended(g, s, d)[y * g.hres + x / 8] == LeftByteIntended(s, y * g.hres, g.hres, d / 8, d % 8, x / 8);
  }

  /** Intended: pixel (x, y) afterwards is pixel (x + distance, y) before, or dark when
      that column is past the right edge. */
  lemma ShiftLeftIntendedPixels(g: Geom, s: seq<bv8>, d: U8, x: int, y: int)
    requires Shaped(g, s) && d / 8 < g.hres && InFrame(g, x, y)
    ensures Pixel(g, ShiftLeftIntended(g, s, d), x, y) <==>
            x + d < g.Width() && Pixel(g, s, x + d, y)
  {
    ShiftLeftIntendedAt(g, s, d, x, y);
    LeftByteIntendedLit(s, y * g.hres, g.hres, d / 8, d % 8, x / 8, x % 8);
    LeftSource(g, s, d, x, y);
  }

  /** For 2 * (distance / 8) <= hres the code does what is intended. */
  lemma ShiftLeftAsIntended(g: Geom, s: seq<bv8>, d: U8)
    requires Shaped(g, s) && d / 8 < g.hres && g.vres <= 0xff && 2 * (d / 8) <= g.hres
    ensures ShiftLeft(g, s, d) == ShiftLeftIntended(g, s, d)
  {
  }

  /** With 2 * (distance / 8) > hres, byte hres - distance / 8 of every row is neither
      written nor cleared: it keeps its old value where the intended shift clears it. */
  lemma ShiftLeftLeavesStale(g: Geom, s: seq<bv8>, d: U8, y: int)
    requires Shaped(g, s) && d / 8 < g.hres && g.vres <= 0xff && 2 * (d / 8) > g.hres && 0 <= y < g.vres
    ensures 0 <= y * g.hres + g.hres - d / 8 < g.Size()
    ensures ShiftLeft(g, s, d)[y * g.hres + g.hres - d / 8] == s[y * g.hres + g.hres - d / 8]
    ensures ShiftLeftIntended(g, s, d)[y * g.hres + g.hres - d / 8] == 0
  {
    var m := g.hres - d / 8;
    LeftRowByte(g, s, d, y, m);
    RowStart(g, y, m);
  }

  /** With 2 * (distance / 8) > hres bytes in the middle of a row stay as they were:
      hres = 3, distance 16 turns a row a, b, c into c, b, 0 instead of c, 0, 0. */
  lemma ShiftLeftStale()
    ensures var s: seq<bv8> := [0x0a, 0x0b, 0x0c, 0];
            ShiftLeft(Geom(3, 1), s, 16) == [0x0c, 0x0b, 0, 0] &&
            ShiftLeftIntended(Geom(3, 1), s, 16) == [0x0c, 0, 0, 0]
  {
    var s: seq<bv8> := [0x0a, 0x0b, 0x0c, 0];
    var r := ShiftLeft(Geom(3, 1), s, 16);
    assert r[0] == LeftByte(s, 0, 3, 2, 0, 0);
    assert r[1] == LeftByte(s, 0, 3, 2, 0, 1);
    assert r[2] == LeftByte(s, 0, 3, 2, 0, 2);
    var i := ShiftLeftIntended(Geom(3, 1), s, 16);
    assert i[1] == LeftByteIntended(s, 0, 3, 2, 0, 1);
    assert i[2] == LeftByteIntended(s, 0, 3, 2, 0, 2);
  }

  // ---------------------------------------------------------------- RIGHT

  /** Row byte m after t passes of shift(RIGHT)'s inner loop: pass t builds byte h - 1 - t
      from bytes h - 1 - q - t and h - 2 - q - t, zeroing byte h - 1 - q - t first. */
  function RightPartial(s: seq<bv8>, base: int, h: int, q: int, sh: int, t: int, m: int): bv8
    requires RowShift(s, base, h, q, sh) && 0 <= t <= h - 1 - q && 0 <= m < h
  {
    if m > h - 1 - t then Shr(s[base + m - q], sh) | Shl(s[base + m - q - 1], 8 - sh)
    else if h - 1 - q - t < m <= h - 1 - q then 0
    else s[base + m]
  }

  /** Row byte m after the whole row: the passes, then byte q takes the first byte shifted
      and the first byte is zeroed. */
  function RightByte(s: seq<bv8>, base: int, h: int, q: int, sh: int, m: int): bv8
    requires RowShift(s, base, h, q, sh) && 0 <= m < h
  {
    if m > q then Shr(s[base + m - q], sh) | Shl(s[base + m - q - 1], 8 - sh)
    else if m == q then Shr(s[base], sh)
    else if m <= h - 1 - q then 0
    else s[base + m]
  }

  lemma RightStep(s: seq<bv8>, base: int, h: int, q: int, sh: int, t: int, m: int)
    requires RowShift(s, base, h, q, sh) && 0 <= t < h - 1 - q && 0 <= m < h
    ensures RightPartial(s, base, h, q, sh, t, h - 1 - q - t) == s[base + h - 1 - q - t]
    ensures RightPartial(s, base, h, q, sh, t, h - 2 - q - t) == s[base + h - 2 - q - t]
    ensures RightPartial(s, base, h, q, sh, t + 1, m) ==
            if m == h - 1 - t then Shr(s[base + h - 1 - q - t], sh) | Shl(s[base + h - 2 - q - t], 8 - sh)
            else if m == h - 1 - q - t then 0
            else RightPartial(s, base, h, q, sh, t, m)
  {
  }

  lemma RightTail(s: seq<bv8>, base: int, h: int, q: int, sh: int, m: int)
    requires RowShift(s, base, h, q, sh) && 0 <= m < h
    ensures RightPartial(s, base, h, q, sh, h - 1 - q, 0) == s[base]
    ensures RightByte(s, base, h, q, sh, m) ==
            if m == q then Shr(s[base], sh)
            else if m == 0 then 0
            else RightPartial(s, base, h, q, sh, h - 1 - q, m)
  {
  }

  /** shift(distance, RIGHT) for distance / 8 < hres; the byte past the frame is kept. */
  function ShiftRight(g: Geom, s: seq<bv8>, d: U8): (r: seq<bv8>)
    requires Shaped(g, s) && d / 8 < g.hres && g.vres <= 0xff
    ensures Shaped(g, r)
  {
    seq(|s|, k requires 0 <= k < |s| =>
      if k < g.Size() then
        RowOf(g, k);
        RightByte(s, k - k % g.hres, g.hres, d / 8, d % 8, k % g.hres)
      else s[k])
  }

  /** The memory after t passes of the inner loop on the row at base. */
  function RightRowPartial(s: seq<bv8>, base: int, h: int, q: int, sh: int, t: int): (r: seq<bv8>)
    requires RowShift(s, base, h, q, sh) && 0 <= t <= h - 1 - q
    ensures |r| == |s|
  {
    seq(|s|, k requires 0 <= k < |s| =>
      if base <= k < base + h then RightPartial(s, base, h, q, sh, t, k - base) else s[k])
  }

  /** The memory after the whole row at base. */
  function RightRow(s: seq<bv8>, base: int, h: int, q: int, sh: int): (r: seq<bv8>)
    requires RowShift(s, base, h, q, sh)
    ensures |r| == |s|
  {
    seq(|s|, k requires 0 <= k < |s| =>
      if base <= k < base + h then RightByte(s, base, h, q, sh, k - base) else s[k])
  }

  /** Before the first pass the memory is as it was. */
  lemma RightRowStart(s: seq<bv8>, base: int, h: int, q: int, sh: int)
    requires RowShift(s, base, h, q, sh)
    ensures RightRowPartial(s, base, h, q, sh, 0) == s
  {
    var p := RightRowPartial(s, base, h, q, sh, 0);
    forall k | 0 <= k < |s| ensures p[k] == s[k] {
      if base <= k < base + h {
        assert p[k] == RightPartial(s, base, h, q, sh, 0, k - base);
      }
    }
  }

  /** Pass t reads bytes h - 1 - q - t and h - 2 - q - t of the row as they were, zeroes
      the first of them and then writes byte h - 1 - t. */
  lemma RightRowStep(s: seq<bv8>, base: int, h: int, q: int, sh: int, t: int)
    requires RowShift(s, base, h, q, sh) && 0 <= t < h - 1 - q
    ensures var p := RightRowPartial(s, base, h, q, sh, t);
            p[base + h - 1 - q - t] == s[base + h - 1 - q - t] &&
            p[base + h - 2 - q - t] == s[base + h - 2 - q - t] &&
            RightRowPartial(s, base, h, q, sh, t + 1) ==
              p[base + h - 1 - q - t := 0]
               [base + h - 1 - t := Shr(s[base + h - 1 - q - t], sh) | Shl(s[base + h - 2 - q - t], 8 - sh)]
  {
    RightStep(s, base, h, q, sh, t, 0);
    var p := RightRowPartial(s, base, h, q, sh, t);
    var a := RightRowPartial(s, base, h, q, sh, t + 1);
    var b := p[base + h - 1 - q - t := 0]
              [base + h - 1 - t := Shr(s[base + h - 1 - q - t], sh) | Shl(s[base + h - 2 - q - t], 8 - sh)];
    forall k | 0 <= k < |s| ensures a[k] == b[k] {
      RightRowStepAt(s, base, h, q, sh, t, k);
    }
  }

  lemma RightRowStepAt(s: seq<bv8>, base: int, h: int, q: int, sh: int, t: int, k: int)
    requires RowShift(s, base, h, q, sh) && 0 <= t < h - 1 - q && 0 <= k < |s|
    ensures var p := RightRowPartial(s, base, h, q, sh, t);
            RightRowPartial(s, base, h, q, sh, t + 1)[k] ==
              p[base + h - 1 - q - t := 0]
               [base + h - 1 - t := Shr(s[base + h - 1 - q - t], sh) | Shl(s[base + h - 2 - q - t], 8 - sh)][k]
  {
    if base <= k < base + h {
      RightStep(s, base, h, q, sh, t, k - base);
    }
  }

  /** After the passes the row's first byte is read as it was, zeroed, and its shifted
      value written to byte q. */
  lemma RightRowEnd(s: seq<bv8>, base: int, h: int, q: int, sh: int)
    requires RowShift(s, base, h, q, sh)
    ensures var p := RightRowPartial(s, base, h, q, sh, h - 1 - q);
            p[base] == s[base] &&
            RightRow(s, base, h, q, sh) == p[base := 0][base + q := Shr(s[base], sh)]
  {
    var p := RightRowPartial(s, base, h, q, sh, h - 1 - q);
    var a := RightRow(s, base, h, q, sh);
    var b := p[base := 0][base + q := Shr(s[base], sh)];
    RightTail(s, base, h, q, sh, 0);
    forall k | 0 <= k < |s| ensures a[k] == b[k] {
      if base <= k < base + h {
        RightTail(s, base, h, q, sh, k - base);
      }
    }
  }

  /** The memory after the first n rows of shift(RIGHT). */
  function RightRows(g: Geom, s: seq<bv8>, d: U8, n: int): (r: seq<bv8>)
    requires Shaped(g, s) && d / 8 < g.hres && g.vres <= 0xff && 0 <= n
    ensures |r| == |s|
  {
    var r := ShiftRight(g, s, d);
    seq(|s|, k requires 0 <= k < |s| => if k < n * g.hres then r[k] else s[k])
  }

  /** No rows done is the memory as it was; all vres rows is shift(RIGHT). */
  lemma RightRowsEnds(g: Geom, s: seq<bv8>, d: U8)
    requires Shaped(g, s) && d / 8 < g.hres && g.vres <= 0xff
    ensures RightRows(g, s, d, 0) == s && RightRows(g, s, d, g.vres) == ShiftRight(g, s, d)
  {
  }

  /** Row n of the loop works on bytes no earlier row has touched. */
  lemma RightRowsStep(g: Geom, s: seq<bv8>, d: U8, n: int)
    requires Shaped(g, s) && d / 8 < g.hres && g.vres <= 0xff && 0 <= n < g.vres
    ensures RowShift(RightRows(g, s, d, n), n * g.hres, g.hres, d / 8, d % 8)
    ensures RightRows(g, s, d, n + 1) == RightRow(RightRows(g, s, d, n), n * g.hres, g.hres, d / 8, d % 8)
  {
    RowStart(g, n, 0);
    forall k | 0 <= k < |s| {
      RightRowsAt(g, s, d, n, k);
    }
  }

  lemma RightRowsAt(g: Geom, s: seq<bv8>, d: U8, n: int, k: int)
    requires Shaped(g, s) && d / 8 < g.hres && g.vres <= 0xff && 0 <= n < g.vres && 0 <= k < |s|
    ensures RowShift(RightRows(g, s, d, n), n * g.hres, g.hres, d / 8, d % 8)
    ensures RightRows(g, s, d, n + 1)[k] == RightRow(RightRows(g, s, d, n), n * g.hres, g.hres, d / 8, d % 8)[k]
  {
    var h, q, sh := g.hres, d / 8, d % 8;
    var base := n * h;
    RowStart(g, n, 0);
    assert (n + 1) * h == base + h;
    if base <= k < base + h {
      RightRowByte(g, s, d, n, k - base);
      var p := RightRows(g, s, d, n);
      RightByteFrame(p, s, base, h, q, sh, k - base);
    }
  }

  /** RightByte reads only the row. */
  lemma RightByteFrame(p: seq<bv8>, s: seq<bv8>, base: int, h: int, q: int, sh: int, m: int)
    requires RowShift(s, base, h, q, sh) && |p| == |s| && 0 <= m < h
    requires forall k :: base <= k < base + h ==> p[k] == s[k]
    ensures RightByte(p, base, h, q, sh, m) == RightByte(s, base, h, q, sh, m)
  {
    if m > q {
      assert p[base + m - q] == s[base + m - q] && p[base + m - q - 1] == s[base + m - q - 1];
    } else if m == q {
      assert p[base] == s[base];
    } else if m > h - 1 - q {
      assert p[base + m] == s[base + m];
    }
  }

  /** Byte m of row n after shift(RIGHT) is RightByte of that row. */
  lemma RightRowByte(g: Geom, s: seq<bv8>, d: U8, n: int, m: int)
    requires Shaped(g, s) && d / 8 < g.hres && g.vres <= 0xff && 0 <= n < g.vres && 0 <= m < g.hres
    ensures 0 <= n * g.hres && n * g.hres + g.hres <= g.Size()
    ensures ShiftRight(g, s, d)[n * g.hres + m] == RightByte(s, n * g.hres, g.hres, d / 8, d % 8, m)
  {
    RowStart(g, n, m);
  }

  /** The evident intent of a row byte: the bits distance columns to the left, or dark
      before the start of the row. */
  function RightByteIntended(s: seq<bv8>, base: int, h: int, q: int, sh: int, m: int): bv8
    requires RowShift(s, base, h, q, sh) && 0 <= m < h
  {
    if m > q then Shr(s[base + m - q], sh) | Shl(s[base + m - q - 1], 8 - sh)
    else if m == q then Shr(s[base], sh)
    else 0
  }

  function ShiftRightIntended(g: Geom, s: seq<bv8>, d: U8): (r: seq<bv8>)
    requires Shaped(g, s) && d / 8 < g.hres
    ensures Shaped(g, r)
  {
    seq(|s|, k requires 0 <= k < |s| =>
      if k < g.Size() then
        RowOf(g, k);
        RightByteIntended(s, k - k % g.hres, g.hres, d / 8, d % 8, k % g.hres)
      else s[k])
  }

  /** Column j of row byte m, intended: column j - sh of byte m - q, or column
      j - sh + 8 of byte m - q - 1, dark when that byte is before the row. */
  lemma RightByteIntendedLit(s: seq<bv8>, base: int, h: int, q: int, sh: int, m: int, j: int)
    requires RowShift(s, base, h, q, sh) && 0 <= m < h && 0 <= j < 8
    ensures j >= sh ==>
            (Lit(RightByteIntended(s, base, h, q, sh, m), j) <==> m >= q && Lit(s[base + m - q], j - sh))
    ensures j < sh ==>
            (Lit(RightByteIntended(s, base, h, q, sh, m), j) <==>
             m > q && Lit(s[base + m - q - 1], j - sh + 8))
  {
    var b := RightByteIntended(s, base, h, q, sh, m);
    if m > q {
      var u, w := s[base + m - q], s[base + m - q - 1];
      assert b == Shr(u, sh) | Shl(w, 8 - sh);
      CarryRightLit(u, w, sh, j);
    } else if m == q {
      assert b == Shr(s[base + m - q], sh);
      ShrLit(s[base + m - q], sh, j);
    } else {
      assert b == 0;
      ZeroLit(j);
    }
  }

  /** Pixel (x - distance, y) sits at column j - sh of row byte m - q, or at column
      j - sh + 8 of row byte m - q - 1, where x = 8 * m + j and distance = 8 * q + sh. */
  lemma RightSource(g: Geom, s: seq<bv8>, d: U8, x: int, y: int)
    requires Shaped(g, s) && d / 8 < g.hres && InFrame(g, x, y)
    ensures var q, sh, m, j := d / 8, d % 8, x / 8, x % 8; var base := y * g.hres;
            RowShift(s, base, g.hres, q, sh) && 0 <= m < g.hres &&
            (j >= sh ==> (x >= d && Pixel(g, s, x - d, y) <==>
                          m >= q && Lit(s[base + m - q], j - sh))) &&
            (j < sh ==> (x >= d && Pixel(g, s, x - d, y) <==>
                         m > q && Lit(s[base + m - q - 1], j - sh + 8)))
  {
    var q, sh, m, j := d / 8, d % 8, x / 8, x % 8;
    IndexBound(g, x, y);
    RowStart(g, y, m);
    var base := y * g.hres;
    assert x - d == 8 * (m - q) + j - sh;
    if x >= d {
      IndexBound(g, x - d, y);
      if j >= sh {
        DivModUnique(x - d, 8, m - q, j - sh);
        assert Index(g, x - d, y) == base + m - q;
      } else {
        DivModUnique(x - d, 8, m - q - 1, j - sh + 8);
        assert Index(g, x - d, y) == base + m - q - 1;
      }
    } else if j >= sh {
      assert m < q;
    } else {
      assert m <= q;
    }
  }

  /** Pixel (x, y) afterwards is column x % 8 of the row byte x / 8 that RightByteIntended gives. */
  lemma ShiftRightIntendedAt(g: Geom, s: seq<bv8>, d: U8, x: int, y: int)
    requires Shaped(g, s) && d / 8 < g.hres && InFrame(g, x, y)
    ensures RowShift(s, y * g.hres, g.hres, d / 8, d % 8) && 0 <= x / 8 < g.hres
    ensures Pixel(g, ShiftRightIntended(g, s, d), x, y) <==>
            Lit(RightByteIntended(s, y * g.hres, g.hres, d / 8, d % 8, x / 8), x % 8)
  {
    IndexBound(g, x, y);
    RowStart(g, y, x / 8);
    assert ShiftRightIntended(g, s, d)[y * g.hres + x / 8] == RightByteIntended(s, y * g.hres, g.hres, d / 8, d % 8, x / 8);
  }

  /** Intended: pixel (x, y) afterwards is pixel (x - distance, y) before, or dark when
      that column is left of the frame. */
  lemma ShiftRightIntendedPixels(g: Geom, s: seq<bv8>, d: U8, x: int, y: int)
    requires Shaped(g, s) && d / 8 < g.hres && InFrame(g, x, y)
    ensures Pixel(g, ShiftRightIntended(g, s, d), x, y) <==> x >= d && Pixel(g, s, x - d, y)
  {
    ShiftRightIntendedAt(g, s, d, x, y);
    RightByteIntendedLit(s, y * g.hres, g.hres, d / 8, d % 8, x / 8, x % 8);
    RightSource(g, s, d, x, y);
  }

  /** For 2 * (distance / 8) <= hres the code does what is intended. */
  lemma ShiftRightAsIntended(g: Geom, s: seq<bv8>, d: U8)
    requires Shaped(g, s) && d / 8 < g.hres && g.vres <= 0xff && 2 * (d / 8) <= g.hres
    ensures ShiftRight(g, s, d) == ShiftRightIntended(g, s, d)
  {
  }

  /** With 2 * (distance / 8) > hres, byte hres - distance / 8 of every row is neither
      written nor cleared: it keeps its old value where the intended shift clears it. */
  lemma ShiftRightLeavesStale(g: Geom, s: seq<bv8>, d: U8, y: int)
    requires Shaped(g, s) && d / 8 < g.hres && g.vres <= 0xff && 2 * (d / 8) > g.hres && 0 <= y < g.vres
    ensures 0 <= y * g.hres + g.hres - d / 8 < g.Size()
    ensures ShiftRight(g, s, d)[y * g.hres + g.hres - d / 8] == s[y * g.hres + g.hres - d / 8]
    ensures ShiftRightIntended(g, s, d)[y * g.hres + g.hres - d / 8] == 0
  {
    var m := g.hres - d / 8;
    RightRowByte(g, s, d, y, m);
    RowStart(g, y, m);
  }

  /** With 2 * (distance / 8) > hres bytes in the middle of a row stay as they were:
      hres = 3, distance 16 turns a row a, b, c into 0, b, a instead of 0, 0, a. */
  lemma ShiftRightStale()
    ensures var s: seq<bv8> := [0x0a, 0x0b, 0x0c, 0];
            ShiftRight(Geom(3, 1), s, 16) == [0, 0x0b, 0x0a, 0] &&
            ShiftRightIntended(Geom(3, 1), s, 16) == [0, 0, 0x0a, 0]
  {
    var s: seq<bv8> := [0x0a, 0x0b, 0x0c, 0];
    var r := ShiftRight(Geom(3, 1), s, 16);
    assert r[0] == RightByte(s, 0, 3, 2, 0, 0);
    assert r[1] == RightByte(s, 0, 3, 2, 0, 1);
    assert r[2] == RightByte(s, 0, 3, 2, 0, 2);
    var i := ShiftRightIntended(Geom(3, 1), s, 16);
    assert i[0] == RightByteIntended(s, 0, 3, 2, 0, 0);
    assert i[1] == RightByteIntended(s, 0, 3, 2, 0, 1);
  }

  /** Shifting left and then right by the same distance clears exactly the columns
      left of distance (when the code does what is intended). */
  lemma LeftThenRight(g: Geom, s: seq<bv8>, d: U8, x: int, y: int)
    requires Shaped(g, s) && d / 8 < g.hres && g.vres <= 0xff && 2 * (d / 8) <= g.hres && InFrame(g, x, y)
    ensures Pixel(g, ShiftRight(g, ShiftLeft(g, s, d), d), x, y) <==> x >= d && Pixel(g, s, x, y)
  {
    ShiftLeftAsIntended(g, s, d);
    ShiftRightAsIntended(g, ShiftLeft(g, s, d), d);
    ShiftRightIntendedPixels(g, ShiftLeft(g, s, d), d, x, y);
    if x >= d {
      ShiftLeftIntendedPixels(g, s, d, x - d, y);
    }
  }

  // ---------------------------------------------------------------- dispatch

  /** shift(distance, direction); any other direction changes nothing. */
  function Shift(g: Geom, s: seq<bv8>, d: U8, dir: U8): (r: seq<bv8>)
    requires Shaped(g, s) && ((dir == LEFT || dir == RIGHT) ==> d / 8 < g.hres && g.vres <= 0xff)
    ensures Shaped(g, r)
    ensures dir !in {UP, DOWN, LEFT, RIGHT} ==> r == s
  {
    if dir == UP then ShiftUp(g, s, d)
    else if dir == DOWN then ShiftDown(g, s, d)
    else if dir == LEFT then ShiftLeft(g, s, d)
    else if dir == RIGHT then ShiftRight(g, s, d)
    else s
  }
}

/** draw_rect (TTVout.cpp:259-282): a filled rectangle is one draw_row per row, an
    outline is up to four draw_lines on the rectangle shrunk by one in each axis. */
module Rect {
  import opened Bits
  import opened Frame
  import opened Lines

  /** The filled rectangle's rows: draw_row(i, x0, x1, c) for i = line .. last - 1. The
      counter is an int16_t compared with the int y0 + h, so the loop only ends when y0 + h
      is at most 32767. */
  predicate RowsFit(g: Geom, line: int, last: int, x0: I16, x1: I16, c: int)
  {
    -0x8000 <= line && last <= 0x7fff &&
    forall i :: line <= i < last ==> RowFits(g, i, x0, x1, c)
  }

  function FillRows(g: Geom, s: seq<bv8>, line: int, last: int, x0: I16, x1: I16, c: int): (r: seq<bv8>)
    requires Shaped(g, s) && RowsFit(g, line, last, x0, x1, c)
    ensures Shaped(g, r)
    decreases last - line
  {
    if line >= last then s
    else FillRows(g, DrawRow(g, s, line, x0, x1, c), line + 1, last, x0, x1, c)
  }

  /** The filled form (fc != -1): x0 + w is passed to draw_row as an int16_t. */
  predicate FilledFits(g: Geom, x0: I16, y0: I16, w: I16, h: I16, c: int) {
    RowsFit(g, y0, y0 + h, x0, ToI16(x0 + w), c)
  }

  function DrawRectFilled(g: Geom, s: seq<bv8>, x0: I16, y0: I16, w: I16, h: I16, c: int): (r: seq<bv8>)
    requires Shaped(g, s) && FilledFits(g, x0, y0, w, h, c)
    ensures Shaped(g, r)
  {
    FillRows(g, s, y0, y0 + h, x0, ToI16(x0 + w), c)
  }

  /** The points of the outline form (fc == -1), in the order the source plots them,
      after w-- and h-- in int16_t: one pixel, one line, or the two horizontal lines
      followed, when h > 1 after the decrement, by the two vertical lines between them. */
  function OutlinePoints(x0: I16, y0: I16, w: I16, h: I16): seq<Pt> {
    var w' := ToI16(w - 1);
    var h' := ToI16(h - 1);
    var x1 := ToI16(x0 + w');
    var y1 := ToI16(y0 + h');
    if w' == 0 && h' == 0 then [Pt(x0, y0)]
    else if w' == 0 || h' == 0 then LinePoints(x0, y0, x1, y1)
    else
      LinePoints(x0, y0, x1, y0) + LinePoints(x0, y1, x1, y1) +
      (if h' > 1 then LinePoints(x0, ToI16(y0 + 1), x0, ToI16(y0 + h' - 1)) +
                      LinePoints(x1, ToI16(y0 + 1), x1, ToI16(y0 + h' - 1))
       else [])
  }

  /** draw_rect(x0, y0, w, h, c, fc). */
  function DrawRect(g: Geom, s: seq<bv8>, x0: I16, y0: I16, w: I16, h: I16, c: int, fc: I8): (r: seq<bv8>)
    requires Shaped(g, s) && (fc == -1 || FilledFits(g, x0, y0, w, h, c))
    ensures Shaped(g, r)
  {
    if fc == -1 then PlotAll(g, s, OutlinePoints(x0, y0, w, h), c)
    else DrawRectFilled(g, s, x0, y0, w, h, c)
  }

  /** Pixel (x, y) lies on the border of the box [x0, x1] x [y0, y1]. */
  predicate OnBorder(q: Pt, x0: int, y0: int, x1: int, y1: int) {
    x0 <= q.x <= x1 && y0 <= q.y <= y1 && (q.x == x0 || q.x == x1 || q.y == y0 || q.y == y1)
  }

  lemma DistinctConcat<T>(a: seq<T>, b: seq<T>)
    requires Distinct(a) && Distinct(b)
    requires forall q :: q in a ==> q !in b
    ensures Distinct(a + b)
  {
    forall k, k' | 0 <= k < k' < |a + b| ensures (a + b)[k] != (a + b)[k'] {
      if k' < |a| {
        assert (a + b)[k] == a[k] && (a + b)[k'] == a[k'];
      } else if k >= |a| {
        assert (a + b)[k] == b[k - |a|] && (a + b)[k'] == b[k' - |a|];
      } else {
        assert (a + b)[k] == a[k] && (a + b)[k'] == b[k' - |a|];
        assert a[k] in a && b[k' - |a|] in b;
      }
    }
  }

  /** The four sides of an outline with w, h >= 2; the vertical sides are empty when h == 2. */
  function Sides(x0: int, y0: int, x1: int, y1: int): (seq<Pt>, seq<Pt>, seq<Pt>, seq<Pt>) {
    (LinePoints(x0, y0, x1, y0), LinePoints(x0, y1, x1, y1),
     if y1 > y0 + 1 then LinePoints(x0, y0 + 1, x0, y1 - 1) else [],
     if y1 > y0 + 1 then LinePoints(x1, y0 + 1, x1, y1 - 1) else [])
  }

  lemma OutlineSides(x0: I16, y0: I16, w: I16, h: I16)
    requires 2 <= w && 2 <= h && x0 + w <= 0x8000 && y0 + h <= 0x8000
    ensures var (top, bottom, left, right) := Sides(x0, y0, x0 + w - 1, y0 + h - 1);
            OutlinePoints(x0, y0, w, h) == top + bottom + (left + right)
  {
    var x1, y1 := x0 + w - 1, y0 + h - 1;
    OutlineUnfold(x0, y0, w, h);
    var (top, bottom, left, right) := Sides(x0, y0, x1, y1);
    if h > 2 {
      assert left + right == LinePoints(x0, y0 + 1, x0, y1 - 1) + LinePoints(x1, y0 + 1, x1, y1 - 1);
    } else {
      assert left + right == [];
    }
  }

  /** Without wrap-around the outline is the four lines on the shrunk rectangle. */
  lemma OutlineUnfold(x0: I16, y0: I16, w: I16, h: I16)
    requires 2 <= w && 2 <= h && x0 + w <= 0x8000 && y0 + h <= 0x8000
    ensures var x1, y1 := x0 + w - 1, y0 + h - 1;
            OutlinePoints(x0, y0, w, h) ==
              LinePoints(x0, y0, x1, y0) + LinePoints(x0, y1, x1, y1) +
              (if h > 2 then LinePoints(x0, y0 + 1, x0, y1 - 1) + LinePoints(x1, y0 + 1, x1, y1 - 1) else [])
  {
    var x1, y1 := x0 + w - 1, y0 + h - 1;
    var w', h' := ToI16(w - 1), ToI16(h - 1);
    assert w' == w - 1 && h' == h - 1;
    assert ToI16(x0 + w') == x1 && ToI16(y0 + h') == y1;
    assert ToI16(y0 + 1) == y0 + 1 && ToI16(y0 + h' - 1) == y1 - 1;
  }

  /** What each side holds. */
  lemma SidesFacts(x0: int, y0: int, x1: int, y1: int, q: Pt)
    requires x0 < x1 && y0 < y1
    ensures var (top, bottom, left, right) := Sides(x0, y0, x1, y1);
            (q in top <==> q.y == y0 && x0 <= q.x <= x1) &&
            (q in bottom <==> q.y == y1 && x0 <= q.x <= x1) &&
            (q in left <==> q.x == x0 && y0 < q.y < y1) &&
            (q in right <==> q.x == x1 && y0 < q.y < y1)
  {
    var (top, bottom, left, right) := Sides(x0, y0, x1, y1);
    LineHorizontal(x0, x1, y0, q);
    LineHorizontal(x0, x1, y1, q);
    if y1 > y0 + 1 {
      LineVertical(x0, y0 + 1, y1 - 1, q);
      LineVertical(x1, y0 + 1, y1 - 1, q);
    } else {
      assert left == [] && right == [];
    }
  }

  /** No side lists a pixel twice. */
  lemma SidesDistinct(x0: int, y0: int, x1: int, y1: int)
    ensures var (top, bottom, left, right) := Sides(x0, y0, x1, y1);
            Distinct(top) && Distinct(bottom) && Distinct(left) && Distinct(right)
  {
    LineDistinct(x0, y0, x1, y0);
    LineDistinct(x0, y1, x1, y1);
    LineDistinct(x0, y0 + 1, x0, y1 - 1);
    LineDistinct(x1, y0 + 1, x1, y1 - 1);
  }

  /** An outline with w, h >= 2 lists every border pixel exactly once. */
  lemma SidesBorder(x0: int, y0: int, x1: int, y1: int)
    requires x0 < x1 && y0 < y1
    ensures var (top, bottom, left, right) := Sides(x0, y0, x1, y1);
            Distinct(top + bottom + (left + right)) &&
            forall q :: q in top + bottom + (left + right) <==> OnBorder(q, x0, y0, x1, y1)
  {
    var (top, bottom, left, right) := Sides(x0, y0, x1, y1);
    forall q ensures q in top + bottom + (left + right) <==> OnBorder(q, x0, y0, x1, y1) {
      SidesFacts(x0, y0, x1, y1, q);
    }
    SidesDistinct(x0, y0, x1, y1);
    forall q | q in top ensures q !in bottom {
      SidesFacts(x0, y0, x1, y1, q);
    }
    DistinctConcat(top, bottom);
    forall q | q in left ensures q !in right {
      SidesFacts(x0, y0, x1, y1, q);
    }
    DistinctConcat(left, right);
    forall q | q in top + bottom ensures q !in left + right {
      SidesFacts(x0, y0, x1, y1, q);
    }
    DistinctConcat(top + bottom, left + right);
  }

  /** An outline with w, h >= 1 inside the int16_t range lists every border pixel of
      [x0, x0 + w - 1] x [y0, y0 + h - 1] exactly once and nothing else: the vertical
      lines skip the corner rows. */
  lemma OutlineBorder(x0: I16, y0: I16, w: I16, h: I16)
    requires 1 <= w && 1 <= h && x0 + w <= 0x8000 && y0 + h <= 0x8000
    ensures Distinct(OutlinePoints(x0, y0, w, h))
    ensures forall q :: q in OutlinePoints(x0, y0, w, h) <==> OnBorder(q, x0, y0, x0 + w - 1, y0 + h - 1)
  {
    var x1 := x0 + w - 1;
    var y1 := y0 + h - 1;
    if w == 1 || h == 1 {
      OutlineThin(x0, y0, w, h);
    } else {
      var (top, bottom, left, right) := Sides(x0, y0, x1, y1);
      OutlineSides(x0, y0, w, h);
      SidesBorder(x0, y0, x1, y1);
      var pts := top + bottom + (left + right);
      assert OutlinePoints(x0, y0, w, h) == pts;
      assert Distinct(pts);
      assert forall q :: q in pts <==> OnBorder(q, x0, y0, x1, y1);
    }
  }

  /** An outline one pixel wide or high is that one pixel or line. */
  lemma OutlineThin(x0: I16, y0: I16, w: I16, h: I16)
    requires 1 <= w && 1 <= h && (w == 1 || h == 1) && x0 + w <= 0x8000 && y0 + h <= 0x8000
    ensures Distinct(OutlinePoints(x0, y0, w, h))
    ensures forall q :: q in OutlinePoints(x0, y0, w, h) <==> OnBorder(q, x0, y0, x0 + w - 1, y0 + h - 1)
  {
    var x1 := x0 + w - 1;
    var y1 := y0 + h - 1;
    assert ToI16(w - 1) == w - 1 && ToI16(h - 1) == h - 1;
    assert ToI16(x0 + (w - 1)) == x1 && ToI16(y0 + (h - 1)) == y1;
    var pts := OutlinePoints(x0, y0, w, h);
    if w == 1 && h == 1 {
      assert pts == [Pt(x0, y0)];
    } else {
      assert pts == LinePoints(x0, y0, x1, y1);
      LineDistinct(x0, y0, x1, y1);
      forall q ensures q in pts <==> OnBorder(q, x0, y0, x1, y1) {
        if w == 1 {
          LineVertical(x0, y0, y1, q);
        } else {
          LineHorizontal(x0, x1, y0, q);
        }
      }
    }
  }

  /** The outline with w, h >= 1 paints every border pixel once and nothing else. */
  lemma OutlinePixels(g: Geom, s: seq<bv8>, x0: I16, y0: I16, w: I16, h: I16, c: int, px: int, py: int)
    requires Shaped(g, s) && InFrame(g, px, py)
    requires 1 <= w && 1 <= h && x0 + w <= 0x8000 && y0 + h <= 0x8000
    ensures Pixel(g, DrawRect(g, s, x0, y0, w, h, c, -1), px, py)
            == if OnBorder(Pt(px, py), x0, y0, x0 + w - 1, y0 + h - 1) then PaintBit(Pixel(g, s, px, py), c)
               else Pixel(g, s, px, py)
    ensures DrawRect(g, s, x0, y0, w, h, c, -1)[g.Size()] == s[g.Size()]
  {
    OutlineBorder(x0, y0, w, h);
    PlotAllPixels(g, s, OutlinePoints(x0, y0, w, h), c, px, py);
  }

  /** Painting rows line .. last - 1 inside the frame with ends x0 < x1 <= width
      paints exactly columns x0 .. x1 - 1 of those rows. */
  lemma {:induction false} FillRowsPixels(g: Geom, s: seq<bv8>, line: int, last: int, x0: I16, x1: I16, c: int, px: int, py: int)
    requires Shaped(g, s) && InFrame(g, px, py)
    requires 0 <= x0 < x1 <= g.Width() && 0 <= line && last <= g.vres
    decreases last - line
    ensures RowsFit(g, line, last, x0, x1, c)
    ensures Pixel(g, FillRows(g, s, line, last, x0, x1, c), px, py)
            == if line <= py < last && x0 <= px < x1 then PaintBit(Pixel(g, s, px, py), c)
               else Pixel(g, s, px, py)
    ensures FillRows(g, s, line, last, x0, x1, c)[g.Size()] == s[g.Size()]
  {
    MulMono(1, g.hres, g.vres);
    forall i | line <= i < last ensures RowFits(g, i, x0, x1, c) {
      DrawRowPixels(g, s, i, x0, x1, c, 0, 0);
    }
    if line < last {
      var s1 := DrawRow(g, s, line, x0, x1, c);
      DrawRowPixels(g, s, line, x0, x1, c, px, py);
      FillRowsPixels(g, s1, line + 1, last, x0, x1, c, px, py);
    }
  }

  /** A filled rectangle with w >= 1 inside the frame paints exactly
      [x0, x0 + w) x [y0, y0 + h): draw_row leaves out its right end. */
  lemma FilledPixels(g: Geom, s: seq<bv8>, x0: I16, y0: I16, w: I16, h: I16, c: int, px: int, py: int)
    requires Shaped(g, s) && InFrame(g, px, py)
    requires 1 <= w && 0 <= x0 && x0 + w <= g.Width() && x0 + w < 0x8000
    requires 0 <= y0 && 0 <= h && y0 + h <= g.vres
    ensures FilledFits(g, x0, y0, w, h, c)
    ensures Pixel(g, DrawRect(g, s, x0, y0, w, h, c, 0), px, py)
            == if x0 <= px < x0 + w && y0 <= py < y0 + h then PaintBit(Pixel(g, s, px, py), c)
               else Pixel(g, s, px, py)
    ensures DrawRect(g, s, x0, y0, w, h, c, 0)[g.Size()] == s[g.Size()]
  {
    var x1 := x0 + w;
    assert ToI16(x0 + w) == x1;
    FillRowsPixels(g, s, y0, y0 + h, x0, x1, c, px, py);
  }

  /** Rows line .. last - 1 with equal ends are one set_pixel each: column x0 of those
      rows, clipped by set_pixel's bounds test, so any x0 and rows are allowed. */
  lemma {:induction false} FillColumnPixels(g: Geom, s: seq<bv8>, line: int, last: int, x0: I16, c: int, px: int, py: int)
    requires Shaped(g, s) && InFrame(g, px, py) && -0x8000 <= line && last <= 0x7fff
    decreases last - line
    ensures RowsFit(g, line, last, x0, x0, c)
    ensures Pixel(g, FillRows(g, s, line, last, x0, x0, c), px, py)
            == if px == x0 && line <= py < last then PaintBit(Pixel(g, s, px, py), c)
               else Pixel(g, s, px, py)
    ensures FillRows(g, s, line, last, x0, x0, c)[g.Size()] == s[g.Size()]
  {
    if line < last {
      var s1 := DrawRow(g, s, line, x0, x0, c);
      SetPixelEffect(g, s, x0, line, c, px, py);
      FillColumnPixels(g, s1, line + 1, last, x0, c, px, py);
    }
  }

  /** A filled rectangle with w == 0 calls draw_row(i, x0, x0, c) on each row: it paints
      the one-pixel column x = x0 of rows y0 .. y0 + h - 1 that lies in the frame. */
  lemma FilledThinPixels(g: Geom, s: seq<bv8>, x0: I16, y0: I16, h: I16, c: int, px: int, py: int)
    requires Shaped(g, s) && InFrame(g, px, py) && y0 + h <= 0x7fff
    ensures FilledFits(g, x0, y0, 0, h, c)
    ensures Pixel(g, DrawRect(g, s, x0, y0, 0, h, c, 0), px, py)
            == if px == x0 && y0 <= py < y0 + h then PaintBit(Pixel(g, s, px, py), c)
               else Pixel(g, s, px, py)
    ensures DrawRect(g, s, x0, y0, 0, h, c, 0)[g.Size()] == s[g.Size()]
  {
    assert ToI16(x0 + 0) == x0;
    FillColumnPixels(g, s, y0, y0 + h, x0, c, px, py);
  }
}

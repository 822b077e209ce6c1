/** The TTVout drawing object (TTVout.cpp): the frame memory it was given by init and
    the operations that change it in place. Each method is proved to leave the memory
    the specification function of its module describes, so the properties proved about
    those functions hold of the methods. */
module TVout {
  import opened Bits
  import opened Frame
  import opened Lines
  import Rect
  import Circle
  import Scroll
  import Blit

  class Screen {
    /** _screen: the frame, row after row, followed by the byte just past it. */
    var screen: array<bv8>
    var width: int
    var height: int
    var hres: int
    var vres: int
    var cursorX: int
    var cursorY: int

    /** init (TTVout.cpp:96-101) with a width that is a whole number of bytes; byte
        indices of the frame fit the int16_t the drawing code keeps them in. */
    ghost predicate Valid()
      reads this`screen, this`width, this`height, this`hres, this`vres
    {
      hres >= 1 && vres >= 0 && width == 8 * hres && height == vres &&
      hres * vres < 0x8000 && screen.Length == hres * vres + 1
    }

    function G(): Geom
      reads this`screen, this`width, this`height, this`hres, this`vres
      requires Valid()
    {
      Geom(hres, vres)
    }

    /** init(vram, width, height). */
    constructor Init(vram: array<bv8>, w: U16, h: U16)
      requires w % 8 == 0 && w >= 8 && (w / 8) * h < 0x8000 && vram.Length == (w / 8) * h + 1
      ensures Valid() && screen == vram && width == w && height == h
      ensures hres == w / 8 && vres == h && cursorX == 0 && cursorY == 0
    {
      screen := vram;
      width := w;
      height := h;
      hres := w / 8;
      vres := h;
      cursorX := 0;
      cursorY := 0;
    }

    // ------------------------------------------------------------ set_pixel, get_pixel

    /** set_pixel(x, y, c) (TTVout.cpp:117-121); sp applies the colour to the pixel's bit. */
    method SetPixel(x: I16, y: I16, c: U8)
      requires Valid()
      modifies screen
      ensures screen[..] == Frame.SetPixel(G(), old(screen[..]), x, y, c)
    {
      if x < 0 || y < 0 || x >= width || y >= height {
        return;
      }
      IndexBound(G(), x, y);
      var k := y * hres + x / 8;
      screen[k] := Paint(screen[k], Bit(x % 8), c);
    }

    /** get_pixel(x, y) with bit-banding (TTVout.cpp:145): reads word
        _width * y + (x & 0xf8) + 7 - (x & 7) of the bit-band alias; nothing is checked. */
    method GetPixel(x: I16, y: I16) returns (p: U8)
      requires Valid()
      requires 0 <= BitBandWord(width, x, y) < 8 * screen.Length
      ensures p <= 1
      ensures InFrame(G(), x, y) && x < 0x100 ==> (p == 1 <==> Pixel(G(), screen[..], x, y))
      ensures p == GetPixelBitBand(screen[..], width, x, y)
    {
      var w := width * y + (x % 0x100 - x % 8) + 7 - x % 8;
      if (screen[w / 8] >> (w % 8)) & 1 == 1 {
        p := 1;
      } else {
        p := 0;
      }
      if InFrame(G(), x, y) && x < 0x100 {
        BitBandAgrees(G(), screen[..], x, y);
      }
    }

    // ------------------------------------------------------------ cls, fill

    /** cls() (TTVout.cpp:123-125): memset of the _vres * _hres frame bytes to 0. */
    method Cls()
      requires Valid()
      modifies screen
      ensures screen[..] == Filled(G(), old(screen[..]), BLACK)
    {
      var k := 0;
      while k < vres * hres
        invariant 0 <= k <= vres * hres
        invariant screen[..] == PaintRange(old(screen[..]), 0, k, 0xff, BLACK)
      {
        PaintRangeStep(old(screen[..]), screen[..], 0, k, 0xff, BLACK);
        FullMask(screen[k], BLACK);
        screen[k] := 0;
        k := k + 1;
      }
    }

    /** fill(color) (TTVout.cpp:156-176): row by row; BLACK and WHITE also send the
        cursor home. */
    method Fill(color: U8)
      requires Valid()
      modifies this`cursorX, this`cursorY, screen
      ensures screen[..] == Filled(G(), old(screen[..]), color)
      ensures (color == BLACK || color == WHITE) ==> cursorX == 0 && cursorY == 0
      ensures !(color == BLACK || color == WHITE) ==> cursorX == old(cursorX) && cursorY == old(cursorY)
    {
      if color == BLACK || color == WHITE {
        cursorX := 0;
        cursorY := 0;
      }
      FillRows(color);
    }

    /** The rows of fill, one after the other. */
    method FillRows(color: U8)
      requires Valid()
      modifies screen
      ensures screen[..] == Filled(G(), old(screen[..]), color)
    {
      if !IsColour(color) {
        return;
      }
      var i := 0;
      while i < vres
        invariant 0 <= i <= vres && i * hres <= hres * vres
        invariant screen[..] == PaintRange(old(screen[..]), 0, i * hres, 0xff, color)
      {
        RowNext(i, vres, hres);
        ghost var before := screen[..];
        FillRow(i * hres, color);
        PaintRangeJoin(old(screen[..]), before, 0, i * hres, i * hres + hres, 0xff, color);
        i := i + 1;
      }
    }

    /** One row of fill: memset of _hres bytes for BLACK and WHITE, each byte
        complemented for INVERT. */
    method FillRow(start: int, color: U8)
      requires Valid() && IsColour(color) && 0 <= start && start + hres <= hres * vres
      modifies screen
      ensures screen[..] == PaintRange(old(screen[..]), start, start + hres, 0xff, color)
    {
      var j := 0;
      while j < hres
        invariant 0 <= j <= hres
        invariant screen[..] == PaintRange(old(screen[..]), start, start + j, 0xff, color)
      {
        var k := start + j;
        PaintRangeStep(old(screen[..]), screen[..], start, k, 0xff, color);
        FullMask(screen[k], color);
        screen[k] := if color == BLACK then 0 else if color == WHITE then 0xff else !screen[k];
        j := j + 1;
      }
    }

    // ------------------------------------------------------------ draw_row, draw_column

    /** draw_row(line, x0, x1, c) (TTVout.cpp:179-216): the ends are swapped through a
        uint8_t, the masks of the end bytes built, then the first byte, the whole bytes
        between and the last byte painted. */
    method DrawRow(line: I16, x0: I16, x1: I16, c: U8)
      requires Valid() && RowFits(G(), line, x0, x1, c)
      modifies screen
      ensures screen[..] == Frame.DrawRow(G(), old(screen[..]), line, x0, x1, c)
    {
      if x0 == x1 {
        SetPixel(x0, line, c);
        return;
      }
      var lo, hi := x0, x1;
      if x0 > x1 {
        lo, hi := x1, ToU8(x0);
      }
      var a, lbit, b, rbit := RowMasks(line, lo, hi);
      if !IsColour(c) {
        return;
      }
      PaintRow(a, lbit, b, rbit, c);
    }

    /** The masks of the end bytes and the indices of those bytes, x / 8 + _hres * line
        (TTVout.cpp:189-196); a span inside one byte merges the masks. */
    method RowMasks(line: I16, lo: I16, hi: I16) returns (a: I16, lbit: bv8, b: I16, rbit: bv8)
      requires hres >= 0 && vres >= 0
      ensures RowPlan(a, lbit, b, rbit) == RowPlanAt(Geom(hres, vres), line, lo, hi)
    {
      ghost var g := Geom(hres, vres);
      lbit := Ones(lo % 8);
      a := ToI16(Quot(lo, 8) + hres * line);
      rbit := !Ones(hi % 8);
      b := ToI16(Quot(hi, 8) + hres * line);
      assert a == ToI16(Quot(lo, 8) + g.hres * line) && b == ToI16(Quot(hi, 8) + g.hres * line);
      if a == b {
        lbit := lbit & rbit;
        rbit := 0;
      }
    }

    /** The writes of draw_row once its plan is made: mask lbit on byte first, 0xff on
        every byte before last, mask rbit on the byte the index has then reached. */
    method PaintRow(first: I16, lbit: bv8, last: I16, rbit: bv8, c: U8)
      requires Valid() && IsColour(c)
      requires 0 <= first && RowPlan(first, lbit, last, rbit).RowEnd() <= hres * vres
      modifies screen
      ensures screen[..] == RowBytes(old(screen[..]), RowPlan(first, lbit, last, rbit), c)
    {
      ghost var p := RowPlan(first, lbit, last, rbit);
      ghost var s0 := screen[..];
      screen[first] := Paint(screen[first], lbit, c);
      ghost var s1 := screen[..];
      assert s1 == s0[first := Paint(s0[first], lbit, c)];
      var k := first + 1;
      while k < last
        invariant first + 1 <= k <= RowPlan(first, lbit, last, rbit).RowEnd()
        invariant screen[..] == PaintRange(s1, first + 1, k, 0xff, c)
      {
        PaintRangeStep(s1, screen[..], first + 1, k, 0xff, c);
        screen[k] := Paint(screen[k], 0xff, c);
        k := k + 1;
      }
      assert k == p.RowEnd();
      assert screen[..] == PaintRange(s1, first + 1, last, 0xff, c);
      screen[k] := Paint(screen[k], rbit, c);
    }

    /** draw_column(row, y0, y1, c) (TTVout.cpp:219-256): the same swap, then the bit of
        the column painted in byte row / 8 + y0 * _hres and every _hres-th byte after it
        down to row y1. */
    method DrawColumn(row: I16, y0: I16, y1: I16, c: U8)
      requires Valid() && ColumnFits(G(), row, y0, y1, c)
      modifies screen
      ensures screen[..] == Frame.DrawColumn(G(), old(screen[..]), row, y0, y1, c)
    {
      if y0 == y1 {
        SetPixel(row, y0, c);
        return;
      }
      var lo, hi := y0, y1;
      if y1 < y0 {
        lo, hi := y1, ToU8(y0);
      }
      var bit := Bit(row % 8);
      var start := ToI16(Quot(row, 8) + lo * hres);
      if !IsColour(c) {
        return;
      }
      PaintColumn(start, lo, hi, bit, c);
    }

    /** The loop of draw_column: rows lo..hi, one byte every _hres bytes from start. */
    method PaintColumn(start: int, lo: int, hi: int, bit: bv8, c: U8)
      requires Valid() && IsColour(c)
      requires lo <= hi ==> hi < 0x7fff && 0 <= start && start + (hi - lo) * hres <= hres * vres
      modifies screen
      ensures screen[..] == ColumnBytes(old(screen[..]), start, hres, hi - lo + 1, bit, c)
    {
      var byte := start;
      var y := lo;
      while y <= hi
        invariant lo <= y && (y <= hi + 1 || y == lo)
        invariant byte == start + (y - lo) * hres
        invariant screen[..] == ColumnBytes(old(screen[..]), start, hres, y - lo, bit, c)
      {
        MulMono(y - lo, hi - lo, hres);
        assert (y + 1 - lo) * hres == (y - lo) * hres + hres;
        ColumnBytesStep(old(screen[..]), screen[..], start, hres, y - lo, bit, c);
        screen[byte] := Paint(screen[byte], bit, c);
        byte := byte + hres;
        y := y + 1;
      }
      if hi < lo {
        assert ColumnBytes(old(screen[..]), start, hres, 0, bit, c)
            == ColumnBytes(old(screen[..]), start, hres, hi - lo + 1, bit, c);
      }
    }

    // ------------------------------------------------------------ draw_line, draw_rect

    /** draw_line(x0, y0, x1, y1, c) (TTVout.cpp:132-141): the end point first when the
        ends differ, then the do-loop of Bresenham's algorithm from the start point. */
    method DrawLine(x0: I16, y0: I16, x1: I16, y1: I16, c: U8)
      requires Valid()
      modifies screen
      ensures screen[..] == Lines.DrawLine(G(), old(screen[..]), x0, y0, x1, y1, c)
    {
      ghost var e: seq<Pt> := if x0 != x1 || y0 != y1 then [Pt(x1, y1)] else [];
      PlotAllAppend(G(), old(screen[..]), e, LoopPoints(x0, y0, x1, y1), c);
      if x0 != x1 || y0 != y1 {
        SetPixel(x1, y1, c);
        assert [Pt(x1, y1)][1..] == [];
      }
      LineLoop(x0, y0, x1, y1, c);
    }

    /** The do-loop of draw_line (TTVout.cpp:133-140): plot, then step in x when
        e2 > -dy and in y when e2 < dx, until the end point is reached. The ghost
        counts i, j are the steps taken in x and in y. */
    method LineLoop(x0: I16, y0: I16, x1: I16, y1: I16, c: U8)
      requires Valid()
      modifies screen
      ensures screen[..] == PlotAll(G(), old(screen[..]), LoopPoints(x0, y0, x1, y1), c)
    {
      var dx: int := Abs(x1 - x0);
      var dy: int := Abs(y1 - y0);
      var sx := Sgn(x1 - x0);
      var sy := Sgn(y1 - y0);
      var err := dx - dy;
      var x: I16, y: I16 := x0, y0;
      ghost var i, j := 0, 0;
      ghost var target := PlotAll(G(), old(screen[..]), LoopPoints(x0, y0, x1, y1), c);
      var done := false;
      while !done
        invariant 0 <= i <= dx && 0 <= j <= dy
        invariant x == Toward(x0, x1, i) && y == Toward(y0, y1, j)
        invariant !done ==> Walking(dx, dy, i, j, err) && ((i, j) != (dx, dy) || (dx == 0 && dy == 0))
        invariant !done ==> PlotAll(G(), screen[..], Points(Walk(dx, dy, i, j, err), x0, y0, x1, y1), c) == target
        invariant done ==> screen[..] == target
        decreases if done then 0 else dx + dy - i - j + 1
      {
        PlotPass(G(), screen[..], dx, dy, i, j, err, x0, y0, x1, y1, c);
        PassMoves(dx, dy, i, j, err, x0, y0, x1, y1);
        ghost var (i', j', e') := Step(dx, dy, i, j, err);
        SetPixel(x, y, c);
        var e2 := 2 * err;
        if e2 > -dy {
          err := err - dy;
          x := x + sx;
        }
        if e2 < dx {
          err := err + dx;
          y := y + sy;
        }
        i, j := i', j';
        done := x == x1 && y == y1;
      }
    }

    /** draw_rect(x0, y0, w, h, c, fc) (TTVout.cpp:259-282). fc == -1 draws the outline
        with draw_line after w-- and h--; any other fc fills the rows y0 .. y0 + h - 1. */
    method DrawRect(x0: I16, y0: I16, w: I16, h: I16, c: U8, fc: I8)
      requires Valid() && (fc == -1 || Rect.FilledFits(G(), x0, y0, w, h, c))
      modifies screen
      ensures screen[..] == Rect.DrawRect(G(), old(screen[..]), x0, y0, w, h, c, fc)
    {
      if fc == -1 {
        RectOutline(x0, y0, w, h, c);
      } else {
        RectFill(x0, y0, w, h, c);
      }
    }

    /** The outline branch of draw_rect (TTVout.cpp:260-276). */
    method RectOutline(x0: I16, y0: I16, w: I16, h: I16, c: U8)
      requires Valid()
      modifies screen
      ensures screen[..] == PlotAll(G(), old(screen[..]), Rect.OutlinePoints(x0, y0, w, h), c)
    {
      var w' := ToI16(w - 1);
      var h' := ToI16(h - 1);
      var x1 := ToI16(x0 + w');
      var y1 := ToI16(y0 + h');
      if w' == 0 && h' == 0 {
        SetPixel(x0, y0, c);
        assert [Pt(x0, y0)][1..] == [];
      } else if w' == 0 || h' == 0 {
        DrawLine(x0, y0, x1, y1, c);
      } else {
        ghost var s0 := old(screen[..]);
        ghost var top := LinePoints(x0, y0, x1, y0);
        ghost var bottom := LinePoints(x0, y1, x1, y1);
        DrawLine(x0, y0, x1, y0, c);
        DrawLine(x0, y1, x1, y1, c);
        PlotAllAppend(G(), s0, top, bottom, c);
        if h' > 1 {
          var ya := ToI16(y0 + 1);
          var yb := ToI16(y0 + h' - 1);
          ghost var left := LinePoints(x0, ya, x0, yb);
          ghost var right := LinePoints(x1, ya, x1, yb);
          DrawLine(x0, ya, x0, yb, c);
          DrawLine(x1, ya, x1, yb, c);
          PlotAllAppend(G(), s0, top + bottom, left + right, c);
          PlotAllAppend(G(), PlotAll(G(), s0, top + bottom, c), left, right, c);
        } else {
          assert top + bottom + [] == top + bottom;
        }
      }
    }

    /** The filled branch of draw_rect (TTVout.cpp:277-281): draw_row(i, x0, x0 + w, c)
        for i from y0 while i < y0 + h. */
    method RectFill(x0: I16, y0: I16, w: I16, h: I16, c: U8)
      requires Valid() && Rect.FilledFits(G(), x0, y0, w, h, c)
      modifies screen
      ensures screen[..] == Rect.DrawRectFilled(G(), old(screen[..]), x0, y0, w, h, c)
    {
      var x1 := ToI16(x0 + w);
      var i := y0;
      ghost var target := Rect.FillRows(G(), old(screen[..]), y0, y0 + h, x0, x1, c);
      while i < y0 + h
        invariant y0 <= i && (i <= y0 + h || h <= 0)
        invariant Rect.FillRows(G(), screen[..], i, y0 + h, x0, x1, c) == target
      {
        DrawRow(i, x0, x1, c);
        i := i + 1;
      }
    }

    // ------------------------------------------------------------ draw_circle

    /** The eight set_pixel calls of one pass of draw_circle (TTVout.cpp:331-338).
        todo holds the calls still to make. */
    method CircleOctants(x0: I16, y0: I16, x: int, y: int, c: U8)
      requires Valid()
      modifies screen
      ensures screen[..] == Circle.Perform(G(), old(screen[..]), Circle.OctantDots(x0, y0, x, y), c)
    {
      ghost var todo := Circle.OctantDots(x0, y0, x, y);
      Circle.PerformFirst(G(), screen[..], todo, c);
      SetPixel(ToI16(x0 + x), ToI16(y0 + y), c);
      todo := todo[1..];
      Circle.PerformFirst(G(), screen[..], todo, c);
      SetPixel(ToI16(x0 - x), ToI16(y0 + y), c);
      todo := todo[1..];
      Circle.PerformFirst(G(), screen[..], todo, c);
      SetPixel(ToI16(x0 + x), ToI16(y0 - y), c);
      todo := todo[1..];
      Circle.PerformFirst(G(), screen[..], todo, c);
      SetPixel(ToI16(x0 - x), ToI16(y0 - y), c);
      todo := todo[1..];
      Circle.PerformFirst(G(), screen[..], todo, c);
      SetPixel(ToI16(x0 + y), ToI16(y0 + x), c);
      todo := todo[1..];
      Circle.PerformFirst(G(), screen[..], todo, c);
      SetPixel(ToI16(x0 - y), ToI16(y0 + x), c);
      todo := todo[1..];
      Circle.PerformFirst(G(), screen[..], todo, c);
      SetPixel(ToI16(x0 + y), ToI16(y0 - x), c);
      todo := todo[1..];
      Circle.PerformFirst(G(), screen[..], todo, c);
      SetPixel(ToI16(x0 - y), ToI16(y0 - x), c);
      todo := todo[1..];
      assert todo == [];
    }

    /** The draw_row calls of one pass of a filled circle (TTVout.cpp:316-327): rows
        y0 + y and y0 - y unless y is the row drawn last, rows y0 + x and y0 - x unless x
        is the column drawn last or the diagonal is reached. */
    method CircleSpans(x0: I16, y0: I16, x: int, y: int, pyy: int, pyx: int, c: U8)
      requires Valid() && Circle.CmdsFit(G(), Circle.PassSpans(x0, y0, x, y, pyy, pyx), c)
      modifies screen
      ensures screen[..] == Circle.Perform(G(), old(screen[..]), Circle.PassSpans(x0, y0, x, y, pyy, pyx), c)
    {
      ghost var todo := Circle.PassSpans(x0, y0, x, y, pyy, pyx);
      if pyy != y {
        Circle.PerformFirst(G(), screen[..], todo, c);
        DrawRow(ToI16(y0 + y), ToI16(x0 - x), ToI16(x0 + x), c);
        todo := todo[1..];
        Circle.PerformFirst(G(), screen[..], todo, c);
        DrawRow(ToI16(y0 - y), ToI16(x0 - x), ToI16(x0 + x), c);
        todo := todo[1..];
      }
      if pyx != x && x != y {
        Circle.PerformFirst(G(), screen[..], todo, c);
        DrawRow(ToI16(y0 + x), ToI16(x0 - y), ToI16(x0 + y), c);
        todo := todo[1..];
        Circle.PerformFirst(G(), screen[..], todo, c);
        DrawRow(ToI16(y0 - x), ToI16(x0 - y), ToI16(x0 + y), c);
        todo := todo[1..];
      }
      assert todo == [];
    }

    /** The four points on the axes drawn before the loop (TTVout.cpp:299-302). */
    method CircleAxisDots(x0: I16, y0: I16, radius: I16, c: U8)
      requires Valid()
      modifies screen
      ensures screen[..] == Circle.Perform(G(), old(screen[..]), Circle.AxisDots(x0, y0, radius), c)
    {
      ghost var todo := Circle.AxisDots(x0, y0, radius);
      Circle.PerformFirst(G(), screen[..], todo, c);
      SetPixel(x0, ToI16(y0 + radius), c);
      todo := todo[1..];
      Circle.PerformFirst(G(), screen[..], todo, c);
      SetPixel(x0, ToI16(y0 - radius), c);
      todo := todo[1..];
      Circle.PerformFirst(G(), screen[..], todo, c);
      SetPixel(ToI16(x0 + radius), y0, c);
      todo := todo[1..];
      Circle.PerformFirst(G(), screen[..], todo, c);
      SetPixel(ToI16(x0 - radius), y0, c);
      todo := todo[1..];
      assert todo == [];
    }

    /** draw_circle(x0, y0, radius, c, fc) (TTVout.cpp:285-340): the centre row when
        filling, the four axis points, then the midpoint loop. */
    method DrawCircle(x0: I16, y0: I16, radius: I16, c: U8, fc: I8)
      requires Valid() && radius <= 16383
      requires Circle.CmdsFit(G(), Circle.CircleCmds(x0, y0, radius, fc != -1), c)
      modifies screen
      ensures screen[..] == Circle.DrawCircle(G(), old(screen[..]), x0, y0, radius, c, fc)
    {
      var fill := fc != -1;
      ghost var centre := if fill then Circle.CentreSpan(x0, y0, radius) else [];
      Circle.CircleSplit(G(), old(screen[..]), x0, y0, radius, c, fill);
      if fill {
        Circle.PerformFirst(G(), screen[..], centre, c);
        DrawRow(y0, ToI16(x0 - radius), ToI16(x0 + radius), c);
        assert centre[1..] == [];
      }
      CircleAxisDots(x0, y0, radius, c);
      CircleLoop(x0, y0, radius, c, fill);
    }

    /** The midpoint loop of draw_circle (TTVout.cpp:287-292, 305-339): while x + 1 < y,
        step y down when f >= 0, step x up, then draw the pass. */
    method CircleLoop(x0: I16, y0: I16, radius: I16, c: U8, fill: bool)
      requires Valid() && radius <= 16383
      requires Circle.CmdsFit(G(), Circle.LoopCmds(Circle.Start(radius), x0, y0, radius, 0, fill), c)
      modifies screen
      ensures screen[..] == Circle.Perform(G(), old(screen[..]),
                              Circle.LoopCmds(Circle.Start(radius), x0, y0, radius, 0, fill), c)
    {
      var f: int := 1 - radius;
      var ddx: int := 1;
      var ddy: int := -2 * radius;
      var x: int := 0;
      var y: int := radius;
      var pyy: int, pyx: int := y, x;
      ghost var target := Circle.Perform(G(), old(screen[..]),
                            Circle.LoopCmds(Circle.Start(radius), x0, y0, radius, 0, fill), c);
      while x + 1 < y
        invariant Circle.CmdsFit(G(), Circle.LoopCmds(Circle.Midpoint(f, ddx, ddy, x, y), x0, y0, pyy, pyx, fill), c)
        invariant Circle.Perform(G(), screen[..], Circle.LoopCmds(Circle.Midpoint(f, ddx, ddy, x, y), x0, y0, pyy, pyx, fill), c)
                  == target
        decreases y - x
      {
        ghost var m := Circle.Midpoint(f, ddx, ddy, x, y);
        Circle.LoopSplit(G(), screen[..], m, x0, y0, pyy, pyx, fill, c);
        if f >= 0 {
          y := y - 1;
          ddy := ddy + 2;
          f := f + ddy;
        }
        x := x + 1;
        ddx := ddx + 2;
        f := f + ddx;
        assert Circle.Midpoint(f, ddx, ddy, x, y) == Circle.Advance(m);
        CirclePass(x0, y0, x, y, pyy, pyx, c, fill);
        if fill {
          pyy := y;
          pyx := x;
        }
      }
    }

    /** The calls of one pass of the loop after the step. */
    method CirclePass(x0: I16, y0: I16, x: int, y: int, pyy: int, pyx: int, c: U8, fill: bool)
      requires Valid()
      requires Circle.CmdsFit(G(), (if fill then Circle.PassSpans(x0, y0, x, y, pyy, pyx) else []) +
                                   Circle.OctantDots(x0, y0, x, y), c)
      modifies screen
      ensures screen[..] == Circle.Perform(G(), old(screen[..]),
                              (if fill then Circle.PassSpans(x0, y0, x, y, pyy, pyx) else []) +
                              Circle.OctantDots(x0, y0, x, y), c)
    {
      ghost var spans := if fill then Circle.PassSpans(x0, y0, x, y, pyy, pyx) else [];
      Circle.PerformAppend(G(), old(screen[..]), spans, Circle.OctantDots(x0, y0, x, y), c);
      if fill {
        CircleSpans(x0, y0, x, y, pyy, pyx, c);
      }
      CircleOctants(x0, y0, x, y, c);
    }

    // ------------------------------------------------------------ bitmap

    /** bitmap(x, y, bmp, i, width, lines) (TTVout.cpp:343-392): the header, the layout of
        a row, then one pass per line. Nothing is bounds-checked. */
    method Bitmap(x: U16, y: U16, bmp: seq<bv8>, i: U16, width: U16, lines: U16)
      requires Valid() && Blit.BitmapFits(G(), screen[..], x, y, bmp, i, width, lines)
      modifies screen
      ensures screen[..] == Blit.Bitmap(G(), old(screen[..]), x, y, bmp, i, width, lines)
    {
      var rshift := x % 8;
      var w: int := width;
      var n: int := lines;
      var k: int := i;
      if w == 0 {
        w := bmp[k] as int;
        k := k + 1;
      }
      if n == 0 {
        n := bmp[k] as int;
        k := k + 1;
      }
      var xtra: int;
      if w % 8 != 0 {
        xtra := w % 8;
        w := w / 8 + 1;
      } else {
        xtra := 8;
        w := w / 8;
      }
      ghost var p := Blit.PlanOf(bmp, i, width, lines);
      assert p == Blit.Plan(k, n, w, Blit.RowLen(w), xtra);
      BitmapLines(x, y, bmp, p, k, n, w, rshift, xtra);
    }

    /** bitmap's row loop (TTVout.cpp:370-391): row l, p.n image bytes read on from
        p.start + l * p.n, is blitted at frame byte (y + l) * _hres + x / 8. */
    method BitmapLines(x: U16, y: U16, bmp: seq<bv8>, ghost p: Blit.Plan, k0: int, n: int, w: int, rshift: int, xtra: int)
      requires Valid() && p == Blit.Plan(k0, n, w, Blit.RowLen(w), xtra)
      requires 0 <= k0 && 0 <= n <= 0xff && 1 <= xtra <= 8 && rshift == x % 8
      requires k0 + n * p.n <= |bmp|
      requires n > 0 ==> Blit.RowAt(G(), x, y, n - 1) + p.n < screen.Length
      modifies screen
      ensures screen[..] == Blit.BlitRows(G(), old(screen[..]), x, y, bmp, p, 0)
    {
      ghost var g := G();
      ghost var target := Blit.BlitRows(g, screen[..], x, y, bmp, p, 0);
      var k := k0;
      var l := 0;
      while l < n
        invariant 0 <= l <= n && k == p.start + l * p.n
        invariant Blit.BlitRows(g, screen[..], x, y, bmp, p, l) == target
      {
        var si := (y + l) * hres + x / 8;
        ghost var before := screen[..];
        Blit.BlitRowsNext(g, before, x, y, bmp, p, l, si, k);
        ghost var row := bmp[k .. k + Blit.RowLen(w)];
        assert row == bmp[k .. k + p.n];
        k := BitmapRow(si, bmp, k, w, rshift, xtra);
        assert screen[..] == Blit.BlitRow(before, si, row, w, rshift, xtra);
        l := l + 1;
      }
    }

    /** One pass of bitmap's row loop (TTVout.cpp:371-390) on the row whose first byte is
        si0, reading the image from i0: the first byte masked and ored, each further byte
        built from two image bytes, the columns after the image in the last byte taken
        back from save, then the spill byte. Returns the image index past the row. */
    method BitmapRow(si0: int, bmp: seq<bv8>, i0: int, w: int, r: int, xtra: int) returns (i: int)
      requires Valid() && 0 <= r < 8 && 1 <= xtra <= 8
      requires 0 <= si0 && si0 + Blit.RowLen(w) < screen.Length
      requires 0 <= i0 && i0 + Blit.RowLen(w) <= |bmp|
      modifies screen
      ensures i == i0 + Blit.RowLen(w)
      ensures screen[..] == Blit.BlitRow(old(screen[..]), si0, bmp[i0 .. i0 + Blit.RowLen(w)], w, r, xtra)
    {
      ghost var m := screen[..];
      ghost var t := bmp[i0 .. i0 + Blit.RowLen(w)];
      var save := screen[si0];
      screen[si0] := FirstByte(screen[si0], bmp[i0], w, r, xtra);
      Blit.RowFrontStart(m, si0, t, w, r, xtra);
      var si, temp;
      si, i, temp, save := BitmapRowMiddle(m, si0, bmp, i0, w, r, xtra, save);
      Blit.BlitRowSteps(m, si0, t, w, r, xtra);
      BitmapRowEnd(si, save, temp, r, xtra);
    }

    /** The inner loop of a bitmap row (TTVout.cpp:380-385), after the first byte: each
        further byte is the previous image byte shifted left ored with the next one
        shifted right. Returns the frame and image indices past the row, the last image
        byte and the old value of the last frame byte written. */
    method BitmapRowMiddle(ghost m: seq<bv8>, si0: int, bmp: seq<bv8>, i0: int, w: int, r: int, xtra: int, save0: bv8)
      returns (si: int, i: int, temp: bv8, save: bv8)
      requires Valid() && 0 <= r < 8 && 1 <= xtra <= 8 && |m| == screen.Length
      requires 0 <= si0 && si0 + Blit.RowLen(w) < screen.Length
      requires 0 <= i0 && i0 + Blit.RowLen(w) <= |bmp| && save0 == m[si0]
      requires screen[..] == Blit.RowFront(m, si0, bmp[i0 .. i0 + Blit.RowLen(w)], w, r, xtra, 1)
      modifies screen
      ensures si == si0 + Blit.RowLen(w) && i == i0 + Blit.RowLen(w)
      ensures temp == bmp[i - 1] && save == m[si - 1]
      ensures screen[..] == Blit.RowFront(m, si0, bmp[i0 .. i0 + Blit.RowLen(w)], w, r, xtra, Blit.RowLen(w))
    {
      ghost var t := bmp[i0 .. i0 + Blit.RowLen(w)];
      ghost var n := Blit.RowLen(w);
      si, i, temp, save := si0 + 1, i0 + 1, bmp[i0], save0;
      var b := i + w - 1;
      while i < b
        invariant si - si0 == i - i0 && 1 <= si - si0 <= n && b == i0 + w
        invariant temp == t[si - si0 - 1] && save == m[si - 1]
        invariant screen[..] == Blit.RowFront(m, si0, t, w, r, xtra, si - si0)
      {
        Blit.RowFrontStep(m, si0, t, w, r, xtra, si - si0);
        save := screen[si];
        screen[si] := Shl(temp, 8 - r);
        temp := bmp[i];
        screen[si] := screen[si] | Shr(temp, r);
        si := si + 1;
        i := i + 1;
      }
    }

    /** The end of a row of bitmap (TTVout.cpp:386-389): the last byte written, si - 1,
        gets back from save the columns after the image; the spill byte si has its first
        r + xtra - 8 columns cleared, then the last image byte shifted left ored in. */
    method BitmapRowEnd(si: int, save: bv8, temp: bv8, r: int, xtra: int)
      requires Valid() && 0 <= r < 8 && 1 <= xtra <= 8 && 1 <= si < screen.Length
      modifies screen
      ensures screen[..] == old(screen[..])[si - 1 := Blit.RowLast(old(screen[si - 1]), save, r, xtra)]
                                           [si := Blit.RowSpill(old(screen[si]), temp, r, xtra)]
    {
      var last := LastByte(screen[si - 1], save, r, xtra);
      var spill := SpillByte(screen[si], temp, r, xtra);
      screen[si - 1], screen[si] := last, spill;
    }

    // ------------------------------------------------------------ shift

    /** shift(distance, direction) (TTVout.cpp:395-470). LEFT and RIGHT need
        distance / 8 < _hres, and count rows in a uint8_t, so they need _vres <= 255. */
    method Shift(distance: U8, direction: U8)
      requires Valid()
      requires (direction == Scroll.LEFT || direction == Scroll.RIGHT) ==> distance / 8 < hres && vres <= 0xff
      modifies screen
      ensures screen[..] == Scroll.Shift(G(), old(screen[..]), distance, direction)
    {
      if direction == Scroll.UP {
        ShiftUp(distance);
      } else if direction == Scroll.DOWN {
        ShiftDown(distance);
      } else if direction == Scroll.LEFT {
        ShiftLeft(distance);
      } else if direction == Scroll.RIGHT {
        ShiftRight(distance);
      }
    }

    /** The UP case: dst from the first byte and src distance rows on, while src is inside
        the frame. */
    method ShiftUp(distance: U8)
      requires Valid()
      modifies screen
      ensures screen[..] == Scroll.ShiftUp(G(), old(screen[..]), distance)
    {
      ghost var s0 := screen[..];
      var dd := distance * hres;
      var dst := 0;
      var src := dd;
      var end := vres * hres;
      while src < end
        invariant 0 <= dst && src == dst + dd
        invariant dd < end ==> src <= end && screen[..] == Scroll.UpPartial(s0, dd, dst)
        invariant dd >= end ==> screen[..] == s0
        decreases end - src
      {
        Scroll.UpStep(s0, dd, dst);
        screen[dst] := screen[src];
        screen[src] := 0;
        dst := dst + 1;
        src := src + 1;
      }
    }

    /** The DOWN case: dst from the byte past the frame and src distance rows before it,
        down to the first byte. */
    method ShiftDown(distance: U8)
      requires Valid()
      modifies screen
      ensures screen[..] == Scroll.ShiftDown(G(), old(screen[..]), distance)
    {
      ghost var s0 := screen[..];
      var dd := distance * hres;
      var n := vres * hres;
      var dst := n;
      var src := dst - dd;
      while src >= 0
        invariant dst == src + dd && src <= n - dd
        invariant dd <= n ==> -1 <= src && screen[..] == Scroll.DownPartial(s0, n, dd, n - dd - src)
        invariant dd > n ==> screen[..] == s0
        decreases src
      {
        Scroll.DownStep(s0, n, dd, n - dd - src);
        screen[dst] := screen[src];
        screen[src] := 0;
        dst := dst - 1;
        src := src - 1;
      }
    }

    /** The LEFT case: each row in turn, shift = distance & 7. */
    method ShiftLeft(distance: U8)
      requires Valid() && distance / 8 < hres && vres <= 0xff
      modifies screen
      ensures screen[..] == Scroll.ShiftLeft(G(), old(screen[..]), distance)
    {
      ghost var s0 := screen[..];
      var shift := distance % 8;
      Scroll.LeftRowsEnds(G(), s0, distance);
      var line := 0;
      while line < vres
        invariant 0 <= line <= vres
        invariant screen[..] == Scroll.LeftRows(G(), s0, distance, line)
      {
        Scroll.LeftRowsStep(G(), s0, distance, line);
        ShiftRowLeft(hres * line, distance / 8, shift);
        line := line + 1;
      }
    }

    /** One row of shift(LEFT): dst from the row's first byte and src q bytes on, while
        src is before the row's last byte; then the last byte. */
    method ShiftRowLeft(base: int, q: int, sh: int)
      requires Scroll.RowShift(screen[..], base, hres, q, sh)
      modifies screen
      ensures screen[..] == Scroll.LeftRow(old(screen[..]), base, hres, q, sh)
    {
      ghost var s0 := screen[..];
      var dst := base;
      var src := dst + q;
      var end := dst + hres - 2;
      Scroll.LeftRowStart(s0, base, hres, q, sh);
      ghost var t := 0;
      while src <= end
        invariant 0 <= t <= hres - 1 - q && dst == base + t && src == dst + q
        invariant screen[..] == Scroll.LeftRowPartial(s0, base, hres, q, sh, t)
      {
        Scroll.LeftRowStep(s0, base, hres, q, sh, t);
        var tmp := Shl(screen[src], sh);
        screen[src] := 0;
        src := src + 1;
        tmp := tmp | Shr(screen[src], 8 - sh);
        screen[dst] := tmp;
        dst := dst + 1;
        t := t + 1;
      }
      Scroll.LeftRowEnd(s0, base, hres, q, sh);
      var tmp := Shl(screen[src], sh);
      screen[src] := 0;
      screen[dst] := tmp;
    }

    /** The RIGHT case: each row in turn, shift = distance & 7. */
    method ShiftRight(distance: U8)
      requires Valid() && distance / 8 < hres && vres <= 0xff
      modifies screen
      ensures screen[..] == Scroll.ShiftRight(G(), old(screen[..]), distance)
    {
      ghost var s0 := screen[..];
      var shift := distance % 8;
      Scroll.RightRowsEnds(G(), s0, distance);
      var line := 0;
      while line < vres
        invariant 0 <= line <= vres
        invariant screen[..] == Scroll.RightRows(G(), s0, distance, line)
      {
        Scroll.RightRowsStep(G(), s0, distance, line);
        ShiftRowRight(hres * line, distance / 8, shift);
        line := line + 1;
      }
    }

    /** One row of shift(RIGHT): dst from the row's last byte and src q bytes before it,
        while src is after the row's first byte; then the first byte. */
    method ShiftRowRight(base: int, q: int, sh: int)
      requires Scroll.RowShift(screen[..], base, hres, q, sh)
      modifies screen
      ensures screen[..] == Scroll.RightRow(old(screen[..]), base, hres, q, sh)
    {
      ghost var s0 := screen[..];
      var dst := base + hres - 1;
      var src := dst - q;
      var end := dst - hres + 2;
      Scroll.RightRowStart(s0, base, hres, q, sh);
      while src >= end
        invariant dst <= base + hres - 1 && src == dst - q && base + hres - 1 - dst <= hres - 1 - q
        invariant screen[..] == Scroll.RightRowPartial(s0, base, hres, q, sh, base + hres - 1 - dst)
      {
        Scroll.RightRowStep(s0, base, hres, q, sh, base + hres - 1 - dst);
        var tmp := Shr(screen[src], sh);
        screen[src] := 0;
        src := src - 1;
        tmp := tmp | Shl(screen[src], 8 - sh);
        screen[dst] := tmp;
        dst := dst - 1;
      }
      Scroll.RightRowEnd(s0, base, hres, q, sh);
      var tmp := Shr(screen[src], sh);
      screen[src] := 0;
      screen[dst] := tmp;
    }
  }

  /** The first byte of a bitmap row (TTVout.cpp:372-379): the screen's columns before r
      kept, and after the image too when the row is one byte wide, then the first image
      byte shifted right ored in. */
  method FirstByte(b: bv8, t0: bv8, w: int, r: int, xtra: int) returns (v: bv8)
    requires 0 <= r < 8 && 1 <= xtra <= 8
    ensures v == Blit.RowFirst(b, t0, w, r, xtra)
  {
    var temp: bv8;
    if w == 1 {
      temp := Ones(r + xtra);
    } else {
      temp := 0;
    }
    v := b & (Shl(0xff, 8 - r) | temp);
    v := v | Shr(t0, r);
  }

  /** The last byte of a bitmap row (TTVout.cpp:386-387): the screen's columns from
      r + xtra on are ored back from the saved byte. */
  method LastByte(v: bv8, save: bv8, r: int, xtra: int) returns (b: bv8)
    requires 0 <= r < 8 && 1 <= xtra <= 8
    ensures b == Blit.RowLast(v, save, r, xtra)
  {
    b := v;
    if r + xtra < 8 {
      b := b | (save & Ones(r + xtra));
    }
  }

  /** The spill byte of a bitmap row (TTVout.cpp:388-390). */
  method SpillByte(v: bv8, temp: bv8, r: int, xtra: int) returns (b: bv8)
    requires 0 <= r < 8 && 1 <= xtra <= 8
    ensures b == Blit.RowSpill(v, temp, r, xtra)
  {
    b := v;
    if r + xtra - 8 > 0 {
      b := b & Ones(r + xtra - 8);
    }
    b := b | Shl(temp, 8 - r);
  }
}

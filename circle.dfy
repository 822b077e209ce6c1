/** draw_circle (TTVout.cpp:285-340): the midpoint algorithm on one octant, with f
    the decision term and ddF_x, ddF_y its increments, mirrored to the eight octants
    by set_pixel and, when filling, to rows by draw_row. The loop stops once x + 1 is
    no longer below y. */
module Circle {
  import opened Bits
  import opened Frame

  /** One call the source makes: set_pixel(x, y, c) or draw_row(line, x0, x1, c). */
  datatype Cmd = Dot(x: I16, y: I16) | Span(line: I16, x0: I16, x1: I16)

  /** The loop variables f, ddF_x, ddF_y, x, y. */
  datatype Midpoint = Midpoint(f: int, ddx: int, ddy: int, x: int, y: int)

  /** Their values before the loop for a given radius. */
  function Start(r: int): Midpoint {
    Midpoint(1 - r, 1, -2 * r, 0, r)
  }

  /** One pass of the loop body up to the drawing: step y down when f >= 0, then x up. */
  function Advance(m: Midpoint): (m': Midpoint)
    ensures m'.x == m.x + 1 && (m'.y == m.y || m'.y == m.y - 1)
  {
    var (y, ddy, f) := if m.f >= 0 then (m.y - 1, m.ddy + 2, m.f + m.ddy + 2) else (m.y, m.ddy, m.f);
    Midpoint(f + m.ddx + 2, m.ddx + 2, ddy, m.x + 1, y)
  }

  /** The loop invariant: the increments and f as closed forms of x, y and r. */
  predicate Inv(m: Midpoint, r: int) {
    m.ddx == 2 * m.x + 1 && m.ddy == -2 * m.y &&
    m.f == (m.x + 1) * (m.x + 1) + m.y * m.y - m.y - r * r
  }

  /** The bounds the decision term keeps for r >= 1: 2x + 1 - 2y <= f < 2x + 1, and x <= y. */
  predicate Tight(m: Midpoint) {
    2 * m.x + 1 - 2 * m.y <= m.f < 2 * m.x + 1 && 0 <= m.x <= m.y
  }

  /** The distance of an offset from the centre line. */
  function Mag(a: int): (n: int)
    ensures n >= 0 && (n == a || n == -a)
  {
    if a < 0 then -a else a
  }

  /** With u <= v, the circle of radius r crosses the line at offset u within half a
      pixel of v: u^2 + v^2 - v < r^2 <= u^2 + v^2 + v. */
  predicate Ring(u: int, v: int, r: int) {
    u * u + v * v - v < r * r <= u * u + v * v + v
  }

  /** (a, b) is a pixel nearest the circle of radius r: Ring holds for the smaller and
      the larger of |a| and |b|. */
  predicate Near(a: int, b: int, r: int) {
    if Mag(a) < Mag(b) then Ring(Mag(a), Mag(b), r) else Ring(Mag(b), Mag(a), r)
  }

  lemma StartInv(r: int)
    ensures Inv(Start(r), r)
    ensures r >= 1 ==> Tight(Start(r))
  {
  }

  /** A pass of the loop keeps the closed forms. */
  lemma AdvanceInv(m: Midpoint, r: int)
    requires Inv(m, r)
    ensures Inv(Advance(m), r)
  {
    var m' := Advance(m);
    if m.f >= 0 {
      assert m'.f == m.f - 2 * m.y + 2 + 2 * m.x + 3;
      assert (m.x + 2) * (m.x + 2) == (m.x + 1) * (m.x + 1) + 2 * m.x + 3;
      assert (m.y - 1) * (m.y - 1) == m.y * m.y - 2 * m.y + 1;
    } else {
      assert (m.x + 2) * (m.x + 2) == (m.x + 1) * (m.x + 1) + 2 * m.x + 3;
    }
  }

  /** A pass taken while x + 1 < y keeps the tight bounds. */
  lemma AdvanceTight(m: Midpoint, r: int)
    requires Inv(m, r) && Tight(m) && m.x + 1 < m.y
    ensures Tight(Advance(m))
  {
  }

  /** Under the invariant and the bounds, (x, y) is nearest the circle. */
  lemma TightNear(m: Midpoint, r: int)
    requires Inv(m, r) && Tight(m)
    ensures m.x * m.x + m.y * m.y - m.y < r * r <= m.x * m.x + m.y * m.y + m.y
    ensures Near(m.x, m.y, r) && Near(m.y, m.x, r)
    ensures Near(m.x, -m.y, r) && Near(-m.x, m.y, r) && Near(-m.x, -m.y, r)
    ensures Near(m.y, -m.x, r) && Near(-m.y, m.x, r) && Near(-m.y, -m.x, r)
  {
    assert (m.x + 1) * (m.x + 1) == m.x * m.x + 2 * m.x + 1;
  }

  /** When the loop stops, x + 1 >= y, and for r >= 1 also x <= y: the octant is done. */
  lemma StopsAtDiagonal(m: Midpoint)
    requires Tight(m) && !(m.x + 1 < m.y)
    ensures m.y - 1 <= m.x <= m.y
  {
  }

  /** The fill rows of one pass after Advance, unless they repeat the rows drawn
      last (pyy, pyx). Arguments are int sums converted to the int16_t parameters. */
  function PassSpans(x0: int, y0: int, x: int, y: int, pyy: int, pyx: int): (d: seq<Cmd>)
    ensures forall k :: 0 <= k < |d| ==> d[k].Span?
  {
    (if pyy != y then [Span(ToI16(y0 + y), ToI16(x0 - x), ToI16(x0 + x)),
                       Span(ToI16(y0 - y), ToI16(x0 - x), ToI16(x0 + x))] else []) +
    (if pyx != x && x != y then [Span(ToI16(y0 + x), ToI16(x0 - y), ToI16(x0 + y)),
                                 Span(ToI16(y0 - x), ToI16(x0 - y), ToI16(x0 + y))] else [])
  }

  /** The four points mirrored about the centre at offsets (+-a, +-b), in the order
      the source plots them. */
  function Mirror(x0: int, y0: int, a: int, b: int): (d: seq<Cmd>)
    ensures |d| == 4 && forall k :: 0 <= k < |d| ==> d[k].Dot?
  {
    [Dot(ToI16(x0 + a), ToI16(y0 + b)), Dot(ToI16(x0 - a), ToI16(y0 + b)),
     Dot(ToI16(x0 + a), ToI16(y0 - b)), Dot(ToI16(x0 - a), ToI16(y0 - b))]
  }

  /** The eight octant points of one pass. */
  function OctantDots(x0: int, y0: int, x: int, y: int): (d: seq<Cmd>)
    ensures |d| == 8 && forall k :: 0 <= k < |d| ==> d[k].Dot?
  {
    Mirror(x0, y0, x, y) + Mirror(x0, y0, y, x)
  }

  /** The calls of one pass after Advance: the fill rows, then the octant points. */
  function PassCmds(m: Midpoint, x0: int, y0: int, pyy: int, pyx: int, fill: bool): seq<Cmd> {
    (if fill then PassSpans(x0, y0, m.x, m.y, pyy, pyx) else []) + OctantDots(x0, y0, m.x, m.y)
  }

  /** The calls of the loop from state m on. pyy and pyx follow y and x only when filling. */
  function LoopCmds(m: Midpoint, x0: int, y0: int, pyy: int, pyx: int, fill: bool): seq<Cmd>
    decreases m.y - m.x
  {
    if !(m.x + 1 < m.y) then []
    else
      var m' := Advance(m);
      PassCmds(m', x0, y0, pyy, pyx, fill) +
      LoopCmds(m', x0, y0, if fill then m'.y else pyy, if fill then m'.x else pyx, fill)
  }

  /** The first row a filled circle draws, through the centre. */
  function CentreSpan(x0: int, y0: int, r: int): (d: seq<Cmd>)
    ensures forall k :: 0 <= k < |d| ==> d[k].Span?
  {
    [Span(ToI16(y0), ToI16(x0 - r), ToI16(x0 + r))]
  }

  /** The four points plotted before the loop. */
  function AxisDots(x0: int, y0: int, r: int): (d: seq<Cmd>)
    ensures forall k :: 0 <= k < |d| ==> d[k].Dot?
  {
    [Dot(ToI16(x0), ToI16(y0 + r)), Dot(ToI16(x0), ToI16(y0 - r)),
     Dot(ToI16(x0 + r), ToI16(y0)), Dot(ToI16(x0 - r), ToI16(y0))]
  }

  /** Every call draw_circle(x0, y0, r, c, fc) makes, in order; fill is fc != -1. The
      radius is at most 16383: beyond it int16_t ddF_y = -2 * radius wraps (see NoWrap). */
  function CircleCmds(x0: int, y0: int, r: int, fill: bool): seq<Cmd>
    requires r <= 16383
  {
    (if fill then CentreSpan(x0, y0, r) else []) + AxisDots(x0, y0, r) +
    LoopCmds(Start(r), x0, y0, r, 0, fill)
  }

  /** The rows must lie in the memory: draw_row does no bounds check. */
  predicate CmdsFit(g: Geom, cmds: seq<Cmd>, c: int) {
    forall k :: 0 <= k < |cmds| && cmds[k].Span? ==>
      RowFits(g, cmds[k].line, cmds[k].x0, cmds[k].x1, c)
  }

  /** The calls applied in order. */
  function Perform(g: Geom, s: seq<bv8>, cmds: seq<Cmd>, c: int): (r: seq<bv8>)
    requires Shaped(g, s) && CmdsFit(g, cmds, c)
    ensures Shaped(g, r)
    decreases |cmds|
  {
    if cmds == [] then s
    else
      var s' := match cmds[0]
        case Dot(x, y) => SetPixel(g, s, x, y, c)
        case Span(line, a, b) => DrawRow(g, s, line, a, b, c);
      assert CmdsFit(g, cmds[1..], c) by {
        forall k | 0 <= k < |cmds[1..]| && cmds[1..][k].Span?
          ensures RowFits(g, cmds[1..][k].line, cmds[1..][k].x0, cmds[1..][k].x1, c)
        {
          assert cmds[1..][k] == cmds[k + 1];
        }
      }
      Perform(g, s', cmds[1..], c)
  }

  /** Perform runs the first call, then the rest. */
  lemma PerformFirst(g: Geom, s: seq<bv8>, cmds: seq<Cmd>, c: int)
    requires Shaped(g, s) && CmdsFit(g, cmds, c) && cmds != []
    ensures CmdsFit(g, cmds[1..], c)
    ensures cmds[0].Dot? ==>
              Perform(g, s, cmds, c) == Perform(g, SetPixel(g, s, cmds[0].x, cmds[0].y, c), cmds[1..], c)
    ensures cmds[0].Span? ==> RowFits(g, cmds[0].line, cmds[0].x0, cmds[0].x1, c)
    ensures cmds[0].Span? ==>
              Perform(g, s, cmds, c) == Perform(g, DrawRow(g, s, cmds[0].line, cmds[0].x0, cmds[0].x1, c), cmds[1..], c)
  {
    assert CmdsFit(g, cmds[1..], c) by {
      forall k | 0 <= k < |cmds[1..]| && cmds[1..][k].Span?
        ensures RowFits(g, cmds[1..][k].line, cmds[1..][k].x0, cmds[1..][k].x1, c)
      {
        assert cmds[1..][k] == cmds[k + 1];
      }
    }
  }

  lemma {:induction false} PerformAppend(g: Geom, s: seq<bv8>, a: seq<Cmd>, b: seq<Cmd>, c: int)
    requires Shaped(g, s) && CmdsFit(g, a + b, c)
    decreases |a|
    ensures CmdsFit(g, a, c) && CmdsFit(g, b, c)
    ensures Perform(g, s, a + b, c) == Perform(g, Perform(g, s, a, c), b, c)
  {
    assert CmdsFit(g, a, c) by {
      forall k | 0 <= k < |a| && a[k].Span? ensures RowFits(g, a[k].line, a[k].x0, a[k].x1, c) {
        assert (a + b)[k] == a[k];
      }
    }
    assert CmdsFit(g, b, c) by {
      forall k | 0 <= k < |b| && b[k].Span? ensures RowFits(g, b[k].line, b[k].x0, b[k].x1, c) {
        assert (a + b)[|a| + k] == b[k];
      }
    }
    if a == [] {
      assert a + b == b;
    } else {
      assert (a + b)[1..] == a[1..] + b;
      var s' := match a[0]
        case Dot(x, y) => SetPixel(g, s, x, y, c)
        case Span(line, x0, x1) => DrawRow(g, s, line, x0, x1, c);
      assert (a + b)[0] == a[0];
      PerformAppend(g, s', a[1..], b, c);
    }
  }

  /** draw_circle(x0, y0, r, c, fc). */
  function DrawCircle(g: Geom, s: seq<bv8>, x0: I16, y0: I16, r: I16, c: int, fc: I8): (t: seq<bv8>)
    requires Shaped(g, s) && r <= 16383 && CmdsFit(g, CircleCmds(x0, y0, r, fc != -1), c)
    ensures Shaped(g, t)
  {
    Perform(g, s, CircleCmds(x0, y0, r, fc != -1), c)
  }

  /** draw_circle is its head calls, then its loop. */
  lemma CircleSplit(g: Geom, s: seq<bv8>, x0: I16, y0: I16, r: I16, c: int, fill: bool)
    requires Shaped(g, s) && r <= 16383 && CmdsFit(g, CircleCmds(x0, y0, r, fill), c)
    ensures var centre := if fill then CentreSpan(x0, y0, r) else [];
            var loop := LoopCmds(Start(r), x0, y0, r, 0, fill);
            CmdsFit(g, centre, c) && CmdsFit(g, AxisDots(x0, y0, r), c) && CmdsFit(g, loop, c) &&
            Perform(g, s, CircleCmds(x0, y0, r, fill), c)
            == Perform(g, Perform(g, Perform(g, s, centre, c), AxisDots(x0, y0, r), c), loop, c)
  {
    var centre := if fill then CentreSpan(x0, y0, r) else [];
    var axes := AxisDots(x0, y0, r);
    var loop := LoopCmds(Start(r), x0, y0, r, 0, fill);
    PerformAppend(g, s, centre + axes, loop, c);
    PerformAppend(g, s, centre, axes, c);
  }

  /** A pass of the loop: its calls, then the loop from the stepped state. */
  lemma LoopSplit(g: Geom, s: seq<bv8>, m: Midpoint, x0: int, y0: int, pyy: int, pyx: int, fill: bool, c: int)
    requires Shaped(g, s) && CmdsFit(g, LoopCmds(m, x0, y0, pyy, pyx, fill), c) && m.x + 1 < m.y
    ensures var m' := Advance(m);
            var pass := PassCmds(m', x0, y0, pyy, pyx, fill);
            var rest := LoopCmds(m', x0, y0, if fill then m'.y else pyy, if fill then m'.x else pyx, fill);
            CmdsFit(g, pass, c) && CmdsFit(g, rest, c) &&
            Perform(g, s, LoopCmds(m, x0, y0, pyy, pyx, fill), c) == Perform(g, Perform(g, s, pass, c), rest, c)
  {
    var m' := Advance(m);
    var pass := PassCmds(m', x0, y0, pyy, pyx, fill);
    var rest := LoopCmds(m', x0, y0, if fill then m'.y else pyy, if fill then m'.x else pyx, fill);
    PerformAppend(g, s, pass, rest, c);
  }

  /** The set_pixel calls among the calls, in order. */
  function Dots(cmds: seq<Cmd>): seq<Cmd>
    ensures forall d :: d in Dots(cmds) ==> d.Dot? && d in cmds
  {
    if cmds == [] then []
    else (if cmds[0].Dot? then [cmds[0]] else []) + Dots(cmds[1..])
  }

  lemma {:induction false} DotsAppend(a: seq<Cmd>, b: seq<Cmd>)
    decreases |a|
    ensures Dots(a + b) == Dots(a) + Dots(b)
  {
    if a == [] {
      assert a + b == b;
    } else {
      assert (a + b)[1..] == a[1..] + b;
      DotsAppend(a[1..], b);
    }
  }

  lemma DotsSpans(a: seq<Cmd>)
    requires forall k :: 0 <= k < |a| ==> a[k].Span?
    ensures Dots(a) == []
    decreases |a|
  {
    if a != [] {
      DotsSpans(a[1..]);
    }
  }

  lemma DotsDots(a: seq<Cmd>)
    requires forall k :: 0 <= k < |a| ==> a[k].Dot?
    ensures Dots(a) == a
    decreases |a|
  {
    if a != [] {
      DotsDots(a[1..]);
    }
  }

  /** The octant points of a pass do not depend on filling. */
  lemma PassDots(m: Midpoint, x0: int, y0: int, pyy: int, pyx: int, pyy': int, pyx': int)
    ensures Dots(PassCmds(m, x0, y0, pyy, pyx, true)) == Dots(PassCmds(m, x0, y0, pyy', pyx', false))
  {
    var spans := PassSpans(x0, y0, m.x, m.y, pyy, pyx);
    var dots := OctantDots(x0, y0, m.x, m.y);
    DotsDots(dots);
    DotsSpans(spans);
    DotsAppend(spans, dots);
    DotsAppend([], dots);
  }

  lemma {:induction false} LoopDots(m: Midpoint, x0: int, y0: int, pyy: int, pyx: int, pyy': int, pyx': int)
    decreases m.y - m.x
    ensures Dots(LoopCmds(m, x0, y0, pyy, pyx, true)) == Dots(LoopCmds(m, x0, y0, pyy', pyx', false))
  {
    if m.x + 1 < m.y {
      var m' := Advance(m);
      PassDots(m', x0, y0, pyy, pyx, pyy', pyx');
      LoopDots(m', x0, y0, m'.y, m'.x, pyy', pyx');
      DotsAppend(PassCmds(m', x0, y0, pyy, pyx, true), LoopCmds(m', x0, y0, m'.y, m'.x, true));
      DotsAppend(PassCmds(m', x0, y0, pyy', pyx', false), LoopCmds(m', x0, y0, pyy', pyx', false));
    }
  }

  /** A filled circle plots the same octant points as an outline, in the same order:
      filling does not replace the set_pixel calls. */
  lemma FillKeepsDots(x0: int, y0: int, r: int)
    requires r <= 16383
    ensures Dots(CircleCmds(x0, y0, r, true)) == Dots(CircleCmds(x0, y0, r, false))
  {
    var head := AxisDots(x0, y0, r);
    var span := CentreSpan(x0, y0, r);
    var lt := LoopCmds(Start(r), x0, y0, r, 0, true);
    var lf := LoopCmds(Start(r), x0, y0, r, 0, false);
    LoopDots(Start(r), x0, y0, r, 0, r, 0);
    DotsSpans(span);
    DotsDots(head);
    DotsAppend(span, head);
    DotsAppend(span + head, lt);
    DotsAppend([], head);
    DotsAppend([] + head, lf);
  }

  /** A call is nearest the circle around (x0, y0): a point at offsets nearest it, or a
      row symmetric about x0 whose half-width and row offset are nearest it. */
  predicate CmdNear(d: Cmd, x0: int, y0: int, r: int) {
    match d
    case Dot(x, y) => Near(x - x0, y - y0, r)
    case Span(line, a, b) => a + b == 2 * x0 && Near(b - x0, line - y0, r)
  }

  predicate AllNear(cmds: seq<Cmd>, x0: int, y0: int, r: int) {
    forall k :: 0 <= k < |cmds| ==> CmdNear(cmds[k], x0, y0, r)
  }

  lemma AllNearAppend(a: seq<Cmd>, b: seq<Cmd>, x0: int, y0: int, r: int)
    requires AllNear(a, x0, y0, r) && AllNear(b, x0, y0, r)
    ensures AllNear(a + b, x0, y0, r)
  {
    forall k | 0 <= k < |a + b| ensures CmdNear((a + b)[k], x0, y0, r) {
      if k < |a| {
        assert (a + b)[k] == a[k];
      } else {
        assert (a + b)[k] == b[k - |a|];
      }
    }
  }

  /** Coordinates within y of the centre fit the int16_t parameters unchanged. */
  predicate CentreRoom(x0: int, y0: int, r: int) {
    -0x8000 <= x0 - r && x0 + r < 0x8000 && -0x8000 <= y0 - r && y0 + r < 0x8000
  }

  lemma PassNear(m: Midpoint, x0: int, y0: int, pyy: int, pyx: int, fill: bool, r: int)
    requires Inv(m, r) && Tight(m) && m.y <= r && CentreRoom(x0, y0, r)
    ensures AllNear(PassCmds(m, x0, y0, pyy, pyx, fill), x0, y0, r)
  {
    var spans := PassSpans(x0, y0, m.x, m.y, pyy, pyx);
    var dots := OctantDots(x0, y0, m.x, m.y);
    TightNear(m, r);
    OctantNear(x0, y0, m.x, m.y, r);
    if fill {
      SpansNear(x0, y0, m.x, m.y, pyy, pyx, r);
      AllNearAppend(spans, dots, x0, y0, r);
    } else {
      assert PassCmds(m, x0, y0, pyy, pyx, fill) == dots;
    }
  }

  /** The eight points nearest the circle for offsets (x, y) with 0 <= x <= y <= r. */
  predicate EightNear(x: int, y: int, r: int) {
    Near(x, y, r) && Near(y, x, r) && Near(x, -y, r) && Near(-x, y, r) && Near(-x, -y, r) &&
    Near(y, -x, r) && Near(-y, x, r) && Near(-y, -x, r)
  }

  /** A point (px, py) within r of the centre whose offsets are nearest the circle,
      converted to int16_t without wrapping. */
  lemma DotNear(x0: int, y0: int, px: int, py: int, r: int)
    requires -r <= px - x0 <= r && -r <= py - y0 <= r && CentreRoom(x0, y0, r)
    requires Near(px - x0, py - y0, r)
    ensures CmdNear(Dot(ToI16(px), ToI16(py)), x0, y0, r)
  {
    assert ToI16(px) == px && ToI16(py) == py;
  }

  /** The row at line ly from x0 - a to x0 + a, with (a, ly - y0) nearest the circle. */
  lemma SpanNear(x0: int, y0: int, a: int, ly: int, r: int)
    requires 0 <= a <= r && -r <= ly - y0 <= r && CentreRoom(x0, y0, r) && Near(a, ly - y0, r)
    ensures CmdNear(Span(ToI16(ly), ToI16(x0 - a), ToI16(x0 + a)), x0, y0, r)
  {
    assert ToI16(x0 + a) == x0 + a && ToI16(ly) == ly && ToI16(x0 - a) == x0 - a;
  }

  lemma MirrorNear(x0: int, y0: int, a: int, b: int, r: int)
    requires 0 <= a <= r && 0 <= b <= r && CentreRoom(x0, y0, r)
    requires Near(a, b, r) && Near(-a, b, r) && Near(a, -b, r) && Near(-a, -b, r)
    ensures AllNear(Mirror(x0, y0, a, b), x0, y0, r)
  {
    var d := Mirror(x0, y0, a, b);
    forall k | 0 <= k < |d| ensures CmdNear(d[k], x0, y0, r) {
      if k == 0 { DotNear(x0, y0, x0 + a, y0 + b, r); }
      else if k == 1 { DotNear(x0, y0, x0 - a, y0 + b, r); }
      else if k == 2 { DotNear(x0, y0, x0 + a, y0 - b, r); }
      else { DotNear(x0, y0, x0 - a, y0 - b, r); }
    }
  }

  lemma OctantNear(x0: int, y0: int, x: int, y: int, r: int)
    requires 0 <= x <= y <= r && CentreRoom(x0, y0, r) && EightNear(x, y, r)
    ensures AllNear(OctantDots(x0, y0, x, y), x0, y0, r)
  {
    MirrorNear(x0, y0, x, y, r);
    MirrorNear(x0, y0, y, x, r);
    AllNearAppend(Mirror(x0, y0, x, y), Mirror(x0, y0, y, x), x0, y0, r);
  }

  lemma SpansNear(x0: int, y0: int, x: int, y: int, pyy: int, pyx: int, r: int)
    requires 0 <= x <= y <= r && CentreRoom(x0, y0, r) && EightNear(x, y, r)
    ensures AllNear(PassSpans(x0, y0, x, y, pyy, pyx), x0, y0, r)
  {
    var d := PassSpans(x0, y0, x, y, pyy, pyx);
    var top: seq<Cmd> := if pyy != y then [Span(ToI16(y0 + y), ToI16(x0 - x), ToI16(x0 + x)),
                                          Span(ToI16(y0 - y), ToI16(x0 - x), ToI16(x0 + x))] else [];
    var side: seq<Cmd> := if pyx != x && x != y then [Span(ToI16(y0 + x), ToI16(x0 - y), ToI16(x0 + y)),
                                                      Span(ToI16(y0 - x), ToI16(x0 - y), ToI16(x0 + y))] else [];
    SpanNear(x0, y0, x, y0 + y, r);
    SpanNear(x0, y0, x, y0 - y, r);
    SpanNear(x0, y0, y, y0 + x, r);
    SpanNear(x0, y0, y, y0 - x, r);
    assert AllNear(top, x0, y0, r);
    assert AllNear(side, x0, y0, r);
    AllNearAppend(top, side, x0, y0, r);
  }

  lemma {:induction false} LoopNear(m: Midpoint, x0: int, y0: int, pyy: int, pyx: int, fill: bool, r: int)
    requires Inv(m, r) && Tight(m) && m.y <= r && CentreRoom(x0, y0, r)
    decreases m.y - m.x
    ensures AllNear(LoopCmds(m, x0, y0, pyy, pyx, fill), x0, y0, r)
  {
    if m.x + 1 < m.y {
      var m' := Advance(m);
      AdvanceInv(m, r);
      AdvanceTight(m, r);
      PassNear(m', x0, y0, pyy, pyx, fill, r);
      LoopNear(m', x0, y0, if fill then m'.y else pyy, if fill then m'.x else pyx, fill, r);
      AllNearAppend(PassCmds(m', x0, y0, pyy, pyx, fill),
                    LoopCmds(m', x0, y0, if fill then m'.y else pyy, if fill then m'.x else pyx, fill), x0, y0, r);
    }
  }

  /** The points (0, r) and (r, 0) are nearest the circle of radius r. */
  lemma AxisNear(r: int)
    requires r >= 1
    ensures Near(0, r, r) && Near(0, -r, r) && Near(r, 0, r) && Near(-r, 0, r)
  {
  }

  lemma HeadNear(x0: int, y0: int, r: int)
    requires r >= 1 && CentreRoom(x0, y0, r)
    ensures AllNear(AxisDots(x0, y0, r), x0, y0, r) && AllNear(CentreSpan(x0, y0, r), x0, y0, r)
  {
    AxisNear(r);
    assert ToI16(x0 + r) == x0 + r && ToI16(x0 - r) == x0 - r;
    assert ToI16(y0 + r) == y0 + r && ToI16(y0 - r) == y0 - r;
  }

  /** For a radius of at least 1 every point draw_circle plots is a pixel nearest the
      circle, and every row it fills is symmetric about x0 and ends at such a pixel. */
  lemma CircleNear(x0: int, y0: int, r: int, fill: bool)
    requires 1 <= r <= 16383 && CentreRoom(x0, y0, r)
    ensures AllNear(CircleCmds(x0, y0, r, fill), x0, y0, r)
  {
    StartInv(r);
    LoopNear(Start(r), x0, y0, r, 0, fill, r);
    HeadNear(x0, y0, r);
    var span: seq<Cmd> := if fill then CentreSpan(x0, y0, r) else [];
    AllNearAppend(span, AxisDots(x0, y0, r), x0, y0, r);
    AllNearAppend(span + AxisDots(x0, y0, r), LoopCmds(Start(r), x0, y0, r, 0, fill), x0, y0, r);
  }

  /** The loop variables fit int16_t for |r| <= 16383: no wrap-around in f, ddF_x, ddF_y. */
  lemma NoWrap(m: Midpoint, r: int)
    requires 1 <= r <= 16383 && Inv(m, r) && Tight(m) && m.y <= r
    ensures -0x8000 <= m.f < 0x8000 && -0x8000 <= m.ddx < 0x8000 && -0x8000 <= m.ddy < 0x8000
  {
  }
}

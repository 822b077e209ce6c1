/** draw_line (TTVout.cpp:132-141): Bresenham's algorithm with the error term
    err = dx - dy and the doubled error e2 deciding a step in x (e2 > -dy) and a
    step in y (e2 < dx). The walk is described on step counts: after i steps in x
    and j steps in y the loop is at (x0 + sx*i, y0 + sy*j) with
    err == dx*(1+j) - dy*(1+i). */
module Lines {
  import opened Bits
  import opened Frame

  datatype Pt = Pt(x: int, y: int)

  /** abs as the source's macro computes it. */
  function Abs(v: int): nat {
    if v > 0 then v else -v
  }

  /** _v_sgn: 1, 0 or -1. */
  function Sgn(v: int): int {
    if 0 < v then 1 else if v < 0 then -1 else 0
  }

  function Max(a: int, b: int): int {
    if a < b then b else a
  }

  /** The error term the loop keeps after i steps in x and j steps in y. */
  function Err(dx: int, dy: int, i: int, j: int): int {
    dx * (1 + j) - dy * (1 + i)
  }

  /** One pass of the do-loop on step counts: e2 = 2*err, a step in x when e2 > -dy,
      a step in y when e2 < dx, both error updates applied. */
  function Step(dx: int, dy: int, i: int, j: int, err: int): (r: (int, int, int)) {
    var e2 := 2 * err;
    var (i1, err1) := if e2 > -dy then (i + 1, err - dy) else (i, err);
    if e2 < dx then (i1, j + 1, err1 + dx) else (i1, j, err1)
  }

  /** Where the walk may be: inside the box, with the error term the loop keeps. */
  predicate Walking(dx: int, dy: int, i: int, j: int, err: int) {
    0 <= dx && 0 <= dy && 0 <= i <= dx && 0 <= j <= dy && err == Err(dx, dy, i, j)
  }

  /** Within half a pixel of the ideal line: 2 * |dx*j - dy*i| <= max(dx, dy). */
  predicate Close(dx: int, dy: int, i: int, j: int) {
    2 * Abs(dx * j - dy * i) <= Max(dx, dy)
  }

  /** A step of the walk: at most one in each axis, at least one in total. */
  predicate KingStep(p: (int, int), q: (int, int)) {
    (q.0 == p.0 || q.0 == p.0 + 1) && (q.1 == p.1 || q.1 == p.1 + 1) && p != q
  }

  /** Arithmetic of Err under a step. */
  lemma ErrStep(dx: int, dy: int, i: int, j: int)
    ensures Err(dx, dy, i + 1, j) == Err(dx, dy, i, j) - dy
    ensures Err(dx, dy, i, j + 1) == Err(dx, dy, i, j) + dx
  {
  }

  /** A step never leaves the box, keeps the error term in step with the counts, and
      moves by a king step unless the line is a single point. */
  lemma StepFacts(dx: int, dy: int, i: int, j: int, err: int)
    requires Walking(dx, dy, i, j, err) && (i, j) != (dx, dy)
    ensures var (i', j', e') := Step(dx, dy, i, j, err);
            Walking(dx, dy, i', j', e') && KingStep((i, j), (i', j'))
  {
    var d := dx * j - dy * i;
    assert err == d + dx - dy;
    ErrStep(dx, dy, i, j);
    ErrStep(dx, dy, i + 1, j);
    if i == dx {
      // the x end is reached, so dx*j - dy*dx <= -dx
      MulStrict(j, dy, dx);
      assert d == dx * j - dy * dx;
    }
    if j == dy {
      MulStrict(i, dx, dy);
      assert d == dx * dy - dy * i;
    }
  }

  /** A step keeps the walk within half a pixel of the ideal line. */
  lemma StepClose(dx: int, dy: int, i: int, j: int, err: int)
    requires Walking(dx, dy, i, j, err) && (i, j) != (dx, dy)
    requires Close(dx, dy, i, j)
    ensures var (i', j', e') := Step(dx, dy, i, j, err);
            Close(dx, dy, i', j')
  {
    var d := dx * j - dy * i;
    assert err == d + dx - dy;
    var (i', j', e') := Step(dx, dy, i, j, err);
    assert dx * j' - dy * i' == d + (if j' > j then dx else 0) - (if i' > i then dy else 0);
  }

  /** For k <= n - 1 and h >= 0, h * k <= h * n - h. */
  lemma MulStrict(k: int, n: int, h: int)
    requires k < n && h >= 0
    ensures h * k <= h * n - h
  {
    MulMono(k + 1, n, h);
    assert (k + 1) * h == h * k + h;
  }

  /** The (i, j) counts at which the do-loop plots, from the current pass on. */
  function Walk(dx: int, dy: int, i: int, j: int, err: int): (w: seq<(int, int)>)
    requires Walking(dx, dy, i, j, err) && ((i, j) != (dx, dy) || (dx == 0 && dy == 0))
    decreases dx + dy - i - j
  {
    if dx == 0 && dy == 0 then [(i, j)]
    else
      StepFacts(dx, dy, i, j, err);
      var (i', j', e') := Step(dx, dy, i, j, err);
      [(i, j)] + if (i', j') == (dx, dy) then [] else Walk(dx, dy, i', j', e')
  }

  /** The walk starts where it is and finishes one king step before the end. */
  lemma {:induction false} WalkEnds(dx: int, dy: int, i: int, j: int, err: int)
    requires Walking(dx, dy, i, j, err) && ((i, j) != (dx, dy) || (dx == 0 && dy == 0))
    decreases dx + dy - i - j
    ensures var w := Walk(dx, dy, i, j, err);
            |w| >= 1 && w[0] == (i, j) &&
            ((dx == 0 && dy == 0) || KingStep(w[|w| - 1], (dx, dy)))
  {
    if !(dx == 0 && dy == 0) {
      StepFacts(dx, dy, i, j, err);
      var (i', j', e') := Step(dx, dy, i, j, err);
      if (i', j') != (dx, dy) {
        WalkEnds(dx, dy, i', j', e');
        var t := Walk(dx, dy, i', j', e');
        assert Walk(dx, dy, i, j, err) == [(i, j)] + t;
      }
    }
  }

  /** The walk's k-th point lies in the box and, unless the line is a single point, is
      not its end. */
  lemma {:induction false} WalkInBox(dx: int, dy: int, i: int, j: int, err: int, k: int)
    requires Walking(dx, dy, i, j, err) && ((i, j) != (dx, dy) || (dx == 0 && dy == 0))
    requires 0 <= k < |Walk(dx, dy, i, j, err)|
    decreases dx + dy - i - j
    ensures var q := Walk(dx, dy, i, j, err)[k];
            0 <= q.0 <= dx && 0 <= q.1 <= dy && (q != (dx, dy) || (dx == 0 && dy == 0))
  {
    var w := Walk(dx, dy, i, j, err);
    if dx == 0 && dy == 0 {
      assert w == [(i, j)];
    } else {
      StepFacts(dx, dy, i, j, err);
      var (i', j', e') := Step(dx, dy, i, j, err);
      if (i', j') != (dx, dy) {
        var t := Walk(dx, dy, i', j', e');
        assert w == [(i, j)] + t;
        if k > 0 {
          WalkInBox(dx, dy, i', j', e', k - 1);
          assert w[k] == t[k - 1];
        }
      } else {
        assert w == [(i, j)];
      }
    }
  }

  /** Consecutive points of the walk are a king step apart. */
  lemma {:induction false} WalkSteps(dx: int, dy: int, i: int, j: int, err: int)
    requires Walking(dx, dy, i, j, err) && ((i, j) != (dx, dy) || (dx == 0 && dy == 0))
    decreases dx + dy - i - j
    ensures var w := Walk(dx, dy, i, j, err);
            forall k :: 0 <= k < |w| - 1 ==> KingStep(w[k], w[k + 1])
  {
    if !(dx == 0 && dy == 0) {
      StepFacts(dx, dy, i, j, err);
      var (i', j', e') := Step(dx, dy, i, j, err);
      if (i', j') != (dx, dy) {
        WalkSteps(dx, dy, i', j', e');
        WalkEnds(dx, dy, i', j', e');
        var t := Walk(dx, dy, i', j', e');
        var w := Walk(dx, dy, i, j, err);
        assert w == [(i, j)] + t;
        forall k | 0 <= k < |w| - 1 ensures KingStep(w[k], w[k + 1]) {
          if k > 0 {
            assert w[k] == t[k - 1] && w[k + 1] == t[k];
          }
        }
      }
    }
  }

  /** The step sums x + y of the walk's points strictly increase. */
  lemma {:induction false} WalkRises(dx: int, dy: int, i: int, j: int, err: int)
    requires Walking(dx, dy, i, j, err) && ((i, j) != (dx, dy) || (dx == 0 && dy == 0))
    decreases dx + dy - i - j
    ensures var w := Walk(dx, dy, i, j, err);
            forall k, k' :: 0 <= k < k' < |w| ==> w[k].0 + w[k].1 < w[k'].0 + w[k'].1
  {
    if !(dx == 0 && dy == 0) {
      StepFacts(dx, dy, i, j, err);
      var (i', j', e') := Step(dx, dy, i, j, err);
      if (i', j') != (dx, dy) {
        WalkRises(dx, dy, i', j', e');
        WalkEnds(dx, dy, i', j', e');
        var t := Walk(dx, dy, i', j', e');
        var w := Walk(dx, dy, i, j, err);
        assert w == [(i, j)] + t;
        forall k, k' | 0 <= k < k' < |w| ensures w[k].0 + w[k].1 < w[k'].0 + w[k'].1 {
          if k > 0 {
            assert w[k] == t[k - 1] && w[k'] == t[k' - 1];
          } else if k' > 1 {
            assert w[k'] == t[k' - 1] && t[0] == (i', j');
          }
        }
      }
    }
  }

  /** A walk that starts within half a pixel of the ideal line stays within it: its
      k-th point is within half a pixel too. */
  lemma {:induction false} WalkClose(dx: int, dy: int, i: int, j: int, err: int, k: int)
    requires Walking(dx, dy, i, j, err) && ((i, j) != (dx, dy) || (dx == 0 && dy == 0))
    requires Close(dx, dy, i, j) && 0 <= k < |Walk(dx, dy, i, j, err)|
    decreases dx + dy - i - j
    ensures var q := Walk(dx, dy, i, j, err)[k]; Close(dx, dy, q.0, q.1)
  {
    var w := Walk(dx, dy, i, j, err);
    if dx == 0 && dy == 0 {
      assert w == [(i, j)];
    } else {
      StepFacts(dx, dy, i, j, err);
      var (i', j', e') := Step(dx, dy, i, j, err);
      if (i', j') != (dx, dy) {
        var t := Walk(dx, dy, i', j', e');
        assert w == [(i, j)] + t;
        if k > 0 {
          StepClose(dx, dy, i, j, err);
          WalkClose(dx, dy, i', j', e', k - 1);
          assert w[k] == t[k - 1];
        }
      } else {
        assert w == [(i, j)];
      }
    }
  }

  /** a moved i steps of _v_sgn(b - a) each: a + sgn(b - a) * i. */
  function Toward(a: int, b: int, i: int): int {
    if a < b then a + i else if b < a then a - i else a
  }

  /** The plotted points of a walk from (x0, y0) towards (x1, y1). */
  function Points(w: seq<(int, int)>, x0: int, y0: int, x1: int, y1: int): (p: seq<Pt>)
    ensures |p| == |w|
  {
    seq(|w|, k requires 0 <= k < |w| => Pt(Toward(x0, x1, w[k].0), Toward(y0, y1, w[k].1)))
  }

  /** The points the do-loop plots for draw_line(x0, y0, x1, y1). */
  function LoopPoints(x0: int, y0: int, x1: int, y1: int): seq<Pt> {
    var dx: int := Abs(x1 - x0);
    var dy: int := Abs(y1 - y0);
    Points(Walk(dx, dy, 0, 0, dx - dy), x0, y0, x1, y1)
  }

  /** Every point draw_line plots, in order: the end point first when the ends differ,
      then the loop's points from the start point on. */
  function LinePoints(x0: int, y0: int, x1: int, y1: int): seq<Pt> {
    (if x0 != x1 || y0 != y1 then [Pt(x1, y1)] else []) + LoopPoints(x0, y0, x1, y1)
  }

  /** The pixel operations applied in order. */
  function PlotAll(g: Geom, s: seq<bv8>, pts: seq<Pt>, c: int): (r: seq<bv8>)
    requires Shaped(g, s)
    ensures Shaped(g, r)
    decreases |pts|
  {
    if pts == [] then s else PlotAll(g, SetPixel(g, s, pts[0].x, pts[0].y, c), pts[1..], c)
  }

  lemma {:induction false} PlotAllAppend(g: Geom, s: seq<bv8>, a: seq<Pt>, b: seq<Pt>, c: int)
    requires Shaped(g, s)
    decreases |a|
    ensures PlotAll(g, s, a + b, c) == PlotAll(g, PlotAll(g, s, a, c), b, c)
  {
    if a == [] {
      assert a + b == b;
    } else {
      assert (a + b)[1..] == a[1..] + b;
      PlotAllAppend(g, SetPixel(g, s, a[0].x, a[0].y, c), a[1..], b, c);
    }
  }

  predicate Distinct<T(==)>(p: seq<T>) {
    forall k, k' :: 0 <= k < k' < |p| ==> p[k] != p[k']
  }

  /** Plotting distinct points paints each listed pixel once and leaves every
      other pixel and the byte past the frame alone. */
  lemma {:induction false} PlotAllPixels(g: Geom, s: seq<bv8>, pts: seq<Pt>, c: int, px: int, py: int)
    requires Shaped(g, s) && Distinct(pts) && InFrame(g, px, py)
    decreases |pts|
    ensures Pixel(g, PlotAll(g, s, pts, c), px, py)
            == if Pt(px, py) in pts then PaintBit(Pixel(g, s, px, py), c) else Pixel(g, s, px, py)
    ensures PlotAll(g, s, pts, c)[g.Size()] == s[g.Size()]
  {
    if pts != [] {
      var s1 := SetPixel(g, s, pts[0].x, pts[0].y, c);
      SetPixelEffect(g, s, pts[0].x, pts[0].y, c, px, py);
      assert Distinct(pts[1..]) by {
        forall k, k' | 0 <= k < k' < |pts[1..]| ensures pts[1..][k] != pts[1..][k'] {
          assert pts[1..][k] == pts[k + 1] && pts[1..][k'] == pts[k' + 1];
        }
      }
      PlotAllPixels(g, s1, pts[1..], c, px, py);
      if Pt(px, py) == pts[0] {
        assert Pt(px, py) !in pts[1..] by {
          forall k | 0 <= k < |pts[1..]| ensures pts[1..][k] != pts[0] {
            assert pts[1..][k] == pts[k + 1];
          }
        }
      } else {
        assert Pt(px, py) in pts <==> Pt(px, py) in pts[1..] by {
          assert pts == [pts[0]] + pts[1..];
        }
      }
    }
  }

  /** The loop's coordinate after i steps of sgn(b - a): it reaches b exactly at
      i == |b - a|, stays between a and b, and a step adds sgn(b - a). */
  lemma TowardFacts(a: int, b: int, i: int)
    requires 0 <= i <= Abs(b - a)
    ensures Toward(a, b, i) == b <==> i == Abs(b - a)
    ensures a <= Toward(a, b, i) <= b || b <= Toward(a, b, i) <= a
    ensures i < Abs(b - a) ==> Toward(a, b, i + 1) == Toward(a, b, i) + Sgn(b - a)
  {
  }

  /** One pass of the do-loop plots the current point; unless the step reaches the
      end, the rest of the walk goes on from the stepped counts. */
  lemma WalkPass(dx: int, dy: int, i: int, j: int, err: int, x0: int, y0: int, x1: int, y1: int)
    requires Walking(dx, dy, i, j, err) && ((i, j) != (dx, dy) || (dx == 0 && dy == 0))
    ensures var p := Points(Walk(dx, dy, i, j, err), x0, y0, x1, y1);
            var (i', j', e') := Step(dx, dy, i, j, err);
            p != [] && p[0] == Pt(Toward(x0, x1, i), Toward(y0, y1, j)) &&
            ((i', j') == (dx, dy) ==> p[1..] == []) &&
            ((i', j') != (dx, dy) ==> Walking(dx, dy, i', j', e') &&
                                      p[1..] == Points(Walk(dx, dy, i', j', e'), x0, y0, x1, y1))
  {
    var w := Walk(dx, dy, i, j, err);
    var (i', j', e') := Step(dx, dy, i, j, err);
    if !(dx == 0 && dy == 0) {
      StepFacts(dx, dy, i, j, err);
      if (i', j') != (dx, dy) {
        var t := Walk(dx, dy, i', j', e');
        assert w == [(i, j)] + t;
        var p := Points(w, x0, y0, x1, y1);
        var q := Points(t, x0, y0, x1, y1);
        forall k | 0 <= k < |q| ensures p[1..][k] == q[k] {
          assert w[k + 1] == t[k];
        }
        assert p[1..] == q;
      }
    }
  }

  /** The coordinates of one pass: the step the source takes in x (e2 > -dy) and in y
      (e2 < dx) is the step of the counts, the point stays between the ends, and it is
      the end point exactly when the counts reach (dx, dy). */
  lemma PassMoves(dx: int, dy: int, i: int, j: int, err: int, x0: int, y0: int, x1: int, y1: int)
    requires dx == Abs(x1 - x0) && dy == Abs(y1 - y0)
    requires Walking(dx, dy, i, j, err) && ((i, j) != (dx, dy) || (dx == 0 && dy == 0))
    ensures var (i', j', e') := Step(dx, dy, i, j, err);
            var e2 := 2 * err;
            var x' := Toward(x0, x1, i');
            var y' := Toward(y0, y1, j');
            e' == err - (if e2 > -dy then dy else 0) + (if e2 < dx then dx else 0) &&
            0 <= i' <= dx && 0 <= j' <= dy &&
            x' == Toward(x0, x1, i) + (if e2 > -dy then Sgn(x1 - x0) else 0) &&
            y' == Toward(y0, y1, j) + (if e2 < dx then Sgn(y1 - y0) else 0) &&
            (x0 <= x' <= x1 || x1 <= x' <= x0) && (y0 <= y' <= y1 || y1 <= y' <= y0) &&
            ((x' == x1 && y' == y1) <==> (i', j') == (dx, dy))
  {
    var (i', j', e') := Step(dx, dy, i, j, err);
    if !(dx == 0 && dy == 0) {
      StepFacts(dx, dy, i, j, err);
    }
    TowardFacts(x0, x1, i);
    TowardFacts(y0, y1, j);
    TowardFacts(x0, x1, i');
    TowardFacts(y0, y1, j');
  }

  /** One pass of the do-loop on the memory: plotting the rest of the walk is plotting
      the current point, then what remains after the step. */
  lemma PlotPass(g: Geom, s: seq<bv8>, dx: int, dy: int, i: int, j: int, err: int,
                 x0: int, y0: int, x1: int, y1: int, c: int)
    requires Shaped(g, s)
    requires Walking(dx, dy, i, j, err) && ((i, j) != (dx, dy) || (dx == 0 && dy == 0))
    ensures var (i', j', e') := Step(dx, dy, i, j, err);
            var s' := SetPixel(g, s, Toward(x0, x1, i), Toward(y0, y1, j), c);
            var p := PlotAll(g, s, Points(Walk(dx, dy, i, j, err), x0, y0, x1, y1), c);
            ((i', j') == (dx, dy) ==> p == s') &&
            ((i', j') != (dx, dy) ==> Walking(dx, dy, i', j', e') &&
                                      p == PlotAll(g, s', Points(Walk(dx, dy, i', j', e'), x0, y0, x1, y1), c))
  {
    WalkPass(dx, dy, i, j, err, x0, y0, x1, y1);
  }

  /** draw_line(x0, y0, x1, y1, c) as the memory it leaves (TTVout.cpp:132-141). */
  function DrawLine(g: Geom, s: seq<bv8>, x0: int, y0: int, x1: int, y1: int, c: int): (r: seq<bv8>)
    requires Shaped(g, s)
    ensures Shaped(g, r)
  {
    PlotAll(g, s, LinePoints(x0, y0, x1, y1), c)
  }

  /** The k-th point of the loop sits |x - x0| = i and |y - y0| = j steps from the
      start and dx - i, dy - j steps from the end, for the walk's k-th counts (i, j). */
  lemma LoopPointAt(x0: int, y0: int, x1: int, y1: int, k: int)
    requires 0 <= k < |LoopPoints(x0, y0, x1, y1)|
    ensures var dx: int := Abs(x1 - x0); var dy: int := Abs(y1 - y0);
            var w := Walk(dx, dy, 0, 0, dx - dy);
            var q := LoopPoints(x0, y0, x1, y1)[k];
            0 <= w[k].0 <= dx && 0 <= w[k].1 <= dy &&
            Abs(q.x - x0) == w[k].0 && Abs(q.y - y0) == w[k].1 &&
            Abs(x1 - q.x) == dx - w[k].0 && Abs(y1 - q.y) == dy - w[k].1
  {
    var dx: int := Abs(x1 - x0);
    var dy: int := Abs(y1 - y0);
    WalkInBox(dx, dy, 0, 0, dx - dy, k);
  }

  /** The loop plots the start point first and stops one king step before the end. */
  lemma LoopEnds(x0: int, y0: int, x1: int, y1: int)
    ensures var p := LoopPoints(x0, y0, x1, y1);
            |p| >= 1 && p[0] == Pt(x0, y0) &&
            Abs(x1 - p[|p| - 1].x) <= 1 && Abs(y1 - p[|p| - 1].y) <= 1
  {
    var dx: int := Abs(x1 - x0);
    var dy: int := Abs(y1 - y0);
    WalkEnds(dx, dy, 0, 0, dx - dy);
    var p := LoopPoints(x0, y0, x1, y1);
    LoopPointAt(x0, y0, x1, y1, 0);
    LoopPointAt(x0, y0, x1, y1, |p| - 1);
  }

  /** Each step of the loop moves at most one pixel in each axis and strictly nearer the end. */
  lemma LoopStep(x0: int, y0: int, x1: int, y1: int, k: int)
    requires 0 <= k < |LoopPoints(x0, y0, x1, y1)| - 1
    ensures var p := LoopPoints(x0, y0, x1, y1);
            Abs(p[k + 1].x - p[k].x) <= 1 && Abs(p[k + 1].y - p[k].y) <= 1 &&
            Abs(x1 - p[k + 1].x) + Abs(y1 - p[k + 1].y) < Abs(x1 - p[k].x) + Abs(y1 - p[k].y)
  {
    var dx: int := Abs(x1 - x0);
    var dy: int := Abs(y1 - y0);
    var w := Walk(dx, dy, 0, 0, dx - dy);
    WalkSteps(dx, dy, 0, 0, dx - dy);
    LoopPointAt(x0, y0, x1, y1, k);
    LoopPointAt(x0, y0, x1, y1, k + 1);
    assert KingStep(w[k], w[k + 1]);
  }

  /** Two passes of the loop never plot the same point. */
  lemma LoopPointsDiffer(x0: int, y0: int, x1: int, y1: int, a: int, b: int)
    requires 0 <= a < b < |LoopPoints(x0, y0, x1, y1)|
    ensures LoopPoints(x0, y0, x1, y1)[a] != LoopPoints(x0, y0, x1, y1)[b]
  {
    var dx: int := Abs(x1 - x0);
    var dy: int := Abs(y1 - y0);
    var w := Walk(dx, dy, 0, 0, dx - dy);
    WalkRises(dx, dy, 0, 0, dx - dy);
    LoopPointAt(x0, y0, x1, y1, a);
    LoopPointAt(x0, y0, x1, y1, b);
    assert w[a].0 + w[a].1 < w[b].0 + w[b].1;
  }

  /** When the ends differ, the loop never plots the end point. */
  lemma LoopMissesEnd(x0: int, y0: int, x1: int, y1: int, k: int)
    requires x0 != x1 || y0 != y1
    requires 0 <= k < |LoopPoints(x0, y0, x1, y1)|
    ensures LoopPoints(x0, y0, x1, y1)[k] != Pt(x1, y1)
  {
    var dx: int := Abs(x1 - x0);
    var dy: int := Abs(y1 - y0);
    var w := Walk(dx, dy, 0, 0, dx - dy);
    WalkInBox(dx, dy, 0, 0, dx - dy, k);
    LoopPointAt(x0, y0, x1, y1, k);
    assert w[k] != (dx, dy);
  }

  /** draw_line plots the end point exactly once and no point twice. */
  lemma LineDistinct(x0: int, y0: int, x1: int, y1: int)
    ensures Pt(x1, y1) in LinePoints(x0, y0, x1, y1)
    ensures Distinct(LinePoints(x0, y0, x1, y1))
  {
    var p := LoopPoints(x0, y0, x1, y1);
    var all := LinePoints(x0, y0, x1, y1);
    var e := if x0 != x1 || y0 != y1 then [Pt(x1, y1)] else [];
    assert all == e + p;
    LoopEnds(x0, y0, x1, y1);
    if e == [] {
      assert all[0] == p[0] == Pt(x1, y1);
    } else {
      assert all[0] == Pt(x1, y1);
    }
    forall k, k' | 0 <= k < k' < |all| ensures all[k] != all[k'] {
      var b := k' - |e|;
      assert all[k'] == p[b];
      if e == [] || k > 0 {
        var a := k - |e|;
        assert all[k] == p[a];
        LoopPointsDiffer(x0, y0, x1, y1, a, b);
      } else {
        LoopMissesEnd(x0, y0, x1, y1, b);
      }
    }
  }

  /** The loop's k-th point is within half a pixel of the ideal line. */
  lemma LoopNear(x0: int, y0: int, x1: int, y1: int, k: int)
    requires 0 <= k < |LoopPoints(x0, y0, x1, y1)|
    ensures var dx: int := Abs(x1 - x0); var dy: int := Abs(y1 - y0);
            var q := LoopPoints(x0, y0, x1, y1)[k];
            2 * Abs(dx * Abs(q.y - y0) - dy * Abs(q.x - x0)) <= Max(dx, dy)
  {
    var dx: int := Abs(x1 - x0);
    var dy: int := Abs(y1 - y0);
    var w := Walk(dx, dy, 0, 0, dx - dy);
    WalkClose(dx, dy, 0, 0, dx - dy, k);
    LoopPointAt(x0, y0, x1, y1, k);
    assert Close(dx, dy, w[k].0, w[k].1);
  }

  /** Every point draw_line plots lies in the box its ends span and within half a
      pixel of the ideal line: 2 * |dx * |y - y0| - dy * |x - x0|| <= max(dx, dy). */
  lemma LineNear(x0: int, y0: int, x1: int, y1: int, q: Pt)
    requires q in LinePoints(x0, y0, x1, y1)
    ensures var dx: int := Abs(x1 - x0); var dy: int := Abs(y1 - y0);
            Abs(q.x - x0) <= dx && Abs(q.y - y0) <= dy &&
            Abs(q.x - x1) <= dx && Abs(q.y - y1) <= dy &&
            2 * Abs(dx * Abs(q.y - y0) - dy * Abs(q.x - x0)) <= Max(dx, dy)
  {
    var dx: int := Abs(x1 - x0);
    var dy: int := Abs(y1 - y0);
    var p := LoopPoints(x0, y0, x1, y1);
    if q in p {
      var k :| 0 <= k < |p| && p[k] == q;
      LoopPointAt(x0, y0, x1, y1, k);
      LoopNear(x0, y0, x1, y1, k);
    } else {
      assert q == Pt(x1, y1);
      assert dx * dy - dy * dx == 0;
    }
  }

  /** Axis-aligned walks visit every count below the end in order. */
  lemma {:induction false} WalkHorizontal(dx: int, i: int)
    requires 0 <= i < dx
    decreases dx - i
    ensures Walk(dx, 0, i, 0, dx) == seq(dx - i, k requires 0 <= k < dx - i => (i + k, 0))
  {
    var (i', j', e') := Step(dx, 0, i, 0, dx);
    assert (i', j', e') == (i + 1, 0, dx);
    if i + 1 < dx {
      WalkHorizontal(dx, i + 1);
    }
  }

  lemma {:induction false} WalkVertical(dy: int, j: int)
    requires 0 <= j < dy
    decreases dy - j
    ensures Walk(0, dy, 0, j, -dy) == seq(dy - j, k requires 0 <= k < dy - j => (0, j + k))
  {
    var (i', j', e') := Step(0, dy, 0, j, -dy);
    assert (i', j', e') == (0, j + 1, -dy);
    if j + 1 < dy {
      WalkVertical(dy, j + 1);
    }
  }

  /** A horizontal line plots exactly the columns between its ends, both included. */
  lemma LineHorizontal(x0: int, x1: int, y: int, q: Pt)
    ensures q in LinePoints(x0, y, x1, y) <==>
            q.y == y && (x0 <= q.x <= x1 || x1 <= q.x <= x0)
  {
    var dx: int := Abs(x1 - x0);
    var p := LoopPoints(x0, y, x1, y);
    var all := LinePoints(x0, y, x1, y);
    if dx == 0 {
      assert all == [Pt(x0, y)];
    } else {
      WalkHorizontal(dx, 0);
      assert all == [Pt(x1, y)] + p;
      if q.y == y && (x0 <= q.x <= x1 || x1 <= q.x <= x0) && q != Pt(x1, y) {
        assert p[Abs(q.x - x0)] == q;
      }
      if q in p {
        var k :| 0 <= k < |p| && p[k] == q;
        assert q == Pt(Toward(x0, x1, k), y);
      }
    }
  }

  /** A vertical line plots exactly the rows between its ends, both included. */
  lemma LineVertical(x: int, y0: int, y1: int, q: Pt)
    ensures q in LinePoints(x, y0, x, y1) <==>
            q.x == x && (y0 <= q.y <= y1 || y1 <= q.y <= y0)
  {
    var dy: int := Abs(y1 - y0);
    var p := LoopPoints(x, y0, x, y1);
    var all := LinePoints(x, y0, x, y1);
    if dy == 0 {
      assert all == [Pt(x, y0)];
    } else {
      WalkVertical(dy, 0);
      assert all == [Pt(x, y1)] + p;
      if q.x == x && (y0 <= q.y <= y1 || y1 <= q.y <= y0) && q != Pt(x, y1) {
        assert p[Abs(q.y - y0)] == q;
      }
      if q in p {
        var k :| 0 <= k < |p| && p[k] == q;
        assert q == Pt(x, Toward(y0, y1, k));
      }
    }
  }

  /** draw_line changes exactly the pixels it lists, each once, so draw_line(0, 0, 5, 0)
      paints exactly columns 0..5 of row 0. */
  lemma DrawLinePixels(g: Geom, s: seq<bv8>, x0: int, y0: int, x1: int, y1: int, c: int, px: int, py: int)
    requires Shaped(g, s) && InFrame(g, px, py)
    ensures Pixel(g, DrawLine(g, s, x0, y0, x1, y1, c), px, py)
            == if Pt(px, py) in LinePoints(x0, y0, x1, y1) then PaintBit(Pixel(g, s, px, py), c)
               else Pixel(g, s, px, py)
    ensures DrawLine(g, s, x0, y0, x1, y1, c)[g.Size()] == s[g.Size()]
  {
    LineDistinct(x0, y0, x1, y1);
    PlotAllPixels(g, s, LinePoints(x0, y0, x1, y1), c, px, py);
  }

  /** draw_line(0, 0, 5, 0, INVERT) on a 16x2 frame inverts exactly columns 0..5 of row 0. */
  lemma LineScenario(s: seq<bv8>, px: int, py: int)
    requires Shaped(Geom(2, 2), s) && InFrame(Geom(2, 2), px, py)
    ensures var g := Geom(2, 2);
            Pixel(g, DrawLine(g, s, 0, 0, 5, 0, INVERT), px, py)
            == if py == 0 && px <= 5 then !Pixel(g, s, px, py) else Pixel(g, s, px, py)
  {
    DrawLinePixels(Geom(2, 2), s, 0, 0, 5, 0, INVERT, px, py);
    LineHorizontal(0, 5, 0, Pt(px, py));
  }
}

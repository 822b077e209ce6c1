# TTVout drawing core in Dafny

This project models the drawing engine of TTVout, the NTSC composite-video library for
STM32, and proves properties of it. The engine draws on a packed frame buffer with one bit
per pixel: `_hres = _width / 8` bytes per row and `_vres` rows. Pixel (x, y) is bit
`0x80 >> (x & 7)` of byte `y * _hres + x / 8`. A colour is BLACK (clear), WHITE (set) or
INVERT (toggle), and any other value is ignored.

The modules:

- `Bits` (bits.dfy) holds the C integer types the source uses, its conversions (`uint8_t`,
  `int16_t`, truncating `/`) and lemmas about single pixel columns of a byte under shifts,
  masks and the logical operators.
- `Frame` (frame.dfy) holds the geometry and the pixel view `Pixel(g, s, x, y)` of a memory
  `s`: the frame's bytes followed by the one byte just past it. It specifies set_pixel,
  get_pixel (both build variants), cls/fill, the end swap of draw_row/draw_column, and
  draw_row and draw_column themselves.
- `Lines` (line.dfy) specifies draw_line: Bresenham's walk as a list of plotted points, its
  geometry, and its effect on the memory.
- `Rect` (rect.dfy) specifies draw_rect, both the outline and the filled form.
- `Circle` (circle.dfy) specifies draw_circle as the sequence of set_pixel and draw_row
  calls the midpoint loop makes, with the loop invariant and closeness to the true circle.
- `Scroll` (scroll.dfy) specifies shift in all four directions: what the code does, what
  was evidently intended, and when the two agree.
- `Blit` (blit.dfy) specifies bitmap: the header, the row layout, each written byte, and the
  resulting pixels.
- `TVout` (screen.dfy) is the object itself. It is the class `Screen` over an `array<bv8>`.
  Each operation is a method with the source's loops, and each method is proved to leave
  exactly the memory that the specification function of its module describes.
- `Numbers` (numbers.dfy) models printNumber's two digit loops.

The memory is one byte longer than the frame (`screen.Length == _hres * _vres + 1`). These
operations can touch that byte:

- shift(DOWN) writes it.
- draw_row's final `|= rbit` reads and writes it when `rbit` is 0 and the row is the last.
- draw_row with an end past the frame's width, and draw_column at a column past the
  width, write it when their bytes reach the end of the frame. For example, draw_row(0, 0,
  11, WHITE) on an 8x1 frame sets three columns of that byte.
- bitmap's spill byte after a row at the frame's right edge can be it.

The lemmas stating that this byte keeps its value are stated for in-frame ends. Some
operations have no bounds check in the source: draw_row, draw_column, bitmap, shift and
the bit-band get_pixel. These carry a `requires` that keeps every index they compute inside
that memory. Two of them also need a bound on a `uint8_t` counter. shift(LEFT) and
shift(RIGHT) count rows in a `uint8_t`, so shift requires `_vres <= 255`. bitmap counts
lines in a `uint8_t`, so it requires at most 255 lines. With more, those loops never end.
Two more loops count in an `int16_t` and never end at its top. The filled draw_rect
requires y0 + h <= 32767, and draw_column requires its larger end below 32767.

draw_line plots its end point once. It plots it before the loop, and the do-while stops
as soon as it reaches the end point, before plotting it again. So INVERT toggles the end
point once, like every other point of the line (`Lines.LineDistinct`, `Lines.LineScenario`).

## Model

| member | source | states |
|---|---|---|
| Bits.ToU8 | TTVout.cpp:185 | storing an int in a `uint8_t` keeps it modulo 256 and leaves 0..255 alone |
| Bits.ToI16 | TTVout.cpp:233 | storing an int in an `int16_t` wraps modulo 65536 into -32768..32767 and leaves that range alone |
| Bits.Quot | TTVout.cpp:233 | C's `/` truncates toward zero for both signs |
| Bits.Bit | TTVout.cpp:232 | definition: the mask `0x80 >> j` of pixel column j, as a table (Bits.BitShr shows the two agree) |
| Bits.Shl | TTVout.cpp:382 | definition: `b << n` kept to a byte, as n shifts by one |
| Bits.Shr | TTVout.cpp:379 | definition: `b >> n` on a byte, as n shifts by one |
| Bits.Ones | TTVout.cpp:189 | definition: `0xff >> n` as C computes it on an `int`, so 0 once n reaches 8 |
| Bits.ShlLit | TTVout.cpp:382 | `b << n` stored in a byte moves column j + n to column j and drops the rest |
| Bits.ShrLit | TTVout.cpp:379 | `b >> n` moves column j - n to column j |
| Bits.CarryLeftLit | TTVout.cpp:434-438 | `(a << sh) \| (b >> (8 - sh))` holds a's columns from sh, then b's first sh columns |
| Bits.CarryRightLit | TTVout.cpp:456-460 | `(a >> sh) \| (b << (8 - sh))` holds b's last sh columns, then a's columns |
| Bits.XorLit | TTVout.cpp:210 | xor toggles exactly the columns set in the mask |
| Bits.OnesLit | TTVout.cpp:189 | `0xff >> n` has exactly the columns from n on, and none once n reaches 8 |
| Bits.NotOnesLit | TTVout.cpp:191 | `~(0xff >> n)` has exactly the columns before n |
| Bits.ByteExt | TTVout.cpp:23-30 | a byte is determined by its eight pixel columns |
| Frame.Paint | TTVout.cpp:197-214 | definition: a colour applied to a byte under a mask. WHITE ors the mask in, BLACK ands its complement, INVERT xors it, and any other value keeps the byte |
| Frame.PaintLit | TTVout.cpp:23-30 | painting a byte with a mask changes exactly the masked columns: BLACK clears, WHITE sets, INVERT toggles, other values keep |
| Frame.PaintNothing | TTVout.cpp:201 | an empty mask leaves the byte as it was |
| Frame.IndexBound | TTVout.cpp:117-121 | the byte of a frame pixel lies in the frame, and its bit is pixel y * width + x of the frame |
| Frame.IndexInjective | TTVout.cpp:117-121 | two frame pixels share a byte and a mask only if they are the same pixel |
| Frame.SetPixel | TTVout.cpp:117-121 | set_pixel keeps the memory's shape; out-of-frame coordinates are ignored |
| Frame.SetPixelEffect | TTVout.cpp:117-121 | set_pixel changes the addressed pixel as its colour says, no other pixel, and not the byte past the frame |
| Frame.InvertTwice | TTVout.cpp:117-121 | set_pixel with INVERT twice restores the whole memory |
| Frame.SetPixelOtherColour | TTVout.cpp:23-30 | a colour other than BLACK, WHITE or INVERT changes nothing |
| Frame.GetPixel | TTVout.cpp:143-153 | the intended get_pixel is 1 exactly for a lit pixel inside the frame and 0 otherwise |
| Frame.SetThenGet | TTVout.cpp:143-153 | after set_pixel in the frame, WHITE reads 1, BLACK reads 0, INVERT reads the opposite of before; out of frame or another colour changes nothing |
| Frame.GetPixelIndexed | TTVout.cpp:147-151 | the non-bit-band get_pixel as written returns 0 or 1 and indexes the byte by `y * _width` |
| Frame.GetPixelIndexedWrongRow | TTVout.cpp:149 | on a 16x2 frame that read of pixel (0, 1) asks for byte 16, outside the 5-byte memory |
| Frame.GetPixelIndexedMisreads | TTVout.cpp:149 | with a memory large enough for that address, the read returns 0 for a lit pixel |
| Frame.BitBandRead | TTVout.cpp:145 | a bit-band word reads one bit of a byte, 0 or 1 |
| Frame.GetPixelBitBand | TTVout.cpp:145 | the bit-band get_pixel as written returns 0 or 1, with no bounds check |
| Frame.LsbMsb | TTVout.cpp:145 | bit 7 - j counted from the least significant end is MSB-first column j |
| Frame.BitBandAgrees | TTVout.cpp:145 | for frame pixels left of column 256, the bit-band read equals the intended get_pixel |
| Frame.BitBandDropsHighColumns | TTVout.cpp:145 | on a 512-pixel-wide frame, `x & 0xf8` sends the read of pixel (256, 0) to pixel (0, 0) |
| Frame.PaintRangeStep | TTVout.cpp:171-173 | painting one more byte extends the painted range by one |
| Frame.FullMask | TTVout.cpp:156-176 | what fill writes for each colour is the byte painted with a full mask: 0, 0xff or its complement |
| Frame.Filled | TTVout.cpp:156-176 | fill keeps the memory's shape |
| Frame.FilledBytes | TTVout.cpp:156-176 | fill(WHITE) sets every frame byte to 0xff, fill(BLACK) and cls to 0, fill(INVERT) complements it; the byte past the frame, and everything under another colour, is kept |
| Frame.FilledPixels | TTVout.cpp:156-176 | fill changes every frame pixel as its colour says |
| Frame.FillInvertTwice | TTVout.cpp:170-174 | fill(INVERT) is its own inverse |
| Frame.FillBlackThenInvert | TTVout.cpp:156-176 | fill(BLACK) then fill(INVERT) leaves what fill(WHITE) leaves |
| Frame.SpanEnds | TTVout.cpp:184-188 | definition of the code as written: descending ends (a, b) become (b, a mod 256) through the `uint8_t` temporary, and ascending ends stay |
| Frame.SpanEndsOrdered | TTVout.cpp:184-188 | for ends below 256, or ends already in order, the swap gives the smaller end first and the larger second |
| Frame.SpanEndsTruncates | TTVout.cpp:184-188 | draw_row(line, 300, 10) works on the span 10..44: the swap through a `uint8_t` truncates 300 to 44 |
| Frame.SpanEndsIntended | TTVout.cpp:184-188 | the intended ends are the two ends in increasing order |
| Frame.DrawRow | TTVout.cpp:179-216 | draw_row keeps the memory's shape; equal ends are one set_pixel |
| Frame.RowPlanOf | TTVout.cpp:183-196 | definition: draw_row's byte plan, computed after the end swap |
| Frame.RowPlanAt | TTVout.cpp:189-196 | definition: lbit = `0xff >> (lo & 7)` and rbit = `~(0xff >> (hi & 7))`. The two byte indices are `x / 8 + _hres * line` in `int16_t`, and the masks are merged when both ends share a byte |
| Frame.RowBytes | TTVout.cpp:197-214 | definition: the writes. lbit goes on the first byte, 0xff on the bytes strictly between, and rbit on the last byte |
| Frame.RowBytesAt | TTVout.cpp:197-214 | byte k after the writes is byte k painted with lbit on the first byte, 0xff strictly between and rbit on the last |
| Frame.PlanMaskLit | TTVout.cpp:189-196 | the masks cover exactly the columns from the left end up to, not including, the right end, also when both ends share a byte |
| Frame.RowByte | TTVout.cpp:190-192 | `x / 8 + _hres * line` is the byte of pixel (x, line), and for x equal to the width it is the next row's first byte |
| Frame.RowPlanShape | TTVout.cpp:189-196 | for ends inside the width, the bytes and masks draw_row builds are those of the swapped ends |
| Frame.RowBytesLit | TTVout.cpp:197-214 | a written byte, column by column: masked columns painted, the others kept |
| Frame.DrawRowPixels | TTVout.cpp:179-216 | draw_row with distinct ends inside the width changes exactly columns lo..hi-1 of its row, the right end excluded, and keeps the byte past the frame |
| Frame.RowGuard | TTVout.cpp:201 | a row that ends at the frame's last column writes the byte past the frame with an empty mask, so it keeps its value |
| Frame.ColumnHitStep | TTVout.cpp:235-239 | one more pass of the column loop adds exactly the byte `_hres` further on |
| Frame.ColumnBytes | TTVout.cpp:234-254 | definition: the bytes b, b + _hres, ... (n of them) painted with the column's bit |
| Frame.ColumnBytesStep | TTVout.cpp:235-239 | painting the next byte of the column extends the painted column by one |
| Frame.DrawColumn | TTVout.cpp:219-256 | draw_column keeps the memory's shape; equal ends are one set_pixel. It is defined where the loop ends, for a larger end below 32767 |
| Frame.ColumnStart | TTVout.cpp:232-233 | definition: the first byte `row / 8 + y0 * _hres` in `int16_t`, with y0 the smaller end after the swap |
| Frame.ColumnStartShape | TTVout.cpp:232-233 | the first byte `row / 8 + y0 * _hres` is the byte of pixel (row, lo), and the last is the byte of (row, hi) |
| Frame.ColumnHitPixel | TTVout.cpp:232-254 | a pixel's byte is one the column loop writes exactly when the pixel shares the column's byte and lies in rows lo..hi |
| Frame.DrawColumnPixels | TTVout.cpp:219-256 | draw_column with distinct ends changes exactly rows lo..hi of its column, both ends included, and keeps the byte past the frame |
| Frame.RowPastWidthReachesGuard | TTVout.cpp:179-216 | an end past the width is let through and writes the byte past the frame: draw_row(0, 0, 11) on an 8x1 frame sets its columns 0..2 |
| Frame.ColumnPastWidthReachesGuard | TTVout.cpp:219-256 | a column past the width is let through and writes the byte past the frame: draw_column(8, 0, 1) on an 8x2 frame sets its column 0 |
| Lines.ErrStep | TTVout.cpp:138-139 | a step in x lowers err by dy, and a step in y raises it by dx |
| Lines.Step | TTVout.cpp:137-139 | definition: one pass on step counts. It steps in x when 2 * err > -dy and in y when 2 * err < dx, and applies both error updates |
| Lines.Walk | TTVout.cpp:136-140 | definition: the step counts at which the do-loop plots, stopping once it reaches (dx, dy) |
| Lines.StepFacts | TTVout.cpp:136-139 | a pass stays in the box between the ends, keeps err equal to dx - dy + dx*j - dy*i, and moves one pixel in x, in y, or in both |
| Lines.StepClose | TTVout.cpp:137-139 | a pass keeps the point within half a pixel of the ideal line |
| Lines.WalkEnds | TTVout.cpp:136-140 | the loop plots its start first and stops one king step before the end |
| Lines.WalkInBox | TTVout.cpp:136-140 | every plotted point lies in the box and is not the end point |
| Lines.WalkSteps | TTVout.cpp:136-140 | consecutive plotted points are a king step apart |
| Lines.WalkRises | TTVout.cpp:136-140 | x + y of the step counts strictly increases, so no point repeats |
| Lines.WalkClose | TTVout.cpp:136-140 | every plotted point is within half a pixel of the ideal line |
| Lines.Points | TTVout.cpp:138-139 | one plotted point per walk step |
| Lines.PlotAll | TTVout.cpp:136 | a sequence of set_pixel calls keeps the memory's shape |
| Lines.PlotAllAppend | TTVout.cpp:135-140 | plotting a + b is plotting a, then b |
| Lines.PlotAllPixels | TTVout.cpp:135-140 | plotting distinct points changes exactly the listed pixels, each once, and not the byte past the frame |
| Lines.TowardFacts | TTVout.cpp:138-139 | a coordinate moved i times by `_v_sgn(b - a)` stays between a and b and reaches b exactly after abs(b - a) steps |
| Lines.WalkPass | TTVout.cpp:136-140 | a pass plots the current point, and unless the step reaches the end, the loop goes on with the stepped state |
| Lines.PassMoves | TTVout.cpp:137-139 | the source's `e2 > -dy` and `e2 < dx` tests move x0 and y0 exactly as the walk's step does |
| Lines.PlotPass | TTVout.cpp:136-140 | one pass on the memory is one set_pixel followed by the rest of the loop |
| Lines.DrawLine | TTVout.cpp:132-141 | draw_line keeps the memory's shape |
| Lines.LoopPoints | TTVout.cpp:133-140 | definition: the points the do-loop plots from the start point on, each step going by the sign of the difference |
| Lines.LinePoints | TTVout.cpp:135-140 | definition: every point draw_line plots, in order. The end point comes first when the ends differ, then the loop's points |
| Lines.LoopPointAt | TTVout.cpp:136-140 | the k-th plotted point is i, j steps from the start and dx - i, dy - j from the end |
| Lines.LoopEnds | TTVout.cpp:136-140 | the loop plots (x0, y0) first and stops within one pixel of (x1, y1) in each axis |
| Lines.LoopStep | TTVout.cpp:136-140 | each pass moves at most one pixel in each axis and strictly nearer the end |
| Lines.LoopPointsDiffer | TTVout.cpp:136-140 | two passes never plot the same point |
| Lines.LoopMissesEnd | TTVout.cpp:140 | when the ends differ, the loop never plots the end point |
| Lines.LineDistinct | TTVout.cpp:135-140 | draw_line plots the end point, once, and no point twice |
| Lines.LoopNear | TTVout.cpp:136-140 | every point of the loop is within half a pixel of the ideal line |
| Lines.LineNear | TTVout.cpp:132-141 | every plotted point lies in the box the ends span and within half a pixel of the ideal line |
| Lines.WalkHorizontal | TTVout.cpp:136-140 | with dy = 0 the walk is every count from i up to dx - 1 |
| Lines.WalkVertical | TTVout.cpp:136-140 | with dx = 0 the walk is every count from j up to dy - 1 |
| Lines.LineHorizontal | TTVout.cpp:132-141 | a horizontal line plots exactly the columns between its ends, both included |
| Lines.LineVertical | TTVout.cpp:132-141 | a vertical line plots exactly the rows between its ends, both included |
| Lines.DrawLinePixels | TTVout.cpp:132-141 | draw_line changes exactly the pixels it plots, each once, and keeps the byte past the frame |
| Lines.LineScenario | TTVout.cpp:132-141 | draw_line(0, 0, 5, 0, INVERT) on a 16x2 frame inverts exactly columns 0..5 of row 0 |
| Rect.FillRows | TTVout.cpp:278-280 | the filled rows keep the memory's shape. It is defined where the `int16_t` counter ends the loop, for a last row of at most 32767 |
| Rect.DrawRectFilled | TTVout.cpp:277-281 | the filled form keeps the memory's shape, for y0 + h of at most 32767 |
| Rect.DrawRect | TTVout.cpp:259-282 | draw_rect keeps the memory's shape, and the filled form requires y0 + h of at most 32767 |
| Rect.DistinctConcat | TTVout.cpp:268-275 | joining point lists with no point in common keeps the points distinct |
| Rect.OutlinePoints | TTVout.cpp:260-276 | definition: the outline's points in the source's order after w-- and h--. That is one pixel, one line, or the two horizontal lines followed, when h > 1, by the two vertical lines |
| Rect.OutlineSides | TTVout.cpp:267-275 | with w, h of at least 2 the outline is the top, bottom, left and right lines, the sides only when h > 2 |
| Rect.OutlineUnfold | TTVout.cpp:260-276 | without wrap-around, the outline's `int16_t` arithmetic gives the four lines of the box (x0, y0)..(x0 + w - 1, y0 + h - 1) |
| Rect.SidesFacts | TTVout.cpp:268-275 | each side holds exactly the pixels of its edge; the vertical sides leave out the corner rows |
| Rect.SidesDistinct | TTVout.cpp:268-275 | no side lists a pixel twice |
| Rect.SidesBorder | TTVout.cpp:267-275 | the four sides together list every border pixel exactly once |
| Rect.OutlineBorder | TTVout.cpp:260-276 | with w, h of at least 1 the outline lists every border pixel exactly once and nothing else |
| Rect.OutlineThin | TTVout.cpp:263-266 | an outline one pixel wide or high is that single pixel or line, with every pixel listed once |
| Rect.OutlinePixels | TTVout.cpp:260-276 | the outline changes every border pixel once, nothing else, and not the byte past the frame |
| Rect.FillRowsPixels | TTVout.cpp:278-280 | painting rows line..last-1 changes exactly columns x0..x1-1 of those rows |
| Rect.FilledPixels | TTVout.cpp:277-281 | a filled rectangle with w of at least 1 inside the frame changes exactly the pixels of [x0, x0 + w) x [y0, y0 + h) |
| Rect.FillColumnPixels | TTVout.cpp:277-281 | rows whose two ends are equal are one set_pixel each: exactly column x0 of those rows changes, clipped to the frame |
| Rect.FilledThinPixels | TTVout.cpp:277-281 | a filled rectangle with w = 0 changes exactly the one-pixel column x0 of rows y0 .. y0 + h - 1, clipped to the frame, for y0 + h up to 32767 |
| Circle.Advance | TTVout.cpp:306-313 | a pass raises x by 1 and lowers y by at most 1 |
| Circle.Start | TTVout.cpp:287-292 | definition: before the loop, f = 1 - r, ddF_x = 1, ddF_y = -2r, x = 0 and y = r |
| Circle.StartInv | TTVout.cpp:287-292 | before the loop, ddF_x = 2x + 1, ddF_y = -2y and f = (x + 1)^2 + y^2 - y - r^2, and for r of at least 1 the tight bounds on f hold |
| Circle.AdvanceInv | TTVout.cpp:306-313 | a pass keeps those closed forms |
| Circle.AdvanceTight | TTVout.cpp:305-313 | a pass taken while x + 1 < y keeps 2x + 1 - 2y <= f < 2x + 1 |
| Circle.TightNear | TTVout.cpp:305-313 | under the invariant and bounds, x^2 + y^2 - y < r^2 <= x^2 + y^2 + y, so all eight mirrored points are nearest the circle |
| Circle.StopsAtDiagonal | TTVout.cpp:305 | when the loop stops, y - 1 <= x <= y: the octant is done |
| Circle.PassSpans | TTVout.cpp:316-327 | the fill rows of a pass are draw_row calls |
| Circle.Mirror | TTVout.cpp:331-338 | four mirrored set_pixel calls |
| Circle.OctantDots | TTVout.cpp:331-338 | the eight set_pixel calls of a pass |
| Circle.CentreSpan | TTVout.cpp:296-297 | a filled circle first draws the row through the centre |
| Circle.AxisDots | TTVout.cpp:299-302 | the four axis points are set_pixel calls |
| Circle.Perform | TTVout.cpp:285-340 | the calls applied in order keep the memory's shape |
| Circle.PerformFirst | TTVout.cpp:285-340 | performing calls is the first call, then the rest |
| Circle.PerformAppend | TTVout.cpp:285-340 | performing a + b is performing a, then b |
| Circle.DrawCircle | TTVout.cpp:285-340 | for a radius of at most 16383, where the `int16_t` ddF_y does not wrap, draw_circle keeps the memory's shape |
| Circle.PassCmds | TTVout.cpp:315-338 | definition: the calls of one pass. The fill rows come first when filling, then the eight points |
| Circle.LoopCmds | TTVout.cpp:305-339 | definition: the calls of the loop from a given state on, while x + 1 < y |
| Circle.CircleCmds | TTVout.cpp:294-339 | definition, for a radius of at most 16383: every call draw_circle makes, in order |
| Circle.CircleSplit | TTVout.cpp:294-305 | draw_circle is the centre row when filling, the four axis points, then the loop |
| Circle.LoopSplit | TTVout.cpp:305-339 | a pass is its own calls, then the loop from the stepped state |
| Circle.Dots | TTVout.cpp:331-338 | the set_pixel calls among a list of calls |
| Circle.DotsAppend | TTVout.cpp:331-338 | the set_pixel calls of a + b are those of a, then those of b |
| Circle.PassDots | TTVout.cpp:316-338 | the octant points of a pass do not depend on filling |
| Circle.LoopDots | TTVout.cpp:305-339 | the loop's octant points do not depend on filling |
| Circle.FillKeepsDots | TTVout.cpp:331-338 | for a radius of at most 16383, a filled circle plots the same octant points as an outline, in the same order |
| Circle.AllNearAppend | TTVout.cpp:285-340 | nearness of a + b follows from that of a and of b |
| Circle.PassNear | TTVout.cpp:316-338 | every call of a pass is nearest the circle |
| Circle.DotNear | TTVout.cpp:331-338 | a plotted point whose offsets are nearest the circle is a call nearest it |
| Circle.SpanNear | TTVout.cpp:319-325 | a fill row whose end offsets are nearest the circle is a call nearest it |
| Circle.MirrorNear | TTVout.cpp:331-338 | the four mirrored points of a nearest offset are nearest |
| Circle.OctantNear | TTVout.cpp:331-338 | the eight octant points of a pass are nearest |
| Circle.SpansNear | TTVout.cpp:316-327 | the fill rows of a pass end at nearest points |
| Circle.LoopNear | TTVout.cpp:305-339 | every call of the loop is nearest the circle |
| Circle.AxisNear | TTVout.cpp:299-302 | the points (0, r) and (r, 0) are nearest the circle of radius r |
| Circle.HeadNear | TTVout.cpp:296-302 | the centre row and the axis points are nearest the circle |
| Circle.CircleNear | TTVout.cpp:285-340 | for a radius from 1 to 16383, every point draw_circle plots and every row end it draws is nearest the circle |
| Circle.NoWrap | TTVout.cpp:287-313 | for radius up to 16383, f, ddF_x and ddF_y never leave the `int16_t` range |
| Scroll.RowOf | TTVout.cpp:402-424 | byte k lies in the row starting at k - k % _hres, which lies in the frame |
| Scroll.RowsApart | TTVout.cpp:404 | moving a pixel d rows down adds d * _hres to its byte, which stays in the frame exactly when y + d < _vres |
| Scroll.UpPartial | TTVout.cpp:406-411 | the memory after t passes of the UP loop keeps its length |
| Scroll.UpStep | TTVout.cpp:406-411 | a pass reads byte t + distance * _hres before the loop has touched it, copies it down and zeroes it |
| Scroll.ShiftUp | TTVout.cpp:402-412 | shift(UP) keeps the memory's shape |
| Scroll.ShiftUpIntended | TTVout.cpp:402-412 | the intended UP moves every byte up by distance rows and clears the rows it leaves |
| Scroll.ShiftUpIntendedPixels | TTVout.cpp:402-412 | intended UP: pixel (x, y) becomes pixel (x, y + distance), or dark past the bottom |
| Scroll.ShiftUpAsIntended | TTVout.cpp:402-412 | for 0 < distance and 2 * distance <= _vres the code does exactly what is intended |
| Scroll.ShiftUpFar | TTVout.cpp:404-406 | a distance of at least _vres changes nothing |
| Scroll.ShiftUpZero | TTVout.cpp:406-411 | distance 0 clears the whole frame, while the intended shift would change nothing |
| Scroll.ShiftUpLeavesStale | TTVout.cpp:402-412 | when frame size < 2 * distance * _hres and distance * _hres < frame size, byte frame size - distance * _hres keeps its old value where the intended shift clears it |
| Scroll.ShiftUpStale | TTVout.cpp:406-411 | with _vres < 2 * distance, rows in the middle keep their old contents: vres = 3, distance 2 |
| Scroll.DownPartial | TTVout.cpp:418-423 | the memory after t passes of the DOWN loop keeps its length |
| Scroll.DownStep | TTVout.cpp:418-423 | a pass reads its source byte before the loop has touched it, copies it down and zeroes it |
| Scroll.ShiftDown | TTVout.cpp:413-424 | shift(DOWN) keeps the memory's shape |
| Scroll.ShiftDownIntended | TTVout.cpp:413-424 | the intended DOWN moves every byte down by distance rows and clears the rows it leaves |
| Scroll.ShiftDownIntendedByte | TTVout.cpp:413-424 | intended DOWN: the byte of pixel (x, y) is the byte of (x, y - distance), or 0 in the top rows |
| Scroll.ShiftDownIntendedPixels | TTVout.cpp:413-424 | intended DOWN: pixel (x, y) becomes pixel (x, y - distance), or dark in the top rows |
| Scroll.ShiftDownAsIntended | TTVout.cpp:413-424 | while 0 < distance and 2 * distance * _hres <= frame size + 1, the frame gets what is intended, and the byte past the frame gets a copied byte |
| Scroll.ShiftDownLeavesStale | TTVout.cpp:413-424 | past that limit, byte distance * _hres - 1 keeps its old value where the intended shift clears it |
| Scroll.ShiftDownFar | TTVout.cpp:415-418 | a distance beyond _vres changes nothing |
| Scroll.ShiftDownZero | TTVout.cpp:418-423 | distance 0 clears the frame and the byte past it |
| Scroll.ShiftDownOverruns | TTVout.cpp:414 | shift(DOWN) writes the byte past the frame: hres = 1, vres = 1, distance 1 |
| Scroll.ShiftDownStale | TTVout.cpp:418-423 | with 2 * distance * _hres > frame size + 1, bytes in the middle keep their old contents |
| Scroll.LeftStep | TTVout.cpp:432-440 | a LEFT pass reads bytes q + t and q + t + 1 before the loop has touched them and builds byte t |
| Scroll.LeftTail | TTVout.cpp:441-444 | after the passes the last byte is read, zeroed, and its shifted value stored |
| Scroll.ShiftLeft | TTVout.cpp:425-446 | for `_vres <= 255`, where the `uint8_t` row counter reaches `_vres`, and `distance / 8 < _hres`, shift(LEFT) keeps the memory's shape |
| Scroll.LeftPartial | TTVout.cpp:432-440 | definition: row byte m after t inner passes of shift(LEFT). Bytes before t are carried, bytes q..q + t - 1 are zeroed, and the rest are untouched |
| Scroll.LeftByte | TTVout.cpp:428-445 | definition: row byte m after the whole row. It holds the carried bytes, then the tail byte, then zeros where the loop read, and leaves the rest untouched |
| Scroll.LeftRowPartial | TTVout.cpp:432-440 | the memory after t passes on one row keeps its length |
| Scroll.LeftRow | TTVout.cpp:429-445 | the memory after one row keeps its length |
| Scroll.LeftRowStart | TTVout.cpp:429-431 | before the first pass the memory is as it was |
| Scroll.LeftRowStep | TTVout.cpp:432-440 | pass t reads bytes q + t and q + t + 1 as they were, zeroes byte q + t, then writes byte t |
| Scroll.LeftRowEnd | TTVout.cpp:441-444 | the row ends with its last byte read as it was, zeroed, and shifted into place |
| Scroll.LeftRows | TTVout.cpp:428-445 | the memory after n rows keeps its length |
| Scroll.LeftRowsEnds | TTVout.cpp:428-445 | no rows is the memory as it was, and all _vres rows is shift(LEFT) |
| Scroll.LeftRowsStep | TTVout.cpp:428-445 | row n works on bytes no earlier row has touched |
| Scroll.LeftByteFrame | TTVout.cpp:429-445 | a row's result depends only on that row's bytes |
| Scroll.LeftRowByte | TTVout.cpp:425-446 | byte m of row n after shift(LEFT) is computed from row n alone |
| Scroll.ShiftLeftIntended | TTVout.cpp:425-446 | the intended LEFT builds each row from the same row shifted by distance |
| Scroll.LeftByteIntendedLit | TTVout.cpp:434-437 | intended LEFT: column j of byte m comes from byte m + q or m + q + 1 of the row, dark past the row |
| Scroll.LeftSource | TTVout.cpp:429-437 | pixel (x + distance, y) lies in byte m + q or m + q + 1 of row y, at the column the carry takes it from |
| Scroll.ShiftLeftIntendedAt | TTVout.cpp:425-446 | a pixel after the intended LEFT is its column of the intended row byte |
| Scroll.ShiftLeftIntendedPixels | TTVout.cpp:425-446 | intended LEFT: pixel (x, y) becomes pixel (x + distance, y), or dark past the right edge, with no carry between rows |
| Scroll.ShiftLeftAsIntended | TTVout.cpp:425-446 | for 2 * (distance / 8) <= _hres the code does exactly what is intended |
| Scroll.ShiftLeftLeavesStale | TTVout.cpp:428-445 | with 2 * (distance / 8) > _hres, byte _hres - distance / 8 of every row keeps its old value where the intended shift clears it |
| Scroll.ShiftLeftStale | TTVout.cpp:425-446 | with 2 * (distance / 8) > _hres, bytes in the middle keep their old contents: hres = 3, distance 16 |
| Scroll.RightStep | TTVout.cpp:454-462 | a RIGHT pass reads bytes h - 1 - q - t and h - 2 - q - t before the loop has touched them and builds byte h - 1 - t |
| Scroll.RightTail | TTVout.cpp:463-466 | after the passes the first byte is read, zeroed, and its shifted value stored |
| Scroll.ShiftRight | TTVout.cpp:447-468 | for `_vres <= 255`, where the `uint8_t` row counter reaches `_vres`, and `distance / 8 < _hres`, shift(RIGHT) keeps the memory's shape |
| Scroll.RightPartial | TTVout.cpp:454-462 | definition: row byte m after t inner passes of shift(RIGHT), the mirror of LEFT |
| Scroll.RightByte | TTVout.cpp:450-467 | definition: row byte m after the whole row, the mirror of LEFT |
| Scroll.RightRowPartial | TTVout.cpp:454-462 | the memory after t passes on one row keeps its length |
| Scroll.RightRow | TTVout.cpp:451-467 | the memory after one row keeps its length |
| Scroll.RightRowStart | TTVout.cpp:451-453 | before the first pass the memory is as it was |
| Scroll.RightRowStep | TTVout.cpp:454-462 | pass t reads its two bytes as they were, zeroes the first, then writes byte h - 1 - t |
| Scroll.RightRowEnd | TTVout.cpp:463-466 | the row ends with its first byte read as it was, zeroed, and shifted into place |
| Scroll.RightRows | TTVout.cpp:450-467 | the memory after n rows keeps its length |
| Scroll.RightRowsEnds | TTVout.cpp:450-467 | no rows is the memory as it was, and all _vres rows is shift(RIGHT) |
| Scroll.RightRowsStep | TTVout.cpp:450-467 | row n works on bytes no earlier row has touched |
| Scroll.RightByteFrame | TTVout.cpp:451-467 | a row's result depends only on that row's bytes |
| Scroll.RightRowByte | TTVout.cpp:447-468 | byte m of row n after shift(RIGHT) is computed from row n alone |
| Scroll.ShiftRightIntended | TTVout.cpp:447-468 | the intended RIGHT builds each row from the same row shifted by distance |
| Scroll.RightByteIntendedLit | TTVout.cpp:456-459 | intended RIGHT: column j of byte m comes from byte m - q or m - q - 1 of the row, dark before the row |
| Scroll.RightSource | TTVout.cpp:451-459 | pixel (x - distance, y) lies in byte m - q or m - q - 1 of row y, at the column the carry takes it from |
| Scroll.ShiftRightIntendedAt | TTVout.cpp:447-468 | a pixel after the intended RIGHT is its column of the intended row byte |
| Scroll.ShiftRightIntendedPixels | TTVout.cpp:447-468 | intended RIGHT: pixel (x, y) becomes pixel (x - distance, y), or dark left of distance, with no carry between rows |
| Scroll.ShiftRightAsIntended | TTVout.cpp:447-468 | for 2 * (distance / 8) <= _hres the code does exactly what is intended |
| Scroll.ShiftRightLeavesStale | TTVout.cpp:450-467 | with 2 * (distance / 8) > _hres, byte _hres - distance / 8 of every row keeps its old value where the intended shift clears it |
| Scroll.ShiftRightStale | TTVout.cpp:447-468 | with 2 * (distance / 8) > _hres, bytes in the middle keep their old contents: hres = 3, distance 16 |
| Scroll.LeftThenRight | TTVout.cpp:425-468 | LEFT then RIGHT by the same distance clears exactly the columns left of distance and keeps the rest |
| Scroll.Shift | TTVout.cpp:395-470 | shift keeps the memory's shape (for LEFT and RIGHT when `_vres <= 255` and `distance / 8 < _hres`), and an unknown direction changes nothing |
| Blit.ReadHeader | TTVout.cpp:351-358 | a width of 0 is read from bmp[i] and a line count of 0 from the next byte, and the image starts after the bytes read |
| Blit.Layout | TTVout.cpp:360-368 | definition: (width / 8 + 1, width & 7) when the width is not a multiple of 8, else (width / 8, 8) |
| Blit.LayoutCovers | TTVout.cpp:360-368 | ceil(width / 8) bytes per row, with xtra columns used in the last byte, cover the width exactly |
| Blit.ImageRow | TTVout.cpp:378-383 | row l reads max(W, 1) image bytes |
| Blit.RowFront | TTVout.cpp:371-385 | the row's first p bytes are written and the rest of the memory kept |
| Blit.RowFrontStart | TTVout.cpp:372-379 | the first byte is written from the screen byte and image byte 0 |
| Blit.RowFrontStep | TTVout.cpp:380-385 | the next byte is read as it was, then rebuilt from image bytes p - 1 and p |
| Blit.BlitRow | TTVout.cpp:371-390 | one row writes only its bytes and the spill byte after them |
| Blit.BlitRowSteps | TTVout.cpp:371-390 | the row is the front bytes, then the last one finished, then the spill byte |
| Blit.KeepMask | TTVout.cpp:372-377 | definition: `(0xff << lshift) \| temp`, where temp is `0xff >> rshift + xtra` for a one-byte row and 0 otherwise |
| Blit.RowFirst | TTVout.cpp:376-379 | definition: the first byte is the screen byte and-ed with the keep mask, or-ed with `temp >> rshift` |
| Blit.RowMid | TTVout.cpp:380-385 | definition: a middle byte is `temp << lshift` or-ed with the next image byte `>> rshift` |
| Blit.RowLast | TTVout.cpp:386-387 | definition: the last byte, or-ed with `save & (0xff >> rshift + xtra)` when rshift + xtra < 8 |
| Blit.RowSpill | TTVout.cpp:388-390 | definition: the spill byte, its first rshift + xtra - 8 columns cleared, or-ed with `temp << lshift` |
| Blit.KeepMaskLit | TTVout.cpp:372-377 | the first byte's mask keeps the columns before x & 7 and, in a one-byte row, those after the image |
| Blit.RowFirstLit | TTVout.cpp:372-379 | the first byte keeps the screen's columns before x & 7 (and after the image in a one-byte row) and holds image columns from there |
| Blit.RowMidLit | TTVout.cpp:380-385 | a middle byte holds the end of one image byte, then the start of the next |
| Blit.RowLastLit | TTVout.cpp:386-387 | the last byte takes back the saved screen columns after the image |
| Blit.SpilledLit | TTVout.cpp:388-389 | the spill byte loses exactly its first r + xtra - 8 columns, and none when that is not positive |
| Blit.RowSpillLit | TTVout.cpp:388-390 | the spill byte keeps the screen's columns after the image and takes the image's last columns |
| Blit.MidByteLit | TTVout.cpp:380-387 | a byte after the first holds the right image columns, and the last one also holds the saved screen columns |
| Blit.BlitRowEffect | TTVout.cpp:371-390 | for a padded row, every byte the row writes holds the image columns in its span and the screen's columns elsewhere |
| Blit.RowRoom | TTVout.cpp:371 | a row that fits the frame's width ends inside its line |
| Blit.BlitRowPixels | TTVout.cpp:371-390 | one padded row sets pixel (x + k, line) to image column k and keeps every other pixel |
| Blit.BlitRowGuard | TTVout.cpp:388-390 | a padded row that fits keeps the byte past the frame |
| Blit.PlanOf | TTVout.cpp:349-368 | the header and layout give 1 <= xtra <= 8 and max(W, 1) bytes per row |
| Blit.BlitRows | TTVout.cpp:370-391 | for at most 255 lines, which the `uint8_t` row counter reaches, the rows blitted in order keep the memory's length |
| Blit.RowAt | TTVout.cpp:371 | definition: row l's first frame byte `(y + l) * _hres + x / 8` |
| Blit.BlitRowsNext | TTVout.cpp:370-391 | row l reads image bytes start + l * n .. start + (l + 1) * n and writes from frame byte (y + l) * _hres + x / 8 |
| Blit.Bitmap | TTVout.cpp:343-392 | bitmap keeps the memory's length |
| Blit.BlitRowsPixels | TTVout.cpp:370-391 | the rows of a padded image that fits set pixel (x + k, y + l) to column k of image row l and keep every other pixel and the byte past the frame |
| Blit.BitmapPixels | TTVout.cpp:343-392 | bitmap with a padded image that fits sets exactly the pixels of the image's box to the image's, for 8 columns when the width is 0, and changes nothing else |
| TVout.Screen.Init | TTVout.cpp:96-103 | init stores the memory, the width and height, `_hres = _width / 8` and `_vres = _height` |
| TVout.Screen.SetPixel | TTVout.cpp:117-121 | the array afterwards is `Frame.SetPixel` of the array before |
| TVout.Screen.GetPixel | TTVout.cpp:143-145 | the bit-band read returns 0 or 1, equals `Frame.GetPixelBitBand`, and for frame pixels left of column 256 is 1 exactly for a lit pixel |
| TVout.Screen.Cls | TTVout.cpp:123-125 | cls leaves `Frame.Filled` with BLACK: every frame byte 0 |
| TVout.Screen.Fill | TTVout.cpp:156-176 | fill leaves `Frame.Filled`; BLACK and WHITE reset the cursor to (0, 0), other colours leave it alone |
| TVout.Screen.FillRows | TTVout.cpp:161-173 | the row loop of fill leaves `Frame.Filled` |
| TVout.Screen.FillRow | TTVout.cpp:162-173 | one row of fill paints its _hres bytes and nothing else |
| TVout.Screen.DrawRow | TTVout.cpp:179-216 | the array afterwards is `Frame.DrawRow` of the array before |
| TVout.Screen.RowMasks | TTVout.cpp:184-196 | the swapped ends give the bytes and masks of `Frame.RowPlanAt` |
| TVout.Screen.PaintRow | TTVout.cpp:197-214 | the writes paint lbit on the first byte, 0xff strictly between, rbit on the last |
| TVout.Screen.DrawColumn | TTVout.cpp:219-256 | the array afterwards is `Frame.DrawColumn` of the array before |
| TVout.Screen.PaintColumn | TTVout.cpp:234-254 | for a larger end below 32767, which the `int16_t` counter passes, the loop paints rows lo..hi of the column, one byte every _hres bytes |
| TVout.Screen.DrawLine | TTVout.cpp:132-141 | the array afterwards is `Lines.DrawLine` of the array before |
| TVout.Screen.LineLoop | TTVout.cpp:136-140 | the do-loop plots exactly the loop's points, in order |
| TVout.Screen.DrawRect | TTVout.cpp:259-282 | the array afterwards is `Rect.DrawRect` of the array before |
| TVout.Screen.RectOutline | TTVout.cpp:260-276 | the outline branch plots exactly the outline's points, in order |
| TVout.Screen.RectFill | TTVout.cpp:277-281 | the filled branch leaves `Rect.DrawRectFilled` |
| TVout.Screen.CircleOctants | TTVout.cpp:331-338 | the eight set_pixel calls of a pass |
| TVout.Screen.CircleSpans | TTVout.cpp:316-327 | the draw_row calls of a pass of a filled circle |
| TVout.Screen.CircleAxisDots | TTVout.cpp:299-302 | the four axis points |
| TVout.Screen.DrawCircle | TTVout.cpp:285-340 | the array afterwards is `Circle.DrawCircle` of the array before |
| TVout.Screen.CircleLoop | TTVout.cpp:305-339 | the midpoint loop performs exactly the loop's calls |
| TVout.Screen.CirclePass | TTVout.cpp:316-338 | one pass performs its fill rows, then its octant points |
| TVout.Screen.Bitmap | TTVout.cpp:343-392 | the array afterwards is `Blit.Bitmap` of the array before |
| TVout.Screen.BitmapLines | TTVout.cpp:370-391 | for at most 255 lines, which the `uint8_t` row counter reaches, the row loop leaves `Blit.BlitRows` |
| TVout.Screen.BitmapRow | TTVout.cpp:371-390 | one row leaves `Blit.BlitRow` and moves the image index on by max(W, 1) |
| TVout.Screen.BitmapRowMiddle | TTVout.cpp:380-385 | the inner loop writes the row's bytes after the first and hands on the last image byte and the last saved byte |
| TVout.Screen.BitmapRowEnd | TTVout.cpp:386-390 | the last byte takes back the saved columns and the spill byte takes the image's last columns |
| TVout.FirstByte | TTVout.cpp:372-379 | the first byte of a row is `Blit.RowFirst` |
| TVout.LastByte | TTVout.cpp:386-387 | the last byte of a row is `Blit.RowLast` |
| TVout.SpillByte | TTVout.cpp:388-390 | the spill byte is `Blit.RowSpill` |
| TVout.Screen.Shift | TTVout.cpp:395-470 | the array afterwards is `Scroll.Shift` of the array before |
| TVout.Screen.ShiftUp | TTVout.cpp:402-412 | the UP loop leaves `Scroll.ShiftUp` |
| TVout.Screen.ShiftDown | TTVout.cpp:413-424 | the DOWN loop leaves `Scroll.ShiftDown` |
| TVout.Screen.ShiftLeft | TTVout.cpp:425-446 | the LEFT rows leave `Scroll.ShiftLeft` |
| TVout.Screen.ShiftRowLeft | TTVout.cpp:429-445 | one LEFT row leaves `Scroll.LeftRow` |
| TVout.Screen.ShiftRight | TTVout.cpp:447-468 | the RIGHT rows leave `Scroll.ShiftRight` |
| TVout.Screen.ShiftRowRight | TTVout.cpp:451-467 | one RIGHT row leaves `Scroll.RightRow` |
| Numbers.LowDigits | TTVout.cpp:720-723 | every stored digit is below base |
| Numbers.Glyph | TTVout.cpp:726-728 | a digit below 10 prints as '0' + d, and one from 10 to 35 as a letter 'A' + d - 10 |
| Numbers.Emitted | TTVout.cpp:725-728 | one character is printed per stored digit |
| Numbers.LowDigitsValue | TTVout.cpp:720-723 | the stored digits, least significant first, stand for n |
| Numbers.LowDigitsTop | TTVout.cpp:720-723 | the last digit stored, which is printed first, is not 0 |
| Numbers.LowDigitsFit | TTVout.cpp:712-723 | below 2^k there are at most k digits, so a 32-bit n fits the 32-byte buffer |
| Numbers.ReadEmitted | TTVout.cpp:725-728 | reading the printed characters back in base gives the value of the digits |
| Numbers.Printed | TTVout.cpp:711-729 | definition: everything printNumber prints. That is "0" for 0, otherwise the digits from the most significant one |
| Numbers.ReadBack | TTVout.cpp:711-729 | for bases 2 to 36, the text read back in base is n; it has at most 32 characters and no leading zero |
| Numbers.PrintNumber | TTVout.cpp:711-729 | printNumber prints exactly `Numbers.Printed`: "0" for 0, else the digits from the most significant |
| Numbers.StoreDigits | TTVout.cpp:720-723 | the first loop stores exactly the digits of n, least significant first, in at most 32 bytes |
| Numbers.EmitDigits | TTVout.cpp:725-728 | the second loop prints the stored digits from the last to the first |

## Left out

- NTSC start-up, delay_frame and the blanking-period hooks (TTVout.cpp:82-115) hand work to
  the video-timing object, which is not part of this model.
- The bit-band base address `_adr` (TTVout.cpp:102) is a hardware memory mapping. The model
  reads bit-band word w as bit w % 8 of byte w / 8 of the frame, counted from the least
  significant end.
- tone and noTone, printFloat (floating point), the print, println and write overloads,
  print_char, inc_txtline, select_font and the fonts are left out. They are timer calls,
  floating point, and text glue around a font layout that is not part of this model.
- Numbers.PrintNumber returns the characters it would print: print(char) draws through the
  fonts, which are not part of this model.
- The scan-out reading the frame while it is drawn (concurrency) is not modelled.
- TTVout.h is not part of this model. The colour values come from the note at
  TTVout.cpp:23-30. The directions are taken as UP 0, DOWN 1, LEFT 2, RIGHT 3.
- sp() is not part of this model. `Frame.Paint` defines its effect from the colour note.
- TVout.Screen.Init requires a width that is a multiple of 8 and at least 8. It requires a
  memory of exactly `_hres * _vres + 1` bytes and `_hres * _vres < 32768`, so that byte
  indices fit the `int16_t` that draw_row and draw_column keep them in. The source accepts
  any width.
- TVout.Screen.GetPixel models the build with bit-banding. The other build's get_pixel is
  modelled only as the function `Frame.GetPixelIndexed`, because its address is wrong (see
  Findings).
- TVout.Screen.DrawRow, TVout.Screen.DrawColumn, TVout.Screen.Bitmap, TVout.Screen.Shift and
  TVout.Screen.GetPixel require that every byte they touch lies in the memory. The source
  does not check this, and writes past it otherwise.
- TVout.Screen.ShiftLeft and TVout.Screen.ShiftRight require `_vres <= 255` and
  `distance / 8 < _hres`. Their row counter is a `uint8_t`, so with more rows the loop
  never ends. With a larger distance `src` starts past the row.
- Scroll.ShiftLeft, Scroll.ShiftRight and Scroll.Shift (for LEFT and RIGHT) require the
  same `_vres <= 255` and `distance / 8 < _hres`, and so do the lemmas about them. With
  more rows shift never returns, so there is no memory to describe.
- TVout.Screen.Bitmap requires at most 255 lines, because its row counter is a `uint8_t`.
  It takes the image as a sequence of bytes, and `bmp` is never written.
- Blit.BlitRows and TVout.Screen.BitmapLines require at most 255 lines, for the same
  `uint8_t` row counter: from 256 lines on bitmap never returns.
- TVout.Screen.DrawCircle requires `radius <= 16383`, which keeps f, ddF_x and ddF_y inside
  `int16_t` (`Circle.NoWrap`). The loop locals are unbounded integers.
- Circle.CircleCmds, Circle.DrawCircle, Circle.CircleSplit, Circle.FillKeepsDots and
  Circle.CircleNear require a radius of at most 16383. From 16384 on, `int16_t ddF_y =
  -2 * radius` wraps and draw_circle makes other calls, which the model does not describe.
- Rect.OutlineBorder and Rect.OutlinePixels require the box to stay inside the `int16_t`
  range. Rect.DrawRect itself models the `int16_t` arithmetic of draw_rect with `Bits.ToI16`.
- Numbers.PrintNumber requires `base >= 2`. Base 0 divides by zero and base 1 never ends.
- Numbers.ReadBack is stated only for bases up to 36. Above that, the letters run past 'Z'
  and wrap at 256, so the text no longer reads back.
- Rect.DrawRect, Rect.DrawRectFilled, Rect.FillRows, TVout.Screen.DrawRect and
  TVout.Screen.RectFill require, for the filled form, `y0 + h <= 32767` (`Rect.RowsFit`).
  The source's `int16_t` row counter is compared with the `int` y0 + h, so from 32768 on
  draw_rect never returns.
- Frame.DrawColumn, TVout.Screen.DrawColumn and TVout.Screen.PaintColumn require the larger
  end to be below 32767 (`Frame.ColumnFits`, and `hi < 0x7fff` on the loop). The source's
  `int16_t` y0 never exceeds a y1 of 32767, so draw_column never returns there.
- Local loop counters and addresses (for example `si` in bitmap, `src` and `dst` in shift,
  and the row counters of draw_rect and draw_column) are unbounded integers. Under the
  requires above they stay in their C types' ranges.

## Findings

| source | as written | input that shows it | evidently intended | confidence | as-written member | corrected member |
|---|---|---|---|---|---|---|
| TTVout.cpp:149 | the non-bit-band get_pixel reads byte `(x >> 3) + y * _width` | 16x2 frame, pixel (0, 1): byte 16 is read, but the pixel is in byte 2 | byte `(x >> 3) + y * _hres` | high, not executed | Frame.GetPixelIndexedWrongRow | Frame.SetThenGet |
| TTVout.cpp:145 | the bit-band address uses `x & 0xf8`, which drops the bits of x from 256 up | 512-pixel-wide frame, pixel (256, 0) reads pixel (0, 0) | `x & ~7` | medium (matters only for frames wider than 256 pixels), not executed | Frame.BitBandDropsHighColumns | Frame.GetPixel |
| TTVout.cpp:184-188 | draw_row and draw_column swap their ends through a `uint8_t` | draw_row(line, 300, 10): the span becomes 10..44 | the two ends in increasing order | high, not executed | Frame.SpanEndsTruncates | Frame.SpanEndsIntended |
| TTVout.cpp:406-411 | shift(UP) copies only while the source is in the frame, so with 2 * distance > _vres middle rows are never cleared | vres = 3, hres = 1, distance 2: memory a, b, c becomes c, b, 0 | c, 0, 0 | high, not executed | Scroll.ShiftUpStale | Scroll.ShiftUpIntendedPixels |
| TTVout.cpp:414 | shift(DOWN) starts writing at `_screen[_vres * _hres]`, one byte past the frame | hres = 1, vres = 1, distance 1: the byte past the frame gets the frame's byte | start at the frame's last byte | high, not executed | Scroll.ShiftDownOverruns | Scroll.ShiftDownIntendedPixels |
| TTVout.cpp:418-423 | shift(DOWN) leaves middle rows uncleared when 2 * distance * _hres > frame size + 1 | hres = 2, vres = 3, distance 2: byte 3 keeps its old value instead of becoming 0 | the top distance rows cleared | high, not executed | Scroll.ShiftDownStale | Scroll.ShiftDownIntended |
| TTVout.cpp:432-444 | shift(LEFT) zeroes only the bytes it reads, so with 2 * (distance / 8) > _hres middle bytes keep old pixels | hres = 3, distance 16: row a, b, c becomes c, b, 0 | c, 0, 0 | high, not executed | Scroll.ShiftLeftStale | Scroll.ShiftLeftIntendedPixels |
| TTVout.cpp:454-466 | shift(RIGHT) has the same fault, mirrored | hres = 3, distance 16: row a, b, c becomes 0, b, a | 0, 0, a | high, not executed | Scroll.ShiftRightStale | Scroll.ShiftRightIntendedPixels |
